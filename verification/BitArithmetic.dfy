// Bits of unbounded natural numbers, as the importers use them.
module BitArithmetic {

  function Pow2(n: nat): (p: nat)
    ensures p > 0
  {
    if n == 0 then 1 else 2 * Pow2(n - 1)
  }

  function Bit(a: nat, i: nat): bool
  {
    if i == 0 then a % 2 == 1 else Bit(a / 2, i - 1)
  }

  function Shl(a: nat, k: nat): nat
  {
    if k == 0 then a else 2 * Shl(a, k - 1)
  }

  function Shr(a: nat, k: nat): nat
  {
    if k == 0 then a else Shr(a / 2, k - 1)
  }

  function Low(a: nat, w: nat): nat
  {
    if w == 0 then 0 else a % 2 + 2 * Low(a / 2, w - 1)
  }

  function Or(a: nat, b: nat): nat
    decreases a + b
  {
    if a == 0 && b == 0 then 0
    else (if a % 2 == 1 || b % 2 == 1 then 1 else 0) + 2 * Or(a / 2, b / 2)
  }

  lemma {:induction false} ZeroHasNoBits(i: nat)
    ensures !Bit(0, i)
  {
    if i == 0 {
    } else {
      ZeroHasNoBits(i - 1);
    }
  }

  lemma {:induction false} OrBit(a: nat, b: nat, i: nat)
    ensures Bit(Or(a, b), i) <==> Bit(a, i) || Bit(b, i)
  {
    if a == 0 && b == 0 {
      ZeroHasNoBits(i);
    } else if i != 0 {
      OrBit(a / 2, b / 2, i - 1);
    }
  }

  lemma {:induction false} ShlBit(a: nat, k: nat, i: nat)
    ensures Bit(Shl(a, k), i) <==> i >= k && Bit(a, i - k)
  {
    if k != 0 && i != 0 {
      ShlBit(a, k - 1, i - 1);
    }
  }

  lemma {:induction false} ShrBit(a: nat, k: nat, i: nat)
    ensures Bit(Shr(a, k), i) <==> Bit(a, i + k)
  {
    if k == 0 {
    } else {
      ShrBit(a / 2, k - 1, i);
    }
  }

  lemma {:induction false} LowBit(a: nat, w: nat, i: nat)
    ensures Bit(Low(a, w), i) <==> i < w && Bit(a, i)
  {
    if w == 0 {
      ZeroHasNoBits(i);
    } else if i != 0 {
      LowBit(a / 2, w - 1, i - 1);
    }
  }

  lemma {:induction false} SameBits(a: nat, b: nat)
    requires forall i: nat :: Bit(a, i) == Bit(b, i)
    ensures a == b
    decreases a + b
  {
    if a != 0 || b != 0 {
      forall i: nat
        ensures Bit(a / 2, i) == Bit(b / 2, i)
      {
        assert Bit(a, i + 1) == Bit(b, i + 1);
      }
      assert Bit(a, 0) == Bit(b, 0);
      SameBits(a / 2, b / 2);
    }
  }

  lemma {:induction false} TopBit(a: nat) returns (i: nat)
    requires a > 0
    ensures Bit(a, i)
  {
    if a % 2 == 1 {
      i := 0;
    } else {
      i := TopBit(a / 2);
      i := i + 1;
    }
  }

  /** A number that fits w bits has no bit from w on. */
  lemma {:induction false} FittingBits(a: nat, w: nat, i: nat)
    requires a < Pow2(w) && i >= w
    ensures !Bit(a, i)
  {
    if w == 0 {
      ZeroHasNoBits(i);
    } else {
      FittingBits(a / 2, w - 1, i - 1);
    }
  }

  /** And a number that does not fit has one. */
  lemma {:induction false} OverflowBit(a: nat, w: nat) returns (i: nat)
    requires a >= Pow2(w)
    ensures i >= w && Bit(a, i)
  {
    if w == 0 {
      i := TopBit(a);
    } else {
      i := OverflowBit(a / 2, w - 1);
      i := i + 1;
    }
  }

  /** Numbers without a common bit are or-ed by adding them. */
  lemma {:induction false} OrDisjoint(a: nat, b: nat)
    requires forall i: nat :: !(Bit(a, i) && Bit(b, i))
    ensures Or(a, b) == a + b
    decreases a + b
  {
    if a != 0 || b != 0 {
      forall i: nat
        ensures !(Bit(a / 2, i) && Bit(b / 2, i))
      {
        assert !(Bit(a, i + 1) && Bit(b, i + 1));
      }
      assert !(Bit(a, 0) && Bit(b, 0));
      OrDisjoint(a / 2, b / 2);
    }
  }
}

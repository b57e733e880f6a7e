// The firmware's checksum: the shift register of crc8 against division of polynomials over GF(2).
module Crc8 {

  // ---- The program ------------------------------------------------------------------------------

  /** A uint8_t, as its eight bits. */
  datatype Byte = Byte(b7: bool, b6: bool, b5: bool, b4: bool, b3: bool, b2: bool, b1: bool, b0: bool)

  const ZERO := Byte(false, false, false, false, false, false, false, false)

  /** The bitwise exclusive or of two bytes. */
  function Xor(x: Byte, y: Byte): Byte
  {
    Byte(x.b7 != y.b7, x.b6 != y.b6, x.b5 != y.b5, x.b4 != y.b4, x.b3 != y.b3, x.b2 != y.b2, x.b1 != y.b1, x.b0 != y.b0)
  }

  /** A byte shifted left by one and truncated to a byte. */
  function Left(x: Byte): Byte
  {
    Byte(x.b6, x.b5, x.b4, x.b3, x.b2, x.b1, x.b0, false)
  }

  /** 0x07, the low coefficients of the generator. */
  const GENERATOR := Byte(false, false, false, false, false, true, true, true)

  function Shift(crc: Byte): Byte
  {
    if crc.b7 then Xor(Left(crc), GENERATOR) else Left(crc)
  }

  lemma ShiftForm(x: Byte)
    ensures Shift(x) == Byte(x.b6, x.b5, x.b4, x.b3, x.b2, x.b1 != x.b7, x.b0 != x.b7, x.b7)
  {
  }

  function ShiftTimes(crc: Byte, n: nat): Byte
  {
    if n == 0 then crc else Shift(ShiftTimes(crc, n - 1))
  }

  function Crc(data: seq<Byte>): Byte
  {
    if data == [] then ZERO else ShiftTimes(Xor(Crc(data[..|data| - 1]), data[|data| - 1]), 8)
  }

  method ComputeCrc8(data: array<Byte>, length: nat) returns (crc: Byte)
    requires length <= data.Length
    ensures crc == Crc(data[..length])
  {
    crc := ZERO;
    for index := 0 to length
      invariant crc == Crc(data[..index])
    {
      assert data[..index + 1][..index] == data[..index];
      crc := Xor(crc, data[index]);
      ghost var mixed := crc;
      for bit := 0 to 8
        invariant crc == ShiftTimes(mixed, bit)
      {
        crc := if crc.b7 then Xor(Left(crc), GENERATOR) else Left(crc);
      }
    }
  }

  // ---- Bits of a message ----------------------------------------------------------------------------

  /** Bit k of a byte, counted from the highest; beyond the lowest there are only zeros. */
  function Bit(x: Byte, k: int): bool
  {
    if k < 4 then if k < 2 then if k == 0 then x.b7 else k == 1 && x.b6
                  else if k == 2 then x.b5 else x.b4
    else if k < 6 then if k == 4 then x.b3 else x.b2
         else if k == 6 then x.b1 else k == 7 && x.b0
  }

  /** The bits of a byte, highest first. */
  function Bits(x: Byte): (r: seq<bool>)
    ensures |r| == 8
    ensures forall k :: 0 <= k < 8 ==> r[k] == Bit(x, k)
  {
    seq(8, k => Bit(x, k))
  }

  function MessageBits(data: seq<Byte>): (r: seq<bool>)
    ensures |r| == 8 * |data|
  {
    if data == [] then [] else MessageBits(data[..|data| - 1]) + Bits(data[|data| - 1])
  }

  /** One bit of the message enters the register. */
  function Feed(r: Byte, b: bool): Byte
  {
    if r.b7 != b then Xor(Left(r), GENERATOR) else Left(r)
  }

  lemma FeedForm(r: Byte, b: bool)
    ensures var f := r.b7 != b;
            Feed(r, b) == Byte(r.b6, r.b5, r.b4, r.b3, r.b2, r.b1 != f, r.b0 != f, f)
  {
  }

  function FeedAll(r: Byte, bits: seq<bool>): Byte
  {
    if bits == [] then r else Feed(FeedAll(r, bits[..|bits| - 1]), bits[|bits| - 1])
  }

  lemma {:induction false} FeedConcat(r: Byte, a: seq<bool>, b: seq<bool>)
    ensures FeedAll(r, a + b) == FeedAll(FeedAll(r, a), b)
  {
    if b == [] {
      assert a + b == a;
    } else {
      assert (a + b)[..|a + b| - 1] == a + b[..|b| - 1];
      FeedConcat(r, a, b[..|b| - 1]);
    }
  }

  lemma FeedNext(c: Byte, b: seq<bool>, n: nat)
    requires n < |b|
    ensures FeedAll(c, b[..n + 1]) == Feed(FeedAll(c, b[..n]), b[n])
  {
    assert b[..n + 1][..n] == b[..n];
  }

  /** A byte with its first n bits gone. */
  function Pending(d: Byte, n: nat): Byte
  {
    if n == 0 then d else Left(Pending(d, n - 1))
  }

  /** A register mixed with pending bits shifts as the register fed the first of them, mixed with the rest. */
  lemma ShiftMixed(y: Byte, z: Byte)
    ensures Shift(Xor(y, z)) == Xor(Feed(y, z.b7), Left(z))
  {
    hide Shift, Feed;
    ShiftForm(Xor(y, z));
    FeedForm(y, z.b7);
  }

  lemma LeftBit(x: Byte, k: nat)
    ensures Bit(Left(x), k) == Bit(x, k + 1)
  {
  }

  lemma {:induction false} PendingBit(d: Byte, n: nat, k: nat)
    ensures Bit(Pending(d, n), k) == Bit(d, k + n)
  {
    hide Left, Bit;
    if n == 0 {
    } else {
      LeftBit(Pending(d, n - 1), k);
      PendingBit(d, n - 1, k + 1);
    }
  }

  lemma NothingPending(d: Byte)
    ensures Pending(d, 8) == ZERO
  {
    hide Pending;
    forall k | 0 <= k < 8
      ensures Bit(Pending(d, 8), k) == Bit(ZERO, k)
    {
      PendingBit(d, 8, k);
    }
    BitsInjective(Pending(d, 8), ZERO);
  }

  lemma BitsInjective(x: Byte, y: Byte)
    requires forall k :: 0 <= k < 8 ==> Bit(x, k) == Bit(y, k)
    ensures x == y
  {
    assert Bit(x, 0) == Bit(y, 0) && Bit(x, 1) == Bit(y, 1) && Bit(x, 2) == Bit(y, 2) && Bit(x, 3) == Bit(y, 3);
    assert Bit(x, 4) == Bit(y, 4) && Bit(x, 5) == Bit(y, 5) && Bit(x, 6) == Bit(y, 6) && Bit(x, 7) == Bit(y, 7);
  }

  lemma {:induction false} ByteSteps(c: Byte, d: Byte, n: nat)
    requires n <= 8
    ensures ShiftTimes(Xor(c, d), n) == Xor(FeedAll(c, Bits(d)[..n]), Pending(d, n))
  {
    hide Shift, Xor, Left, Feed, Bits;
    if n == 0 {
    } else {
      ByteSteps(c, d, n - 1);
      ShiftMixed(FeedAll(c, Bits(d)[..n - 1]), Pending(d, n - 1));
      PendingBit(d, n - 1, 0);
      FeedNext(c, Bits(d), n - 1);
    }
  }

  lemma XorZero(x: Byte)
    ensures Xor(x, ZERO) == x && Xor(ZERO, x) == x
  {
  }

  lemma XorCancels(x: Byte, y: Byte)
    ensures Xor(x, y) == ZERO <==> x == y
  {
  }

  lemma XorChanges(x: Byte, y: Byte)
    ensures Xor(x, y) == x <==> y == ZERO
  {
  }

  /** Mixing a byte in and shifting eight times is feeding its eight bits. */
  lemma ByteIsEightBits(c: Byte, d: Byte)
    ensures ShiftTimes(Xor(c, d), 8) == FeedAll(c, Bits(d))
  {
    ByteSteps(c, d, 8);
    NothingPending(d);
    assert Bits(d)[..8] == Bits(d);
    XorZero(FeedAll(c, Bits(d)));
  }

  /** The program's register is the bitwise one. */
  lemma {:induction false} CrcIsBitwise(data: seq<Byte>)
    ensures Crc(data) == FeedAll(ZERO, MessageBits(data))
  {
    hide Feed, ShiftTimes;
    if data == [] {
    } else {
      var front, last := data[..|data| - 1], data[|data| - 1];
      CrcIsBitwise(front);
      ByteIsEightBits(Crc(front), last);
      FeedConcat(ZERO, MessageBits(front), Bits(last));
    }
  }

  // ---- Polynomials over GF(2), highest coefficient first ------------------------------------------------

  function Coefficient(p: seq<bool>, i: int): bool
  {
    0 <= i < |p| && p[i]
  }

  /** Coefficient i of q(x) * (x^8 + x^2 + x + 1): the sum of the four shifted ones. */
  function Product(q: seq<bool>, i: int): bool
  {
    ((Coefficient(q, i) != Coefficient(q, i - 6)) != Coefficient(q, i - 7)) != Coefficient(q, i - 8)
  }

  /** m(x) * x^8 == q(x) * (x^8 + x^2 + x + 1) + r(x), where the register r holds a remainder of degree below 8. */
  ghost predicate Divides(m: seq<bool>, q: seq<bool>, r: Byte)
  {
    |q| == |m| && forall i :: 0 <= i < |m| + 8 ==> Coefficient(m, i) == (Product(q, i) != Bit(r, i - |m|))
  }

  lemma FeedBits(r: Byte, b: bool, k: nat)
    requires k < 8
    ensures Bit(Feed(r, b), k) == (Bit(r, k + 1) != (k >= 5 && r.b7 != b))
  {
    hide Feed;
    FeedForm(r, b);
  }

  lemma ProductOneMore(q: seq<bool>, f: bool, i: nat)
    ensures Product(q + [f], i) == (Product(q, i) != (f && (i == |q| || i == |q| + 6 || i == |q| + 7 || i == |q| + 8)))
  {
  }

  /** The division goes on: the quotient gains the bit that decided whether the generator was subtracted. */
  lemma DivideOneMore(m: seq<bool>, q: seq<bool>, r: Byte, b: bool)
    requires Divides(m, q, r)
    ensures Divides(m + [b], q + [r.b7 != b], Feed(r, b))
  {
    hide Feed, Product;
    var n, f := |m|, r.b7 != b;
    forall i | 0 <= i < n + 9
      ensures Coefficient(m + [b], i) == (Product(q + [f], i) != Bit(Feed(r, b), i - n - 1))
    {
      ProductOneMore(q, f, i);
      if i > n {
        FeedBits(r, b, i - n - 1);
      }
      if i == n + 8 {
        ProductEnds(q);
      }
    }
  }

  lemma ProductEnds(q: seq<bool>)
    ensures !Product(q, |q| + 8)
  {
  }

  /** The register holds a remainder of m(x) * x^8 divided by x^8 + x^2 + x + 1. */
  lemma {:induction false} RegisterIsRemainder(m: seq<bool>) returns (q: seq<bool>)
    ensures Divides(m, q, FeedAll(ZERO, m))
  {
    hide Feed, Divides;
    if m == [] {
      q := [];
      NothingDivides();
    } else {
      var front := m[..|m| - 1];
      q := RegisterIsRemainder(front);
      var r := FeedAll(ZERO, front);
      DivideOneMore(front, q, r, m[|m| - 1]);
      q := q + [r.b7 != m[|m| - 1]];
      assert m == front + [m[|m| - 1]];
    }
  }

  lemma NothingDivides()
    ensures Divides([], [], ZERO)
  {
  }

  lemma {:induction false} QuotientsAgree(m: seq<bool>, q: seq<bool>, r: Byte, q': seq<bool>, r': Byte, n: nat)
    requires Divides(m, q, r) && Divides(m, q', r') && n <= |m|
    ensures forall j :: j < n ==> Coefficient(q, j) == Coefficient(q', j)
  {
    if n == 0 {
    } else {
      QuotientsAgree(m, q, r, q', r', n - 1);
      var i := n - 1;
      assert Product(q, i) == Product(q', i);
      assert Coefficient(q, i - 6) == Coefficient(q', i - 6);
      assert Coefficient(q, i - 7) == Coefficient(q', i - 7);
      assert Coefficient(q, i - 8) == Coefficient(q', i - 8);
    }
  }

  /** Quotient and remainder are unique. */
  lemma RemainderIsUnique(m: seq<bool>, q: seq<bool>, r: Byte, q': seq<bool>, r': Byte)
    requires Divides(m, q, r) && Divides(m, q', r')
    ensures q == q' && r == r'
  {
    QuotientsAgree(m, q, r, q', r', |m|);
    assert q == q' by {
      assert forall j :: 0 <= j < |m| ==> q[j] == Coefficient(q, j) && q'[j] == Coefficient(q', j);
    }
    forall k | 0 <= k < 8
      ensures Bit(r, k) == Bit(r', k)
    {
      var i := |m| + k;
      assert Coefficient(m, i) == (Product(q, i) != Bit(r, i - |m|));
      assert Coefficient(m, i) == (Product(q, i) != Bit(r', i - |m|));
    }
    BitsInjective(r, r');
  }

  /**
    crc8 computes, for messages of every length, the one remainder of the message times x^8
    modulo x^8 + x^2 + x + 1 over GF(2).
   */
  lemma CrcIsTheRemainder(data: seq<Byte>, r: Byte)
    ensures r == Crc(data) <==> exists q :: Divides(MessageBits(data), q, r)
  {
    hide Divides;
    CrcIsBitwise(data);
    var q := RegisterIsRemainder(MessageBits(data));
    if exists q' :: Divides(MessageBits(data), q', r) {
      var q' :| Divides(MessageBits(data), q', r);
      RemainderIsUnique(MessageBits(data), q, Crc(data), q', r);
    }
  }

  // ---- What the checksum detects ---------------------------------------------------------------------------

  function XorBytes(a: seq<Byte>, b: seq<Byte>): (r: seq<Byte>)
    requires |a| == |b|
    ensures |r| == |a|
    ensures forall i :: 0 <= i < |r| ==> r[i] == Xor(a[i], b[i])
  {
    seq(|a|, i requires 0 <= i < |a| => Xor(a[i], b[i]))
  }

  lemma ShiftLinear(x: Byte, y: Byte)
    ensures Shift(Xor(x, y)) == Xor(Shift(x), Shift(y))
  {
    hide Shift;
    ShiftForm(Xor(x, y));
    ShiftForm(x);
    ShiftForm(y);
  }

  lemma {:induction false} ShiftTimesLinear(x: Byte, y: Byte, n: nat)
    ensures ShiftTimes(Xor(x, y), n) == Xor(ShiftTimes(x, n), ShiftTimes(y, n))
  {
    hide Shift, Xor;
    if n == 0 {
    } else {
      ShiftTimesLinear(x, y, n - 1);
      ShiftLinear(ShiftTimes(x, n - 1), ShiftTimes(y, n - 1));
    }
  }

  lemma XorShuffle(a: Byte, b: Byte, c: Byte, d: Byte)
    ensures Xor(Xor(a, b), Xor(c, d)) == Xor(Xor(a, c), Xor(b, d))
  {
  }

  /** The checksum of a sum of two messages is the sum of their checksums. */
  lemma {:induction false} CrcLinear(a: seq<Byte>, b: seq<Byte>)
    requires |a| == |b|
    ensures Crc(XorBytes(a, b)) == Xor(Crc(a), Crc(b))
  {
    hide ShiftTimes, Xor;
    if a == [] {
      XorZero(ZERO);
    } else {
      var fa, fb, la, lb := a[..|a| - 1], b[..|b| - 1], a[|a| - 1], b[|b| - 1];
      CrcLinear(fa, fb);
      assert XorBytes(a, b)[..|a| - 1] == XorBytes(fa, fb);
      XorShuffle(Crc(fa), Crc(fb), la, lb);
      ShiftTimesLinear(Xor(Crc(fa), la), Xor(Crc(fb), lb), 8);
    }
  }

  lemma ShiftOfZero(x: Byte)
    ensures Shift(x) == ZERO <==> x == ZERO
  {
  }

  lemma {:induction false} ShiftTimesOfZero(x: Byte, n: nat)
    ensures ShiftTimes(x, n) == ZERO <==> x == ZERO
  {
    hide Shift;
    if n == 0 {
    } else {
      ShiftTimesOfZero(x, n - 1);
      ShiftOfZero(ShiftTimes(x, n - 1));
    }
  }

  /** A message followed by a byte checks to zero exactly when that byte is its checksum. */
  lemma AppendedChecksumChecks(data: seq<Byte>, check: Byte)
    ensures Crc(data + [check]) == ZERO <==> check == Crc(data)
  {
    hide ShiftTimes, Xor;
    assert (data + [check])[..|data|] == data;
    ShiftTimesOfZero(Xor(Crc(data), check), 8);
    XorCancels(Crc(data), check);
  }

  /** The bits in error lie within eight consecutive ones, anywhere, and there is at least one. */
  ghost predicate BurstWithin(bits: seq<bool>, start: nat)
  {
    && (exists i :: 0 <= i < |bits| && bits[i])
    && forall i :: 0 <= i < |bits| && bits[i] ==> start <= i < start + 8
  }

  /** The register after the first n bits of a message that goes on with zeros. */
  function Register(bits: seq<bool>, n: nat): Byte
  {
    if n == 0 then ZERO else Feed(Register(bits, n - 1), Coefficient(bits, n - 1))
  }

  lemma {:induction false} RegisterIsFeedAll(bits: seq<bool>, n: nat)
    requires n <= |bits|
    ensures Register(bits, n) == FeedAll(ZERO, bits[..n])
  {
    hide Feed;
    if n == 0 {
    } else {
      RegisterIsFeedAll(bits, n - 1);
      FeedNext(ZERO, bits, n - 1);
    }
  }

  lemma FeedZero(r: Byte)
    ensures Feed(r, false) == Shift(r)
  {
  }

  /** Feeding zeros neither clears a register nor sets a clear one. */
  lemma {:induction false} ZerosKeep(bits: seq<bool>, from: nat, n: nat)
    requires from <= n && forall i :: from <= i < n ==> !Coefficient(bits, i)
    ensures Register(bits, n) == ZERO <==> Register(bits, from) == ZERO
  {
    hide Feed, Shift;
    if from == n {
    } else {
      ZerosKeep(bits, from, n - 1);
      FeedZero(Register(bits, n - 1));
      ShiftOfZero(Register(bits, n - 1));
    }
  }

  lemma {:induction false} WindowSteps(bits: seq<bool>, start: nat, window: seq<bool>, n: nat)
    requires n <= |window| && Register(bits, start) == ZERO
    requires forall k :: 0 <= k < |window| ==> window[k] == Coefficient(bits, start + k)
    ensures Register(bits, start + n) == FeedAll(ZERO, window[..n])
  {
    hide Feed;
    if n == 0 {
    } else {
      WindowSteps(bits, start, window, n - 1);
      FeedNext(ZERO, window, n - 1);
    }
  }

  /** Eight bits that are not all zero, fed to a clear register, do not leave it clear. */
  lemma WindowRegister(bits: seq<bool>, start: nat, i: nat)
    requires Register(bits, start) == ZERO
    requires start <= i < start + 8 && Coefficient(bits, i)
    ensures Register(bits, start + 8) != ZERO
  {
    hide Feed, ShiftTimes, Register, Coefficient;
    var window := seq(8, k => Coefficient(bits, start + k));
    var x := Byte(window[0], window[1], window[2], window[3], window[4], window[5], window[6], window[7]);
    assert Bits(x) == window;
    WindowSteps(bits, start, window, 8);
    assert window[..8] == window;
    ByteIsEightBits(ZERO, x);
    XorZero(x);
    ShiftTimesOfZero(x, 8);
    assert window[i - start];
  }

  /** No burst within eight bits leaves the register clear. */
  lemma BurstRegister(bits: seq<bool>, start: nat)
    requires BurstWithin(bits, start)
    ensures FeedAll(ZERO, bits) != ZERO
  {
    hide FeedAll, Feed;
    ZerosKeep(bits, 0, start);
    var i :| 0 <= i < |bits| && bits[i];
    WindowRegister(bits, start, i);
    if |bits| <= start + 8 {
      ZerosKeep(bits, |bits|, start + 8);
    } else {
      ZerosKeep(bits, start + 8, |bits|);
    }
    RegisterIsFeedAll(bits, |bits|);
    assert bits[..|bits|] == bits;
  }

  /** Every error burst spanning at most eight bits, at any bit position, changes the checksum. */
  lemma BurstsAreDetected(data: seq<Byte>, error: seq<Byte>, start: nat)
    requires |data| == |error| && BurstWithin(MessageBits(error), start)
    ensures Crc(XorBytes(data, error)) != Crc(data)
  {
    hide Crc, MessageBits, BurstWithin;
    CrcLinear(data, error);
    CrcIsBitwise(error);
    BurstRegister(MessageBits(error), start);
    XorChanges(Crc(data), Crc(error));
  }

  // ---- Parity ---------------------------------------------------------------------------------------------------

  /** An odd number of the bits is set. */
  function Odd(bits: seq<bool>): bool
  {
    if bits == [] then false else Odd(bits[..|bits| - 1]) != bits[|bits| - 1]
  }

  function OddByte(r: Byte): bool
  {
    ((((((r.b7 != r.b6) != r.b5) != r.b4) != r.b3) != r.b2) != r.b1) != r.b0
  }

  lemma FeedParity(r: Byte, b: bool)
    ensures OddByte(Feed(r, b)) == (OddByte(r) != b)
  {
    hide Feed;
    FeedForm(r, b);
  }

  /** The generator is a multiple of x + 1, so the register has the parity of the message. */
  lemma {:induction false} RegisterParity(bits: seq<bool>)
    ensures OddByte(FeedAll(ZERO, bits)) == Odd(bits)
  {
    if bits == [] {
    } else {
      RegisterParity(bits[..|bits| - 1]);
      FeedParity(FeedAll(ZERO, bits[..|bits| - 1]), bits[|bits| - 1]);
    }
  }

  /** Any odd number of flipped bits, wherever they are, changes the checksum. */
  lemma OddErrorsAreDetected(data: seq<Byte>, error: seq<Byte>)
    requires |data| == |error| && Odd(MessageBits(error))
    ensures Crc(XorBytes(data, error)) != Crc(data)
  {
    hide Crc, MessageBits, Odd;
    CrcLinear(data, error);
    CrcIsBitwise(error);
    RegisterParity(MessageBits(error));
    XorChanges(Crc(data), Crc(error));
  }
}

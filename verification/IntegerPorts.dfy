// What arrives when a backend reports a value of any type on an integer port: the number that was
// meant, another number, or an exception. Texts with blanks are several items; see TextReplies.
module IntegerPorts {
  import opened Common
  import opened DecimalText
  import opened Divisibility
  import opened FmiReply
  import opened FmiText

  // ---- What the proxy reads of a text ------------------------------------------------------------------

  predicate NumberThen(text: string, sign: string, digits: string, rest: string, n: int)
  {
    && (sign == "" || sign == "+" || sign == "-")
    && digits != [] && AllDigits(digits) && (rest == [] || !IsDigit(rest[0]))
    && text == sign + digits + rest
    && n == if sign == "-" then 0 - ParseDigits(digits) else ParseDigits(digits)
  }

  /** A text is an optional sign, all the digits of n, and something else. */
  ghost predicate StartsWithNumber(text: string, n: int)
  {
    exists sign, digits, rest :: NumberThen(text, sign, digits, rest, n)
  }

  lemma {:induction false} DigitCountStops(s: string)
    ensures DigitCount(s) < |s| ==> !IsDigit(s[DigitCount(s)])
  {
    if s != [] && IsDigit(s[0]) {
      DigitCountStops(s[1..]);
    }
  }

  lemma LeadingIntIsFound(text: string)
    requires LeadingInt(text).Some?
    ensures StartsWithNumber(text, LeadingInt(text).value)
  {
    hide ParseDigits, DigitCount;
    var u := UnsignedPart(text);
    var c := DigitCount(u);
    var sign := text[..|text| - |u|];
    DigitCountStops(u);
    assert text == sign + u[..c] + u[c..];
    assert NumberThen(text, sign, u[..c], u[c..], LeadingInt(text).value);
  }

  lemma NumberIsRead(text: string, sign: string, digits: string, rest: string, n: int)
    requires NumberThen(text, sign, digits, rest, n)
    ensures LeadingInt(text) == Some(n)
  {
    hide LeadingInt, ParseDigits, AllDigits;
    LeadingIntIs(digits, rest);
    assert text == if sign == "" then digits + rest else if sign == "+" then "+" + digits + rest else "-" + digits + rest;
  }

  /** A 32-bit integer is read from a text exactly when the text starts with it, whatever follows. */
  lemma IntegerIsReadExactly(text: string, n: int)
    ensures ReadInt32(text) == Some(n) <==> StartsWithNumber(text, n) && Fits32(n)
  {
    hide LeadingInt, NumberThen;
    if sign, digits, rest :| NumberThen(text, sign, digits, rest, n) {
      NumberIsRead(text, sign, digits, rest, n);
    }
    if LeadingInt(text).Some? {
      LeadingIntIsFound(text);
    }
  }

  // ---- Any one word on an integer port -----------------------------------------------------------------------

  /** The proxy throws on what an integer port reported, as far as that is one word. */
  ghost predicate Throws(v: OutputValue)
  {
    match v
    case Integer(number) => !Fits32(number)
    case Flag(_) => true
    case RealNumber(text, _) => forall n :: StartsWithNumber(text, n) ==> !Fits32(n)
    case Text(text) => forall n :: StartsWithNumber(text, n) ==> !Fits32(n)
  }

  lemma FlagsStartWithNoNumber(flag: bool)
    ensures ReadInt32(Format(Flag(flag))) == None
  {
    assert UnsignedPart("True") == "True" && UnsignedPart("False") == "False";
    assert DigitCount("True") == 0 && DigitCount("False") == 0;
  }

  lemma IntegersAreRead(number: int)
    ensures ReadInt32(Format(Integer(number))) == if Fits32(number) then Some(number) else None
  {
    hide LeadingInt, PrintInt;
    LeadingIntSurvives(number);
  }

  lemma TextsThrow(text: string)
    ensures ReadInt32(text) == None <==> forall n :: StartsWithNumber(text, n) ==> !Fits32(n)
  {
    hide ReadInt32, StartsWithNumber;
    forall n | StartsWithNumber(text, n) && Fits32(n)
      ensures ReadInt32(text) == Some(n)
    {
      IntegerIsReadExactly(text, n);
    }
    if ReadInt32(text).Some? {
      IntegerIsReadExactly(text, ReadInt32(text).value);
    }
  }

  /** Of what prints as one word, an exception is the answer to every truth value, to integers beyond 32 bits, and to texts that start with no 32-bit integer. */
  lemma ThrowsExactly(v: OutputValue)
    requires IsWord(Format(v))
    ensures ReadInt32(Format(v)) == None <==> Throws(v)
  {
    hide ReadInt32, StartsWithNumber, PrintInt;
    match v
    case Integer(number) => IntegersAreRead(number);
    case Flag(flag) => FlagsStartWithNoNumber(flag);
    case RealNumber(text, _) => TextsThrow(text);
    case Text(text) => TextsThrow(text);
  }

  /** A value arrives on an integer port as it is if and only if it is an integer of 32 bits. */
  lemma ArrivesExactly(v: OutputValue)
    ensures (exists n :: ReadInt32(Format(v)) == Some(n) && v == Integer(n)) <==> v.Integer? && -0x8000_0000 <= v.number < 0x8000_0000
  {
    hide ReadInt32, PrintInt;
    if v.Integer? {
      IntegersAreRead(v.number);
    }
  }

  /** So an item of one word, on an integer port, throws or puts the number that it starts with under its reference. */
  lemma ItemOfIntegerPort(k: nat, v: OutputValue)
    requires k < WORD && IsWord(Format(v))
    ensures var parsed := ParseItem("i" + PrintNat(k) + "=" + Format(v));
            if Throws(v) then parsed == Throw
            else exists n :: StartsWithNumber(Format(v), n) && Fits32(n) && parsed == Put(IntOf(k, n))
  {
    hide PrintNat, Format, ReadInt32, StartsWithNumber, ParseItem, Throws;
    PrintedItem('i', k, Format(v));
    assert "i" == ['i'];
    ThrowsExactly(v);
    if ReadInt32(Format(v)).Some? {
      IntegerIsReadExactly(Format(v), ReadInt32(Format(v)).value);
    }
  }

  /** An item without a value is too short to be looked at when its reference has one digit, and throws otherwise. */
  lemma ItemOfEmptyText(slots: Slots, k: nat)
    requires k < WORD
    ensures ReadItem(slots, "i" + PrintNat(k) + "=") == if k < 10 then Some(slots) else None
  {
    hide PrintNat, ParseItem;
    PrintedItem('i', k, []);
    assert "i" + PrintNat(k) + "=" == ['i'] + PrintNat(k) + "=" + [];
    assert ReadInt32([]) == None;
  }

  // ---- Reals on an integer port ------------------------------------------------------------------------------

  /** A real as the bridge prints it: digits[.digits][e[sign]digits], signed, or a word for what is not finite. */
  datatype RealText = Finite(negative: bool, whole: string, fraction: string, exponent: string) | NotFinite(word: string)

  predicate ValidReal(r: RealText)
  {
    match r
    case Finite(_, whole, fraction, exponent) =>
      whole != [] && AllDigits(whole) && AllDigits(fraction) && (exponent != [] ==> ParseInt(exponent).Some?)
    case NotFinite(word) => word == "inf" || word == "-inf" || word == "nan"
  }

  /** A finite real without its sign. */
  function Magnitude(r: RealText): string
    requires r.Finite?
  {
    Body(r.whole, r.fraction, r.fraction != []) + if r.exponent != [] then "e" + r.exponent else ""
  }

  function PrintReal(r: RealText): string
  {
    if r.NotFinite? then r.word else (if r.negative then "-" else "") + Magnitude(r)
  }

  function Exponent(r: RealText): int
    requires r.Finite? && ValidReal(r)
  {
    if r.exponent == [] then 0 else ParseInt(r.exponent).value
  }

  function WholePart(r: RealText): int
    requires r.Finite? && ValidReal(r)
  {
    if r.negative then 0 - ParseDigits(r.whole) else ParseDigits(r.whole)
  }

  /** mantissa * 10^exponent is the number n. */
  predicate Denotes(mantissa: nat, exponent: int, n: nat)
  {
    if exponent >= 0 then mantissa * Pow10(exponent) == n else mantissa == n * Pow10(0 - exponent)
  }

  /** The number that is read is the real that was printed. */
  predicate SameNumber(r: RealText)
    requires r.Finite? && ValidReal(r)
  {
    var value := ParseDecimal(Magnitude(r));
    value.Some? && Denotes(value.value.0, value.value.1, ParseDigits(r.whole))
  }

  lemma MagnitudeIsRead(r: RealText)
    requires r.Finite? && ValidReal(r)
    ensures AllDigits(r.whole + r.fraction)
    ensures ParseDecimal(Magnitude(r)) == Some((ParseDigits(r.whole + r.fraction), Exponent(r) - |r.fraction|))
  {
    hide AllDigits, ParseDigits, ParseDecimal, Body, ParseInt;
    if r.exponent == [] {
      ParsePlain(r.whole, r.fraction, r.fraction != []);
      assert Magnitude(r) == Body(r.whole, r.fraction, r.fraction != []);
    } else {
      ParseWithExponent(r.whole, r.fraction, r.fraction != [], r.exponent, Exponent(r));
      assert Magnitude(r) == Body(r.whole, r.fraction, r.fraction != []) + "e" + r.exponent;
    }
  }

  lemma {:induction false} DigitsJoin(a: string, b: string)
    requires AllDigits(a) && AllDigits(b)
    ensures AllDigits(a + b)
    ensures ParseDigits(a + b) == ParseDigits(a) * Pow10(|b|) + ParseDigits(b)
    ensures ParseDigits(b) < Pow10(|b|)
  {
    if b == [] {
      assert a + b == a;
    } else {
      var front := b[..|b| - 1];
      DigitsJoin(a, front);
      assert (a + b)[..|a + b| - 1] == a + front;
      OneMoreDigit(ParseDigits(a), Pow10(|front|), ParseDigits(front), DigitValue(b[|b| - 1]));
    }
  }

  lemma OneMoreDigit(a: nat, p: nat, f: nat, d: nat)
    requires f < p && d < 10
    ensures 10 * (a * p + f) + d == a * (10 * p) + (10 * f + d) && 10 * f + d < 10 * p
  {
    TimesTen(a, p);
  }

  lemma {:induction false} PowersGrow(x: nat)
    ensures x > 0 ==> Pow10(x) >= 10
  {
    if x > 1 {
      PowersGrow(x - 1);
    }
  }

  lemma Products(w: nat, f: nat, p: nat, q: nat)
    requires p > 0 && f < p && q >= 10
    ensures (w * p + f) * q == w * p <==> w == 0 && f == 0
    ensures w * p + f == (w * p) * q <==> w == 0 && f == 0
  {
    if w == 0 {
      assert w * p == 0;
    } else {
      assert w * p >= p;
      assert (w * p) * q >= 10 * (w * p);
      assert (w * p + f) * q >= 10 * (w * p + f);
    }
  }

  /** whole.fraction * 10^x is whole exactly when nothing is behind the point and, unless it is zero, x is zero. */
  lemma DenotesWhole(whole: string, fraction: string, x: int)
    requires AllDigits(whole) && AllDigits(fraction)
    ensures AllDigits(whole + fraction)
    ensures Denotes(ParseDigits(whole + fraction), x - |fraction|, ParseDigits(whole))
       <==> ParseDigits(fraction) == 0 && (x == 0 || ParseDigits(whole) == 0)
  {
    hide ParseDigits, AllDigits;
    DigitsJoin(whole, fraction);
    DenotesNumber(ParseDigits(whole), ParseDigits(fraction), |fraction|, x);
  }

  lemma DenotesNumber(w: nat, f: nat, n: nat, x: int)
    requires f < Pow10(n)
    ensures Denotes(w * Pow10(n) + f, x - n, w) <==> f == 0 && (x == 0 || w == 0)
  {
    hide Pow10;
    var p := Pow10(n);
    if x >= n {
      ScaledUp(w, f, n, x);
    } else {
      ScaledDown(w, f, n, x);
    }
  }

  lemma CancelFactor(a: int, b: int, p: nat)
    requires p > 0
    ensures a * p == b * p <==> a == b
  {
    var d := a - b;
    assert p * d == a * p - b * p;
    ProductBounds(p, d);
  }

  lemma ScaledUp(w: nat, f: nat, n: nat, x: int)
    requires f < Pow10(n) && x >= n
    ensures (w * Pow10(n) + f) * Pow10(x - n) == w <==> f == 0 && (x == 0 || w == 0)
  {
    hide Pow10;
    var p, r, m := Pow10(n), Pow10(x - n), w * Pow10(n) + f;
    // Multiplied by 10^n on both sides.
    CancelFactor(m * r, w, p);
    PowersAdd(x - n, n);
    Associate(m, r, p);
    if x == 0 {
      PowerOfZero();
    } else {
      PowersGrow(x);
      Products(w, f, p, Pow10(x));
    }
  }

  lemma ScaledDown(w: nat, f: nat, n: nat, x: int)
    requires f < Pow10(n) && x < n
    ensures w * Pow10(n) + f == w * Pow10(n - x) <==> f == 0 && (x == 0 || w == 0)
  {
    hide Pow10;
    var p := Pow10(n);
    if x < 0 {
      PowersAdd(n, 0 - x);
      PowersGrow(0 - x);
      Associate(w, p, Pow10(0 - x));
      Products(w, f, p, Pow10(0 - x));
    } else if x > 0 {
      var r := Pow10(n - x);
      PowersAdd(x, n - x);
      PowersGrow(x);
      Smaller(w, f, p, r, Pow10(x));
    }
  }

  lemma PowerOfZero()
    ensures Pow10(0) == 1
  {
  }

  lemma Smaller(w: nat, f: nat, p: nat, r: nat, q: nat)
    requires p == q * r && q >= 10 && r > 0
    ensures w * p + f == w * r <==> f == 0 && w == 0
  {
    if w > 0 {
      assert w * r >= r;
      assert w * p == (w * r) * q;
      assert (w * r) * q >= 10 * (w * r);
    }
  }

  function AfterWhole(r: RealText): string
    requires r.Finite?
  {
    (if r.fraction != [] then "." + r.fraction else "") + if r.exponent != [] then "e" + r.exponent else ""
  }

  lemma PrintedParts(r: RealText)
    requires r.Finite?
    ensures PrintReal(r) == (if r.negative then "-" else "") + r.whole + AfterWhole(r)
    ensures AfterWhole(r) == [] || !IsDigit(AfterWhole(r)[0])
  {
    assert Magnitude(r) == r.whole + AfterWhole(r);
  }

  /** Digits that start a text and are followed by something else are the number it starts with. */
  lemma RealStarts(r: RealText)
    requires r.Finite? && ValidReal(r)
    ensures StartsWithNumber(PrintReal(r), WholePart(r))
  {
    hide ParseDigits, AllDigits, ParseInt, PrintReal, AfterWhole;
    var sign := if r.negative then "-" else "";
    var rest := AfterWhole(r);
    PrintedParts(r);
    assert NumberThen(PrintReal(r), sign, r.whole, rest, WholePart(r));
  }

  lemma NotFiniteThrows(word: string)
    requires word == "inf" || word == "-inf" || word == "nan"
    ensures ReadInt32(word) == None
  {
    assert UnsignedPart("-inf") == "inf" && UnsignedPart("inf") == "inf" && UnsignedPart("nan") == "nan";
    assert DigitCount("inf") == 0 && DigitCount("nan") == 0;
  }

  lemma RealIsRead(r: RealText)
    requires ValidReal(r)
    ensures ReadInt32(PrintReal(r)) == if r.Finite? && Fits32(WholePart(r)) then Some(WholePart(r)) else None
  {
    hide ReadInt32, StartsWithNumber, Magnitude, ParseDigits, AllDigits, ParseInt;
    if r.Finite? {
      RealStarts(r);
      IntegerIsReadExactly(PrintReal(r), WholePart(r));
      OnlyOneNumber(PrintReal(r), WholePart(r));
    } else {
      NotFiniteThrows(r.word);
    }
  }

  lemma SameNumberExactly(r: RealText)
    requires r.Finite? && ValidReal(r)
    ensures SameNumber(r) <==> ParseDigits(r.fraction) == 0 && (Exponent(r) == 0 || ParseDigits(r.whole) == 0)
  {
    hide Magnitude, ParseDecimal, ParseDigits, AllDigits, Denotes, ParseInt;
    MagnitudeIsRead(r);
    DenotesWhole(r.whole, r.fraction, Exponent(r));
  }

  /**
    A real on an integer port: reading stops at the first point or exponent letter, so what is stored
    is the digits before it, or an exception when they are not a 32-bit integer or there are none. It
    is the same number if and only if nothing but zeros is behind the point and, unless the number is
    zero, the exponent is zero.
   */
  lemma RealOnIntegerPort(r: RealText)
    requires ValidReal(r)
    ensures ReadInt32(PrintReal(r)) == if r.Finite? && Fits32(WholePart(r)) then Some(WholePart(r)) else None
    ensures r.Finite? ==> (SameNumber(r) <==> ParseDigits(r.fraction) == 0 && (Exponent(r) == 0 || ParseDigits(r.whole) == 0))
  {
    hide *;
    RealIsRead(r);
    if r.Finite? {
      SameNumberExactly(r);
    }
  }

  lemma OnlyOneNumber(text: string, n: int)
    requires StartsWithNumber(text, n)
    ensures ReadInt32(text).Some? ==> ReadInt32(text) == Some(n)
  {
    hide LeadingInt, NumberThen;
    var sign, digits, rest :| NumberThen(text, sign, digits, rest, n);
    NumberIsRead(text, sign, digits, rest, n);
  }

  /** Small and large reals are printed with an exponent, and any number of them is stored as one. */
  lemma ExponentsAreDropped()
    ensures ReadInt32("1e-05") == Some(1) && ReadInt32("1e+20") == Some(1)
  {
    assert StartsWithNumber("1e-05", 1) && StartsWithNumber("1e+20", 1) by {
      assert "1"[..0] == [];
      assert ParseDigits("1") == 1;
      assert NumberThen("1e-05", "", "1", "e-05", 1);
      assert NumberThen("1e+20", "", "1", "e+20", 1);
    }
    IntegerIsReadExactly("1e-05", 1);
    IntegerIsReadExactly("1e+20", 1);
  }

  // ---- Reals on a real port -----------------------------------------------------------------------------------

  /** Every real that the bridge prints is read on a real port, and a truth value is not. */
  lemma RealOnRealPort(r: RealText, k: nat, flag: bool)
    requires ValidReal(r) && k < WORD
    ensures ParseItem("r" + PrintNat(k) + "=" + PrintReal(r)) == Put(RealOf(k, PrintReal(r)))
    ensures ParseItem("r" + PrintNat(k) + "=" + Format(Flag(flag))) == Throw
  {
    hide PrintNat, ParseItem, Magnitude, AfterWhole;
    assert "r" == ['r'];
    PrintedItem('r', k, PrintReal(r));
    PrintedItem('r', k, Format(Flag(flag)));
    RealReads(r);
    assert UnsignedPart("True") == "True" && UnsignedPart("False") == "False";
    assert !StartsWith("True", "inf") && !StartsWith("True", "nan") && !StartsWith("False", "inf") && !StartsWith("False", "nan") by {
      assert Lower('T') == 't' && Lower('F') == 'f';
    }
  }

  /** A text reads as a real when a digit comes first, or after a minus. */
  lemma DigitReads(text: string, rest: string)
    requires rest != [] && IsDigit(rest[0]) && (text == rest || text == "-" + rest)
    ensures ReadsAsReal(text) && text != []
  {
    if text != rest {
      assert text[0] == '-' && text[1..] == rest;
    }
  }

  lemma WordReads(word: string)
    requires word == "inf" || word == "-inf" || word == "nan"
    ensures ReadsAsReal(word)
  {
    assert UnsignedPart("-inf") == "inf" && UnsignedPart("inf") == "inf" && UnsignedPart("nan") == "nan";
  }

  lemma RealReads(r: RealText)
    requires ValidReal(r)
    ensures ReadsAsReal(PrintReal(r)) && PrintReal(r) != []
  {
    hide Magnitude, AfterWhole, ReadsAsReal;
    if r.Finite? {
      PrintedParts(r);
      assert IsDigit(r.whole[0]);
      var rest := r.whole + AfterWhole(r);
      assert "" + r.whole + AfterWhole(r) == rest && "-" + r.whole + AfterWhole(r) == "-" + rest;
      DigitReads(PrintReal(r), rest);
    } else {
      WordReads(r.word);
    }
  }
}

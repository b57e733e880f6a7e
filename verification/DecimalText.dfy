// Numbers as the two ends of the bridge write and read them: integers in decimal, and times in
// seconds with six significant digits, as exact decimals.
module DecimalText {
  import opened Common
  import opened Divisibility

  // ---- Digits ---------------------------------------------------------------------------------------

  function Digit(d: nat): (c: char)
    requires d < 10
    ensures IsDigit(c) && DigitValue(c) == d
  {
    ('0' as int + d) as char
  }

  predicate IsDigit(c: char)
  {
    '0' <= c <= '9'
  }

  function DigitValue(c: char): nat
    requires IsDigit(c)
  {
    c as int - '0' as int
  }

  predicate AllDigits(s: string)
  {
    forall i :: 0 <= i < |s| ==> IsDigit(s[i])
  }

  function ParseDigits(s: string): nat
    requires AllDigits(s)
  {
    if s == [] then 0 else 10 * ParseDigits(s[..|s| - 1]) + DigitValue(s[|s| - 1])
  }

  function PrintNat(n: nat): (s: string)
    ensures s != [] && AllDigits(s)
  {
    if n < 10 then [Digit(n)] else PrintNat(n / 10) + [Digit(n % 10)]
  }

  lemma {:induction false} ParsePrintNat(n: nat)
    ensures ParseDigits(PrintNat(n)) == n
  {
    if n < 10 {
      assert ParseDigits([Digit(n)][..0]) == 0;
    } else {
      ParsePrintNat(n / 10);
      assert PrintNat(n)[..|PrintNat(n)| - 1] == PrintNat(n / 10);
    }
  }

  function Pow10(n: nat): (p: nat)
    ensures p > 0
  {
    if n == 0 then 1 else 10 * Pow10(n - 1)
  }

  function Zeros(n: nat): (s: string)
    ensures |s| == n && AllDigits(s)
  {
    if n == 0 then [] else Zeros(n - 1) + ['0']
  }

  lemma {:induction false} TrailingZeros(s: string, n: nat)
    requires AllDigits(s)
    ensures AllDigits(s + Zeros(n)) && ParseDigits(s + Zeros(n)) == ParseDigits(s) * Pow10(n)
  {
    if n == 0 {
      assert s + Zeros(0) == s;
    } else {
      TrailingZeros(s, n - 1);
      OneMoreZero(s + Zeros(n - 1));
      assert s + Zeros(n) == s + Zeros(n - 1) + "0";
      TimesTen(ParseDigits(s), Pow10(n - 1));
    }
  }

  lemma OneMoreZero(s: string)
    requires AllDigits(s)
    ensures AllDigits(s + "0") && ParseDigits(s + "0") == 10 * ParseDigits(s)
  {
    assert (s + "0")[..|s|] == s;
  }

  lemma TimesTen(a: nat, b: nat)
    ensures 10 * (a * b) == a * (10 * b)
  {
  }

  lemma {:induction false} LeadingZeros(n: nat, s: string)
    requires AllDigits(s)
    ensures AllDigits(Zeros(n) + s) && ParseDigits(Zeros(n) + s) == ParseDigits(s)
  {
    if s == [] {
      TrailingZeros([], n);
      assert [] + Zeros(n) == Zeros(n) + [];
    } else {
      LeadingZeros(n, s[..|s| - 1]);
      var all := Zeros(n) + s;
      assert all[..|all| - 1] == Zeros(n) + s[..|s| - 1];
    }
  }

  // ---- Integers ---------------------------------------------------------------------------------------

  function ParseNat(s: string): Option<nat>
  {
    if s != [] && AllDigits(s) then Some(ParseDigits(s)) else None
  }

  function PrintInt(n: int): string
  {
    if n < 0 then "-" + PrintNat(-n) else PrintNat(n)
  }

  /** An optional sign and digits. */
  function ParseInt(s: string): Option<int>
  {
    if s != [] && s[0] == '-' then
      match ParseNat(s[1..]) case None => None case Some(n) => Some(0 - n)
    else if s != [] && s[0] == '+' then
      match ParseNat(s[1..]) case None => None case Some(n) => Some(n)
    else
      match ParseNat(s) case None => None case Some(n) => Some(n)
  }

  lemma ParseIntIs(digits: string)
    requires AllDigits(digits) && digits != []
    ensures ParseInt(digits) == Some(ParseDigits(digits))
    ensures ParseInt("-" + digits) == Some(0 - ParseDigits(digits))
    ensures ParseInt("+" + digits) == Some(ParseDigits(digits))
  {
    hide ParseDigits;
    assert IsDigit(digits[0]);
    assert ("-" + digits)[1..] == digits && ("+" + digits)[1..] == digits;
  }

  /** Reading a printed integer gives it back. */
  lemma ParsePrintInt(n: int)
    ensures ParseInt(PrintInt(n)) == Some(n)
  {
    hide ParseInt, PrintNat, ParseDigits, AllDigits;
    var a := if n < 0 then 0 - n else n;
    ParsePrintNat(a);
    ParseIntIs(PrintNat(a));
  }

  // ---- Decimals -----------------------------------------------------------------------------------------

  /** The first position of a character, or the length. */
  function IndexOf(s: string, c: char): (i: nat)
    ensures i <= |s|
    ensures i < |s| ==> s[i] == c
    ensures forall j :: 0 <= j < i ==> s[j] != c
  {
    if s == [] then 0 else if s[0] == c then 0 else 1 + IndexOf(s[1..], c)
  }

  lemma IndexIs(s: string, c: char, i: nat)
    requires i <= |s| && (i < |s| ==> s[i] == c) && forall j :: 0 <= j < i ==> s[j] != c
    ensures IndexOf(s, c) == i
  {
  }

  /** digits[.digits], as a number without its point and the count of digits behind it. */
  function ParseBody(body: string): Option<(nat, nat)>
  {
    var j := IndexOf(body, '.');
    var fraction := if j == |body| then [] else body[j + 1..];
    var digits := body[..j] + fraction;
    if digits == [] || !AllDigits(digits) then None else Some((ParseDigits(digits), |fraction|))
  }

  /** digits[.digits][e[sign]digits], as a mantissa and a power of ten. */
  function ParseDecimal(s: string): Option<(nat, int)>
  {
    var i := IndexOf(s, 'e');
    var exponent := if i == |s| then Some(0) else ParseInt(s[i + 1..]);
    match ParseBody(s[..i])
    case None => None
    case Some((mantissa, places)) => if exponent.None? then None else Some((mantissa, exponent.value - places))
  }

  function Gap(a: nat, b: nat): nat
  {
    if a < b then b - a else a - b
  }

  /** n / d to the nearest integer, a tie to the even one. */
  function RoundHalfEven(n: nat, d: nat): nat
    requires d > 0
  {
    var q, r := n / d, n % d;
    if 2 * r > d || (2 * r == d && q % 2 == 1) then q + 1 else q
  }

  /** A decimal of seconds, to the nearest microsecond. */
  function ParseMicros(s: string): Option<nat>
  {
    match ParseDecimal(s)
    case None => None
    case Some((mantissa, exponent)) =>
      if exponent + 6 >= 0 then Some(mantissa * Pow10(exponent + 6))
      else Some(RoundHalfEven(mantissa, Pow10(-(exponent + 6))))
  }

  // ---- Printing a time -----------------------------------------------------------------------------------

  /** How many digits from the sixth on a number of microseconds has. */
  function Excess(t: nat): nat
  {
    if t < 1_000_000 then 0 else 1 + Excess(t / 10)
  }

  /** The same number without trailing zeros, which are counted instead. */
  function Strip(s: nat, e: nat): (nat, nat)
    requires s > 0
  {
    if s % 10 == 0 then Strip(s / 10, e + 1) else (s, e)
  }

  /** A positive number of microseconds to six significant digits: s * 10^e with no trailing zero in s. */
  function Significant(t: nat): (nat, nat)
    requires t > 0
  {
    Strip(Rounded(t), Excess(t))
  }

  function Rounded(t: nat): (s: nat)
    requires t > 0
    ensures s > 0
  {
    RoundedIsPositive(t);
    RoundHalfEven(t, Pow10(Excess(t)))
  }

  lemma {:induction false} ExcessBounds(t: nat)
    requires t > 0
    ensures Pow10(Excess(t)) <= t
    ensures t < 1_000_000 * Pow10(Excess(t))
  {
    if t >= 1_000_000 {
      ExcessBounds(t / 10);
    }
  }

  lemma QuotientPositive(t: nat, d: nat)
    requires d > 0 && d <= t
    ensures t / d >= 1
  {
  }

  lemma RoundedIsPositive(t: nat)
    requires t > 0
    ensures RoundHalfEven(t, Pow10(Excess(t))) > 0
  {
    hide Pow10, Excess;
    ExcessBounds(t);
    QuotientPositive(t, Pow10(Excess(t)));
  }

  function Signed(x: int): string
  {
    (if x < 0 then "-" else "+") + (var a := if x < 0 then -x else x; if a < 10 then "0" + PrintNat(a) else PrintNat(a))
  }

  function PointAfter(digits: string, n: nat): string
    requires n <= |digits|
  {
    digits[..n] + "." + digits[n..]
  }

  /** s * 10^e microseconds in seconds: plain between 10^-4 and 10^6 seconds, with an exponent elsewhere. */
  function PrintScaled(s: nat, e: nat): string
  {
    var digits := PrintNat(s);
    var k := |digits|;
    var x := k + e - 7;
    if x < -4 || x >= 6 then (if k == 1 then digits else PointAfter(digits, 1)) + "e" + Signed(x)
    else if x < 0 then "0." + Zeros(-x - 1) + digits
    else if k <= x + 1 then digits + Zeros(x + 1 - k)
    else PointAfter(digits, x + 1)
  }

  function PrintSeconds(t: nat): string
  {
    if t == 0 then "0" else var (s, e) := Significant(t); PrintScaled(s, e)
  }

  // ---- Reading it back ---------------------------------------------------------------------------------------

  function Body(whole: string, fraction: string, point: bool): string
  {
    whole + (if point then "." else "") + fraction
  }

  lemma ParseBodyIs(whole: string, fraction: string, point: bool)
    requires AllDigits(whole) && AllDigits(fraction) && whole != [] && (!point ==> fraction == [])
    ensures AllDigits(whole + fraction)
    ensures ParseBody(Body(whole, fraction, point)) == Some((ParseDigits(whole + fraction), |fraction|))
    ensures 'e' !in Body(whole, fraction, point)
  {
    hide ParseDigits;
    var body := Body(whole, fraction, point);
    IndexIs(body, '.', |whole|);
    assert body[..|whole|] == whole;
    if point {
      assert body[|whole| + 1..] == fraction;
    } else {
      assert whole + fraction == whole;
    }
  }

  /** A body without an exponent. */
  lemma ParsePlain(whole: string, fraction: string, point: bool)
    requires AllDigits(whole) && AllDigits(fraction) && whole != [] && (!point ==> fraction == [])
    ensures AllDigits(whole + fraction)
    ensures ParseDecimal(Body(whole, fraction, point)) == Some((ParseDigits(whole + fraction), -|fraction|))
  {
    hide ParseBody, AllDigits, ParseDigits, Body;
    var s := Body(whole, fraction, point);
    ParseBodyIs(whole, fraction, point);
    IndexIs(s, 'e', |s|);
    assert s[..|s|] == s;
  }

  lemma ParseWithExponent(whole: string, fraction: string, point: bool, tail: string, x: int)
    requires AllDigits(whole) && AllDigits(fraction) && whole != [] && (!point ==> fraction == [])
    requires ParseInt(tail) == Some(x)
    ensures AllDigits(whole + fraction)
    ensures ParseDecimal(Body(whole, fraction, point) + "e" + tail) == Some((ParseDigits(whole + fraction), x - |fraction|))
  {
    hide ParseBody, AllDigits, ParseDigits, Body, ParseInt;
    var body := Body(whole, fraction, point);
    ParseBodyIs(whole, fraction, point);
    var s := body + "e" + tail;
    IndexIs(s, 'e', |body|);
    assert s[..|body|] == body && s[|body| + 1..] == tail;
  }

  lemma ParseSigned(x: int)
    ensures ParseInt(Signed(x)) == Some(x)
  {
    hide ParseInt, PrintNat, ParseDigits, AllDigits, Zeros;
    var a := if x < 0 then -x else x;
    ParsePrintNat(a);
    LeadingZeros(1, PrintNat(a));
    OneZero();
    ParseIntIs(PrintNat(a));
    ParseIntIs("0" + PrintNat(a));
  }

  lemma ParseScaled(s: nat, e: nat)
    ensures var digits := PrintNat(s);
            ParseDecimal(PrintScaled(s, e)) == Some((s, e - 6))
            || (e >= 6 && ParseDecimal(PrintScaled(s, e)) == Some((s * Pow10(e - 6), 0)))
  {
    hide PrintNat, ParseDigits, ParseDecimal, ParseInt, Signed, Zeros, Pow10, AllDigits;
    var digits := PrintNat(s);
    var k := |digits|;
    var x := k + e - 7;
    ParsePrintNat(s);
    if x < -4 || x >= 6 {
      ParseSigned(x);
      if k == 1 {
        NoDigits();
        ParseWithExponent(digits, [], false, Signed(x), x);
        assert Body(digits, [], false) == digits && digits + [] == digits;
      } else {
        SplitDigits(digits, 1);
        ParseWithExponent(digits[..1], digits[1..], true, Signed(x), x);
      }
    } else if x < 0 {
      var z := -x - 1;
      LeadingZeros(z, digits);
      LeadingZeros(1, Zeros(z) + digits);
      OneZero();
      ParsePlain("0", Zeros(z) + digits, true);
      assert Body("0", Zeros(z) + digits, true) == "0." + Zeros(z) + digits;
    } else if k <= x + 1 {
      TrailingZeros(digits, x + 1 - k);
      NoDigits();
      ParsePlain(digits + Zeros(x + 1 - k), [], false);
      assert Body(digits + Zeros(x + 1 - k), [], false) == digits + Zeros(x + 1 - k);
      assert (digits + Zeros(x + 1 - k)) + [] == digits + Zeros(x + 1 - k);
    } else {
      SplitDigits(digits, x + 1);
      ParsePlain(digits[..x + 1], digits[x + 1..], true);
    }
  }

  lemma NoDigits()
    ensures AllDigits([])
  {
  }

  lemma OneZero()
    ensures Zeros(1) == "0" && AllDigits("0")
  {
    assert Zeros(0) == [];
  }

  lemma SplitDigits(digits: string, n: nat)
    requires AllDigits(digits) && n <= |digits|
    ensures AllDigits(digits[..n]) && AllDigits(digits[n..]) && digits[..n] + digits[n..] == digits
  {
  }

  lemma {:induction false} PowersAdd(a: nat, b: nat)
    ensures Pow10(a) * Pow10(b) == Pow10(a + b)
  {
    if a == 0 {
    } else {
      PowersAdd(a - 1, b);
    }
  }

  lemma {:induction false} StripKeepsValue(s: nat, e: nat)
    requires s > 0
    ensures var (s', e') := Strip(s, e); s' > 0 && s' * Pow10(e') == s * Pow10(e)
  {
    if s % 10 == 0 {
      StripKeepsValue(s / 10, e + 1);
      assert s == 10 * (s / 10);
      assert s * Pow10(e) == (s / 10) * Pow10(e + 1);
    }
  }

  /** Whatever is printed reads back as the six-digit value of the time. */
  lemma ReadsBackRounded(t: nat)
    ensures ParseMicros(PrintSeconds(t)) == Some(if t == 0 then 0 else Rounded(t) * Pow10(Excess(t)))
  {
    if t == 0 {
      ReadsZero();
    } else {
      hide PrintScaled, ParseDecimal, Pow10, Strip, Rounded, Excess;
      var (s, e) := Significant(t);
      StripKeepsValue(Rounded(t), Excess(t));
      ParseScaled(s, e);
      if ParseDecimal(PrintScaled(s, e)) != Some((s, e - 6)) {
        PowersAdd(e - 6, 6);
        Associate(s, Pow10(e - 6), Pow10(6));
      }
    }
  }

  lemma Associate(a: nat, b: nat, c: nat)
    ensures (a * b) * c == a * (b * c)
  {
  }

  lemma ReadsZero()
    ensures ParseMicros("0") == Some(0)
  {
    hide ParseDecimal, ParseDigits, AllDigits, Pow10;
    NoDigits();
    OneZero();
    ParsePlain("0", [], false);
    ParsesZero();
    assert Body("0", [], false) == "0" && "0" + [] == "0";
  }

  lemma ParsesZero()
    ensures AllDigits("0") && ParseDigits("0") == 0
  {
    assert "0"[..0] == [];
  }

  /** The largest error of six significant digits is half a unit of the sixth; less than seven digits are exact. */
  lemma RoundingError(t: nat)
    requires t > 0
    ensures var unit := Pow10(Excess(t)); 2 * Gap(Rounded(t) * unit, t) <= unit
    ensures var unit := Pow10(Excess(t)); 2 * Gap(Rounded(t) * unit, t) == unit ==> Rounded(t) % 2 == 0
    ensures t % Pow10(Excess(t)) == 0 ==> Rounded(t) * Pow10(Excess(t)) == t
  {
    hide Pow10, Excess;
    NearestMultiple(t, Pow10(Excess(t)));
  }

  lemma NearestMultiple(n: nat, d: nat)
    requires d > 0
    ensures 2 * Gap(RoundHalfEven(n, d) * d, n) <= d
    ensures n % d == 0 ==> RoundHalfEven(n, d) * d == n
    ensures 2 * Gap(RoundHalfEven(n, d) * d, n) == d ==> RoundHalfEven(n, d) % 2 == 0
  {
    var q, r := n / d, n % d;
    assert n == q * d + r;
    assert (q + 1) * d == q * d + d;
  }

  /**
    What is kept of a time: all of it when it has at most six significant digits, and otherwise
    everything but half a unit of its sixth digit, a tie going to the even sixth digit.
   */
  ghost predicate SixDigits(t: nat, read: nat)
  {
    exists unit: nat ::
      && IsUnit(t, unit)
      && (t % unit == 0 ==> read == t)
      && read % unit == 0 && 2 * Gap(read, t) <= unit
      && (2 * Gap(read, t) == unit ==> (read / unit) % 2 == 0)
  }

  /** The value of one in the sixth significant digit, or one when there are no more than six digits. */
  predicate IsUnit(t: nat, unit: nat)
  {
    && unit == Pow10(Excess(t)) && unit > 0
    && t < 1_000_000 * unit && (if t >= 1_000_000 then 100_000 * unit <= t else unit == 1)
  }

  /**
    A time of whole microseconds with at most six significant digits survives the hop exactly; a
    longer one comes back within half a unit of its sixth digit.
   */
  lemma TimeSurvives(t: nat)
    ensures ParseMicros(PrintSeconds(t)).Some? && SixDigits(t, ParseMicros(PrintSeconds(t)).value)
  {
    hide ParseMicros, PrintSeconds, Rounded;
    ReadsBackRounded(t);
    UnitFits(t);
    assert IsUnit(t, Pow10(Excess(t)));
    if t > 0 {
      RoundingError(t);
      MultipleMod(Pow10(Excess(t)), Rounded(t));
    }
  }

  lemma UnitFits(t: nat)
    ensures IsUnit(t, Pow10(Excess(t)))
  {
    if t > 0 {
      ExcessBounds(t);
    }
    if t >= 1_000_000 {
      ExcessLower(t);
    }
  }

  lemma {:induction false} ExcessLower(t: nat)
    requires t >= 1_000_000
    ensures 100_000 * Pow10(Excess(t)) <= t
  {
    if t / 10 >= 1_000_000 {
      ExcessLower(t / 10);
    } else {
      assert Excess(t / 10) == 0;
    }
  }

  // ---- Where the exponent form begins ----------------------------------------------------------------------

  lemma {:induction false} PowersAscend(a: nat, b: nat)
    requires a <= b
    ensures Pow10(a) <= Pow10(b)
  {
    if a == b {
    } else {
      PowersAscend(a, b - 1);
    }
  }

  lemma {:induction false} PrintedLength(n: nat)
    requires n > 0
    ensures Pow10(|PrintNat(n)| - 1) <= n < Pow10(|PrintNat(n)|)
  {
    if n < 10 {
      assert Pow10(1) == 10 * Pow10(0);
    } else {
      PrintedLength(n / 10);
    }
  }

  lemma ScaledBounds(s: nat, e: nat)
    requires s > 0
    ensures Pow10(|PrintNat(s)| - 1 + e) <= s * Pow10(e) < Pow10(|PrintNat(s)| + e)
  {
    hide Pow10, PrintNat;
    var k := |PrintNat(s)|;
    PrintedLength(s);
    PowersAdd(k - 1, e);
    PowersAdd(k, e);
    Scaled(Pow10(k - 1), s, Pow10(k), Pow10(e));
  }

  lemma Scaled(a: nat, s: nat, b: nat, p: nat)
    requires a <= s < b && p > 0
    ensures a * p <= s * p < b * p
  {
  }

  lemma ScaledHasExponent(s: nat, e: nat)
    requires s > 0
    ensures 'e' in PrintScaled(s, e) <==> |PrintNat(s)| + e < 3 || |PrintNat(s)| + e >= 13
  {
    hide PrintNat, Zeros, Signed, AllDigits;
    var digits := PrintNat(s);
    var x := |digits| + e - 7;
    if x < -4 || x >= 6 {
      var head := if |digits| == 1 then digits else PointAfter(digits, 1);
      assert PrintScaled(s, e)[|head|] == 'e';
    } else if x < 0 {
      NoExponent(Zeros(-x - 1));
      NoExponent(digits);
    } else if |digits| <= x + 1 {
      NoExponent(digits);
      NoExponent(Zeros(x + 1 - |digits|));
    } else {
      NoExponent(digits);
    }
  }

  lemma NoExponent(s: string)
    requires AllDigits(s)
    ensures 'e' !in s
  {
  }

  /** A time is written with an exponent if and only if it reads as less than 100 microseconds, but not as zero, or as 10^12 and more. */
  lemma ExponentExactly(t: nat)
    ensures var read := ParseMicros(PrintSeconds(t));
            read.Some? && ('e' in PrintSeconds(t) <==> 0 < read.value < 100 || read.value >= 1_000_000_000_000)
  {
    ReadsBackRounded(t);
    if t > 0 {
      hide PrintScaled, ParseMicros, Strip, Rounded, Excess, PrintNat, Pow10;
      var (s, e) := Significant(t);
      StripKeepsValue(Rounded(t), Excess(t));
      ScaledHasExponent(s, e);
      ScaledBounds(s, e);
      HundredAndTrillion();
      var k := |PrintNat(s)|;
      if k + e < 3 {
        PowersAscend(k + e, 2);
      } else if k + e < 13 {
        PowersAscend(2, k - 1 + e);
        PowersAscend(k + e, 12);
      } else {
        PowersAscend(12, k - 1 + e);
      }
    }
  }

  lemma HundredAndTrillion()
    ensures Pow10(2) == 100 && Pow10(12) == 1_000_000_000_000
  {
    PowersAdd(2, 2);
    PowersAdd(4, 4);
    PowersAdd(8, 4);
  }
}

// The reply half of the text hop: what the bridge prints for a finished step, and what the proxy
// stores when it reads it.
module FmiReply {
  import opened Common
  import opened DecimalText
  import opened FmiText

  // ---- Replies: printed by the bridge ---------------------------------------------------------------------

  /** What a backend reports for a port; a real carries its printed text. */
  datatype OutputValue = RealNumber(text: string, zero: bool) | Integer(number: int) | Flag(flag: bool) | Text(text: string)

  type Outputs = map<string, OutputValue>

  function Format(v: OutputValue): string
  {
    match v
    case RealNumber(text, _) => text
    case Integer(number) => PrintInt(number)
    case Flag(flag) => if flag then "True" else "False"
    case Text(text) => text
  }

  predicate Truthy(v: OutputValue)
  {
    match v
    case RealNumber(_, zero) => !zero
    case Integer(number) => number != 0
    case Flag(flag) => flag
    case Text(text) => text != []
  }

  /** A port that is reported back: not an input, and among the outputs. */
  predicate Sends(port: Port, outputs: Outputs)
  {
    port.direction != Input && port.name in outputs
  }

  /** The letter and the text of a port's value; None stands for the unsupported port types. */
  function PortText(port: Port, v: OutputValue): Option<(char, string)>
  {
    match port.dataType
    case RealType => Some(('r', Format(v)))
    case IntegerType => Some(('i', Format(v)))
    case BooleanType => Some(('b', if Truthy(v) then "1" else "0"))
    case StringType => None
    case BytesType => None
  }

  /** The items of a reply, one per reported port in port order; None stands for the raised error. */
  function Items(ports: seq<Port>, outputs: Outputs): Option<seq<string>>
  {
    if ports == [] then Some([])
    else
      var last := ports[|ports| - 1];
      match Items(ports[..|ports| - 1], outputs)
      case None => None
      case Some(before) =>
        if !Sends(last, outputs) then Some(before)
        else
          match PortText(last, outputs[last.name])
          case None => None
          case Some((letter, text)) => Some(before + [[letter] + PrintNat(|ports|) + "=" + text])
  }

  /** The reply line of a finished step. */
  function PrintReply(items: seq<string>): string
  {
    Line(["OK"] + items)
  }

  // ---- Replies: read by the proxy ---------------------------------------------------------------------------

  const BUFFER: nat := 8191

  const WORD: nat := 0x1_0000_0000

  function UnsignedPart(s: string): string
  {
    if s != [] && (s[0] == '-' || s[0] == '+') then s[1..] else s
  }

  function DigitCount(s: string): (n: nat)
    ensures n <= |s| && AllDigits(s[..n])
  {
    if s == [] || !IsDigit(s[0]) then 0 else 1 + DigitCount(s[1..])
  }

  /** The number a text starts with, whatever follows it. */
  function LeadingInt(s: string): Option<int>
  {
    var u := UnsignedPart(s);
    var n := DigitCount(u);
    if n == 0 then None
    else if s[0] == '-' then Some(0 - ParseDigits(u[..n])) else Some(ParseDigits(u[..n]))
  }

  /** A value reference: a 64-bit number cut down to 32 bits. */
  function ReadReference(s: string): Option<nat>
  {
    match LeadingInt(s)
    case None => None
    case Some(n) => if Gap(if n < 0 then 0 - n else n, 0) >= WORD * WORD then None else Some(n % WORD)
  }

  predicate Fits32(n: int)
  {
    -0x8000_0000 <= n < 0x8000_0000
  }

  function ReadInt32(s: string): Option<int>
  {
    match LeadingInt(s)
    case None => None
    case Some(n) => if Fits32(n) then Some(n) else None
  }

  function Lower(c: char): char
  {
    if 'A' <= c <= 'Z' then (c as int + 32) as char else c
  }

  predicate StartsWith(s: string, word: string)
  {
    |word| <= |s| && forall i :: 0 <= i < |word| ==> Lower(s[i]) == word[i]
  }

  /** A text that starts like a real number; the number itself is kept as its text. */
  predicate ReadsAsReal(s: string)
  {
    var u := UnsignedPart(s);
    || (u != [] && IsDigit(u[0]))
    || (|u| > 1 && u[0] == '.' && IsDigit(u[1]))
    || StartsWith(u, "inf") || StartsWith(u, "nan")
  }

  /** What becomes of an item: it is skipped, it throws, or a value is put under its reference. */
  datatype Parsed = Skip | Throw | Put(entry: Assigned)

  function ParseValue(letter: char, reference: nat, text: string): Parsed
  {
    if letter == 'r' then
      if ReadsAsReal(text) then Put(RealOf(reference, text)) else Throw
    else
      match ReadInt32(text)
      case None => Throw
      case Some(n) => Put(if letter == 'i' then IntOf(reference, n) else BoolOf(reference, n))
  }

  function ParseItem(item: string): Parsed
  {
    if |item| < 4 || item[0] !in "rib" then Skip
    else
      var i := IndexOf(item, '=');
      if i == |item| then Skip
      else
        match ReadReference(item[1..i])
        case None => Throw
        case Some(reference) => ParseValue(item[0], reference, item[i + 1..])
  }

  function PutEntry(slots: Slots, entry: Assigned): Slots
  {
    match entry
    case RealOf(reference, text) => slots.(reals := slots.reals[reference := text])
    case IntOf(reference, number) => slots.(integers := slots.integers[reference := number])
    case BoolOf(reference, number) => slots.(booleans := slots.booleans[reference := number])
  }

  /** One item: the slots with it stored; None stands for the thrown exception. */
  function ReadItem(slots: Slots, item: string): Option<Slots>
  {
    match ParseItem(item)
    case Skip => Some(slots)
    case Throw => None
    case Put(entry) => Some(PutEntry(slots, entry))
  }

  /** How far items were stored, and whether all of them were. */
  datatype Stored = Stored(slots: Slots, all: bool)

  function ReadItems(slots: Slots, items: seq<string>): Stored
  {
    if items == [] then Stored(slots, true)
    else
      var before := ReadItems(slots, items[..|items| - 1]);
      if !before.all then before
      else
        match ReadItem(before.slots, items[|items| - 1])
        case None => Stored(before.slots, false)
        case Some(after) => Stored(after, true)
  }

  datatype Exchanged = Done(slots: Slots) | Refused | Threw(slots: Slots)

  function Received(reply: string): string
  {
    if |reply| > BUFFER then reply[..BUFFER] else reply
  }

  function ReadReply(slots: Slots, reply: string): Exchanged
  {
    var words := Split(IsBlank, Received(reply));
    if words == [] || words[0] != "OK" then Refused
    else
      var stored := ReadItems(slots, words[1..]);
      if stored.all then Done(stored.slots) else Threw(stored.slots)
  }

  // ---- A reply survives ------------------------------------------------------------------------------------------

  /** The outputs the step protocol is for: of the type of their port, and within its range. */
  predicate WellTyped(port: Port, v: OutputValue)
  {
    match port.dataType
    case RealType => (v.RealNumber? && IsToken(v.text) && ReadsAsReal(v.text)) || v.Integer?
    case IntegerType => v.Integer? && Fits32(v.number)
    case BooleanType => true
    case StringType => false
    case BytesType => false
  }

  ghost predicate AllWellTyped(ports: seq<Port>, outputs: Outputs)
  {
    forall i :: 0 <= i < |ports| && Sends(ports[i], outputs) ==> WellTyped(ports[i], outputs[ports[i].name])
  }

  /** The 1-based reference k belongs to a port of the given type that is reported. */
  predicate SentAs(ports: seq<Port>, outputs: Outputs, k: int, dataType: DataType)
  {
    && 1 <= k <= |ports| && ports[k - 1].dataType == dataType
    && (ports[k - 1].direction == Output || ports[k - 1].direction == Bidirectional) && ports[k - 1].name in outputs
  }

  function SentValue(ports: seq<Port>, outputs: Outputs, k: int): OutputValue
    requires 1 <= k <= |ports| && Sends(ports[k - 1], outputs)
  {
    outputs[ports[k - 1].name]
  }

  /** Each reported output under its reference in the map of its type, and every other entry as it was. */
  ghost predicate Delivered(before: Slots, after: Slots, ports: seq<Port>, outputs: Outputs)
  {
    && DeliveredReals(before.reals, after.reals, ports, outputs)
    && DeliveredIntegers(before.integers, after.integers, ports, outputs)
    && DeliveredBooleans(before.booleans, after.booleans, ports, outputs)
  }

  ghost predicate DeliveredReals(before: map<nat, string>, after: map<nat, string>, ports: seq<Port>, outputs: Outputs)
  {
    forall k: nat ::
      if SentAs(ports, outputs, k, RealType) then k in after && after[k] == Format(SentValue(ports, outputs, k))
      else (k in after <==> k in before) && (k in before ==> after[k] == before[k])
  }

  ghost predicate DeliveredIntegers(before: map<nat, int>, after: map<nat, int>, ports: seq<Port>, outputs: Outputs)
  {
    forall k: nat ::
      if SentAs(ports, outputs, k, IntegerType) then
        k in after && SentValue(ports, outputs, k) == Integer(after[k])
      else (k in after <==> k in before) && (k in before ==> after[k] == before[k])
  }

  ghost predicate DeliveredBooleans(before: map<nat, int>, after: map<nat, int>, ports: seq<Port>, outputs: Outputs)
  {
    forall k: nat ::
      if SentAs(ports, outputs, k, BooleanType) then
        k in after && after[k] == (if Truthy(SentValue(ports, outputs, k)) then 1 else 0)
      else (k in after <==> k in before) && (k in before ==> after[k] == before[k])
  }

  lemma {:induction false} DigitCountIs(digits: string, rest: string)
    requires AllDigits(digits) && (rest == [] || !IsDigit(rest[0]))
    ensures DigitCount(digits + rest) == |digits|
  {
    if digits == [] {
      assert digits + rest == rest;
    } else {
      assert (digits + rest)[1..] == digits[1..] + rest;
      DigitCountIs(digits[1..], rest);
    }
  }

  lemma LeadingIntIs(digits: string, rest: string)
    requires AllDigits(digits) && digits != [] && (rest == [] || !IsDigit(rest[0]))
    ensures LeadingInt(digits + rest) == Some(ParseDigits(digits))
    ensures LeadingInt("-" + digits + rest) == Some(0 - ParseDigits(digits))
    ensures LeadingInt("+" + digits + rest) == Some(ParseDigits(digits))
  {
    hide ParseDigits, DigitCount, UnsignedPart;
    DigitCountIs(digits, rest);
    SignsStripped(digits, rest);
    assert (digits + rest)[..|digits|] == digits;
  }

  lemma SignsStripped(digits: string, rest: string)
    requires AllDigits(digits) && digits != []
    ensures UnsignedPart(digits + rest) == UnsignedPart("-" + digits + rest) == UnsignedPart("+" + digits + rest) == digits + rest
    ensures IsDigit((digits + rest)[0])
  {
    assert IsDigit(digits[0]);
    assert ("-" + digits + rest)[1..] == digits + rest && ("+" + digits + rest)[1..] == digits + rest;
  }

  /** A printed integer is read up to its last digit, whatever follows. */
  lemma LeadingPrintInt(n: int, rest: string)
    requires rest == [] || !IsDigit(rest[0])
    ensures LeadingInt(PrintInt(n) + rest) == Some(n)
  {
    hide LeadingInt, PrintNat, ParseDigits, AllDigits;
    var a := if n < 0 then 0 - n else n;
    ParsePrintNat(a);
    LeadingIntIs(PrintNat(a), rest);
  }

  lemma LeadingIntSurvives(n: int)
    ensures LeadingInt(PrintInt(n)) == Some(n)
  {
    LeadingPrintInt(n, []);
    assert PrintInt(n) + [] == PrintInt(n);
  }

  lemma ReferenceSurvives(k: nat)
    requires k < WORD
    ensures ReadReference(PrintNat(k)) == Some(k)
  {
    hide PrintNat, LeadingInt;
    LeadingIntSurvives(k);
    assert PrintInt(k) == PrintNat(k);
  }

  lemma OneDigit(k: nat)
    ensures |PrintNat(k)| == 1 <==> k < 10
  {
  }

  /** A printed item is read as printed; without a value it is too short to be looked at when its reference has one digit. */
  lemma PrintedItem(letter: char, reference: nat, text: string)
    requires letter in "rib" && reference < WORD
    ensures ParseItem([letter] + PrintNat(reference) + "=" + text)
         == if text == [] && reference < 10 then Skip else ParseValue(letter, reference, text)
  {
    hide PrintNat, ReadReference, AllDigits, ParseValue, IndexOf;
    var digits := PrintNat(reference);
    var item := [letter] + digits + "=" + text;
    OneDigit(reference);
    NoEquals(digits);
    ReferenceSurvives(reference);
    IndexIs(item, '=', 1 + |digits|);
    assert item[1..1 + |digits|] == digits && item[1 + |digits| + 1..] == text;
  }

  lemma BitReads()
    ensures ReadInt32("1") == Some(1) && ReadInt32("0") == Some(0)
  {
    LeadingIntSurvives(1);
    LeadingIntSurvives(0);
    assert PrintInt(1) == "1" && PrintInt(0) == "0";
  }

  /** The printed item of one port stores exactly its value. */
  lemma ItemStores(port: Port, v: OutputValue, reference: nat)
    requires WellTyped(port, v)
    ensures PortText(port, v).Some?
    ensures var (letter, text) := PortText(port, v).value;
            && letter in "rib" && IsToken(text)
            && ParseValue(letter, reference, text) == Put(
              match port.dataType
              case RealType => RealOf(reference, Format(v))
              case IntegerType => IntOf(reference, v.number)
              case _ => BoolOf(reference, if Truthy(v) then 1 else 0))
  {
    hide PrintInt, LeadingInt;
    match port.dataType
    case RealType =>
      if v.Integer? {
        IntIsToken(v.number);
        IntReadsAsReal(v.number);
      }
    case IntegerType =>
      IntIsToken(v.number);
      LeadingIntSurvives(v.number);
    case BooleanType =>
      BitReads();
  }

  lemma IntReadsAsReal(n: int)
    ensures ReadsAsReal(PrintInt(n))
  {
    var digits := PrintNat(if n < 0 then -n else n);
    assert IsDigit(digits[0]);
    if n < 0 {
      assert PrintInt(n)[1..] == digits;
    }
  }

  lemma ItemIsToken(letter: char, reference: nat, text: string)
    requires letter in "rib" && IsToken(text)
    ensures IsToken([letter] + PrintNat(reference) + "=" + text)
    ensures |[letter] + PrintNat(reference) + "=" + text| >= 4
  {
    hide PrintNat;
    DigitsAreToken(PrintNat(reference));
  }

  lemma LastDelivered(before: Slots, middle: Slots, after: Slots, ports: seq<Port>, outputs: Outputs)
    requires ports != []
    requires var last := ports[|ports| - 1];
             if !Sends(last, outputs) then after == middle
             else
               var v := outputs[last.name];
               match last.dataType
               case RealType => after == middle.(reals := middle.reals[|ports| := Format(v)])
               case IntegerType => v.Integer? && after == middle.(integers := middle.integers[|ports| := v.number])
               case BooleanType => after == middle.(booleans := middle.booleans[|ports| := if Truthy(v) then 1 else 0])
               case _ => false
    requires Delivered(before, middle, ports[..|ports| - 1], outputs)
    ensures Delivered(before, after, ports, outputs)
  {
    hide Format, Truthy, DeliveredReals, DeliveredIntegers, DeliveredBooleans, Sends;
    LastReal(before.reals, middle.reals, after.reals, ports, outputs);
    LastInteger(before.integers, middle.integers, after.integers, ports, outputs);
    LastBoolean(before.booleans, middle.booleans, after.booleans, ports, outputs);
  }

  predicate LastSent(ports: seq<Port>, outputs: Outputs, t: DataType)
    requires ports != []
  {
    Sends(ports[|ports| - 1], outputs) && ports[|ports| - 1].dataType == t
  }

  lemma SentSplits(ports: seq<Port>, outputs: Outputs, k: nat, t: DataType)
    requires ports != []
    ensures var front := ports[..|ports| - 1];
            && (SentAs(ports, outputs, k, t) <==> if k == |ports| then LastSent(ports, outputs, t) else SentAs(front, outputs, k, t))
            && (SentAs(front, outputs, k, t) ==> k < |ports| && SentValue(front, outputs, k) == SentValue(ports, outputs, k))
  {
  }

  lemma LastReal(before: map<nat, string>, middle: map<nat, string>, after: map<nat, string>, ports: seq<Port>, outputs: Outputs)
    requires ports != [] && DeliveredReals(before, middle, ports[..|ports| - 1], outputs)
    requires after == if LastSent(ports, outputs, RealType) then middle[|ports| := Format(outputs[ports[|ports| - 1].name])] else middle
    ensures DeliveredReals(before, after, ports, outputs)
  {
    hide Format, Sends;
    forall k: nat {
      SentSplits(ports, outputs, k, RealType);
    }
  }

  lemma LastInteger(before: map<nat, int>, middle: map<nat, int>, after: map<nat, int>, ports: seq<Port>, outputs: Outputs)
    requires ports != [] && DeliveredIntegers(before, middle, ports[..|ports| - 1], outputs)
    requires LastSent(ports, outputs, IntegerType) ==> outputs[ports[|ports| - 1].name].Integer?
    requires after == if LastSent(ports, outputs, IntegerType) then middle[|ports| := outputs[ports[|ports| - 1].name].number] else middle
    ensures DeliveredIntegers(before, after, ports, outputs)
  {
    hide Sends;
    forall k: nat {
      SentSplits(ports, outputs, k, IntegerType);
    }
  }

  lemma LastBoolean(before: map<nat, int>, middle: map<nat, int>, after: map<nat, int>, ports: seq<Port>, outputs: Outputs)
    requires ports != [] && DeliveredBooleans(before, middle, ports[..|ports| - 1], outputs)
    requires after == if LastSent(ports, outputs, BooleanType)
                      then middle[|ports| := if Truthy(outputs[ports[|ports| - 1].name]) then 1 else 0] else middle
    ensures DeliveredBooleans(before, after, ports, outputs)
  {
    hide Truthy, Sends;
    forall k: nat {
      SentSplits(ports, outputs, k, BooleanType);
    }
  }

  lemma {:induction false} ItemsDeliver(slots: Slots, ports: seq<Port>, outputs: Outputs)
    requires AllWellTyped(ports, outputs) && |ports| < WORD
    ensures Items(ports, outputs).Some?
    ensures var items := Items(ports, outputs).value;
            && (forall item <- items :: IsToken(item) && |item| >= 4)
            && ReadItems(slots, items).all
            && Delivered(slots, ReadItems(slots, items).slots, ports, outputs)
  {
    hide ParseItem, ParseValue, Delivered, WellTyped, PortText, PrintNat, IsToken, Format, Truthy;
    if ports == [] {
      NothingDelivered(slots, outputs);
    } else {
      var front := ports[..|ports| - 1];
      assert AllWellTyped(front, outputs);
      ItemsDeliver(slots, front, outputs);
      var items := Items(front, outputs).value;
      var middle := ReadItems(slots, items).slots;
      var last := ports[|ports| - 1];
      if Sends(last, outputs) {
        var v := outputs[last.name];
        ItemStores(last, v, |ports|);
        var (letter, text) := PortText(last, v).value;
        TokenHasText(text);
        PrintedItem(letter, |ports|, text);
        ItemIsToken(letter, |ports|, text);
        var item := [letter] + PrintNat(|ports|) + "=" + text;
        assert (items + [item])[..|items|] == items;
        OfItsType(last, v);
        LastDelivered(slots, middle, ReadItem(middle, item).value, ports, outputs);
      } else {
        LastDelivered(slots, middle, middle, ports, outputs);
      }
    }
  }

  lemma TokenHasText(s: string)
    requires IsToken(s)
    ensures s != []
  {
  }

  lemma OfItsType(port: Port, v: OutputValue)
    requires WellTyped(port, v)
    ensures port.dataType in {RealType, IntegerType, BooleanType} && (port.dataType == IntegerType ==> v.Integer?)
  {
  }

  lemma NothingDelivered(slots: Slots, outputs: Outputs)
    ensures Delivered(slots, slots, [], outputs)
  {
  }

  predicate SameEntry<V(==)>(before: map<nat, V>, after: map<nat, V>, k: nat)
  {
    (k in after <==> k in before) && (k in before ==> after[k] == before[k])
  }

  /** What the instance holds for a reported value: a real's own text, the same number, or one for true and zero for false. */
  predicate HeldAs(after: Slots, k: nat, dataType: DataType, v: OutputValue)
  {
    match dataType
    case RealType =>
      k in after.reals && ((v.RealNumber? && after.reals[k] == v.text) || (v.Integer? && ParseInt(after.reals[k]) == Some(v.number)))
    case IntegerType =>
      k in after.integers && v == Integer(after.integers[k]) && -0x8000_0000 <= after.integers[k] < 0x8000_0000
    case BooleanType =>
      && k in after.booleans
      && after.booleans[k] == if v == Integer(0) || v == Flag(false) || v == Text("") || (v.RealNumber? && v.zero) then 0 else 1
    case _ => false
  }

  /** Every reported output is held under its reference in the table of its type; every other entry is as it was. */
  ghost predicate Arrived(before: Slots, after: Slots, ports: seq<Port>, outputs: Outputs)
  {
    && (forall k: nat, t: DataType :: SentAs(ports, outputs, k, t) ==> HeldAs(after, k, t, outputs[ports[k - 1].name]))
    && (forall k: nat :: SentAs(ports, outputs, k, RealType) || SameEntry(before.reals, after.reals, k))
    && (forall k: nat :: SentAs(ports, outputs, k, IntegerType) || SameEntry(before.integers, after.integers, k))
    && (forall k: nat :: SentAs(ports, outputs, k, BooleanType) || SameEntry(before.booleans, after.booleans, k))
  }

  lemma DeliveredMeans(before: Slots, after: Slots, ports: seq<Port>, outputs: Outputs)
    requires Delivered(before, after, ports, outputs) && AllWellTyped(ports, outputs)
    ensures Arrived(before, after, ports, outputs)
  {
    hide IsToken, ReadsAsReal, PrintInt, ParseInt;
    forall k: nat, t: DataType | SentAs(ports, outputs, k, t)
      ensures HeldAs(after, k, t, outputs[ports[k - 1].name])
    {
      var v := outputs[ports[k - 1].name];
      assert Sends(ports[k - 1], outputs);
      assert WellTyped(ports[k - 1], v) && v == SentValue(ports, outputs, k);
      if v.Integer? {
        ParsePrintInt(v.number);
      }
    }
  }

  /** Of a longer reply only the first 8191 characters are read. */
  lemma LongRepliesAreCut(slots: Slots, reply: string, rest: string)
    requires |reply| == 8191
    ensures ReadReply(slots, reply + rest) == ReadReply(slots, reply)
  {
    assert Received(reply + rest) == reply;
  }

  /** A reference is read as a number below 2^64 in magnitude and then cut down to 32 bits. */
  lemma ReferencesExactly(n: int)
    ensures ReadReference(PrintInt(n)) ==
      if -0x1_0000_0000_0000_0000 < n < 0x1_0000_0000_0000_0000 then Some(n % 0x1_0000_0000) else None
  {
    hide PrintInt, LeadingInt;
    LeadingIntSurvives(n);
  }

  /**
    A finished step whose outputs have the types of their ports, and whose reply fits the buffer, is
    read back by the proxy: every reported output under its own reference, and nothing else touched.
   */
  lemma ReplySurvives(slots: Slots, ports: seq<Port>, outputs: Outputs)
    requires AllWellTyped(ports, outputs) && |ports| < WORD
    requires Items(ports, outputs).Some? ==> |PrintReply(Items(ports, outputs).value)| <= 8191
    ensures Items(ports, outputs).Some?
    ensures var read := ReadReply(slots, PrintReply(Items(ports, outputs).value));
            read.Done? && Delivered(slots, read.slots, ports, outputs) && Arrived(slots, read.slots, ports, outputs)
  {
    hide Delivered, Arrived, ReadItems, AllWellTyped, Line, Split, Items;
    ItemsDeliver(slots, ports, outputs);
    var items := Items(ports, outputs).value;
    var words := ["OK"] + items;
    forall word | word in words
      ensures word != [] && forall i :: 0 <= i < |word| ==> !IsBlank(word[i])
    {
      if word in items {
        assert IsToken(word);
      } else {
        assert word == "OK";
      }
    }
    SplitLine(IsBlank, words);
    assert words[1..] == items;
    DeliveredMeans(slots, ReadReply(slots, PrintReply(items)).slots, ports, outputs);
  }

  /** An item is skipped exactly when it is short, has another letter, or has no equals sign. */
  lemma SkippedExactly(item: string)
    ensures ParseItem(item) == Skip <==> |item| < 4 || (item[0] != 'r' && item[0] != 'i' && item[0] != 'b') || '=' !in item
  {
  }

  /** A short line is refused exactly when its first word is not OK; then nothing is stored. */
  lemma OnlyOkIsTaken(slots: Slots, words: seq<string>)
    requires (forall word <- words :: IsWord(word)) && |Line(words)| <= 8191
    ensures ReadReply(slots, Line(words)) == Refused <==> words == [] || words[0] != "OK"
  {
    SplitLine(IsBlank, words);
  }

  /** An error reply is refused and leaves the values of the instance alone. */
  lemma ErrorsAreRefused(slots: Slots, message: string)
    ensures ReadReply(slots, "ERROR " + message) == Refused
  {
    var reply := Received("ERROR " + message);
    assert reply == "ERROR" + reply[5..] && reply[5] == ' ';
    SplitWord(IsBlank, "ERROR", reply[5..]);
  }
}

// The text hop between the FMI proxy and the bridge server: what each side prints and what the
// other side reads.
module FmiText {
  import opened Common
  import opened DecimalText

  // ---- Words ------------------------------------------------------------------------------------------

  /** The blanks of the C locale, which the proxy's stream extraction skips. */
  predicate IsBlank(c: char)
  {
    c == ' ' || '\t' <= c <= '\r'
  }

  /** The white space that the bridge splits at: the blanks above and the Unicode separators. */
  predicate IsSpace(c: char)
  {
    var code := c as int;
    || IsBlank(c) || 0x1c <= code <= 0x1f || code == 0x85 || code == 0xa0 || code == 0x1680
    || 0x2000 <= code <= 0x200a || code == 0x2028 || code == 0x2029 || code == 0x202f || code == 0x205f || code == 0x3000
  }

  predicate IsToken(s: string)
  {
    s != [] && forall i :: 0 <= i < |s| ==> !IsSpace(s[i])
  }

  /** A text without blanks, which the proxy reads as one item. */
  predicate IsWord(s: string)
  {
    s != [] && forall i :: 0 <= i < |s| ==> !IsBlank(s[i])
  }

  /** The length of the word a text starts with. */
  function WordLength(space: char -> bool, s: string): (n: nat)
    ensures n <= |s|
  {
    if s == [] || space(s[0]) then 0 else 1 + WordLength(space, s[1..])
  }

  function Split(space: char -> bool, s: string): seq<string>
    decreases |s|
  {
    if s == [] then []
    else if space(s[0]) then Split(space, s[1..])
    else [s[..WordLength(space, s)]] + Split(space, s[WordLength(space, s)..])
  }

  /** Words separated by single blanks and ended by a line feed. */
  function Line(words: seq<string>): string
  {
    if words == [] then "\n"
    else words[0] + (if |words| == 1 then "\n" else " " + Line(words[1..]))
  }

  lemma {:induction false} WordLengthIs(space: char -> bool, word: string, rest: string)
    requires forall i :: 0 <= i < |word| ==> !space(word[i])
    requires rest == [] || space(rest[0])
    ensures WordLength(space, word + rest) == |word|
  {
    if word == [] {
      assert word + rest == rest;
    } else {
      assert (word + rest)[1..] == word[1..] + rest;
      WordLengthIs(space, word[1..], rest);
    }
  }

  lemma SplitWord(space: char -> bool, word: string, rest: string)
    requires word != [] && (forall i :: 0 <= i < |word| ==> !space(word[i])) && rest != [] && space(rest[0])
    ensures Split(space, word + rest) == [word] + Split(space, rest[1..])
  {
    WordLengthIs(space, word, rest);
    var s := word + rest;
    assert s[..|word|] == word && s[|word|..] == rest;
    assert s != [] && !space(s[0]);
    assert Split(space, rest) == Split(space, rest[1..]);
  }

  lemma SplitNothing(space: char -> bool)
    requires space('\n')
    ensures Split(space, []) == [] && Split(space, "\n") == []
  {
    assert Split(space, "\n") == Split(space, "\n"[1..]);
  }

  /** Splitting a line gives back its words. */
  lemma {:induction false} SplitLine(space: char -> bool, words: seq<string>)
    requires space(' ') && space('\n')
    requires forall word <- words :: word != [] && forall i :: 0 <= i < |word| ==> !space(word[i])
    ensures Split(space, Line(words)) == words
  {
    hide Split;
    SplitNothing(space);
    if words == [] {
    } else {
      var rest := if |words| == 1 then "\n" else " " + Line(words[1..]);
      assert words[0] in words;
      SplitWord(space, words[0], rest);
      if |words| > 1 {
        assert rest[1..] == Line(words[1..]);
        SplitLine(space, words[1..]);
      } else {
        assert rest[1..] == [];
      }
      assert words == [words[0]] + words[1..];
    }
  }

  lemma DigitsAreToken(s: string)
    requires AllDigits(s) && s != []
    ensures IsToken(s)
  {
  }

  lemma TokensJoin(a: string, b: string)
    requires IsToken(a) && forall i :: 0 <= i < |b| ==> !IsSpace(b[i])
    ensures IsToken(a + b)
  {
  }

  lemma IntIsToken(n: int)
    ensures IsToken(PrintInt(n))
  {
    if n < 0 {
      DigitsAreToken(PrintNat(-n));
      TokensJoin("-", PrintNat(-n));
    } else {
      DigitsAreToken(PrintNat(n));
    }
  }

  lemma SecondsAreToken(t: nat)
    ensures IsToken(PrintSeconds(t))
  {
    if t > 0 {
      hide PrintNat, Strip, Excess, Rounded, AllDigits;
      var (s, e) := Significant(t);
      ScaledIsToken(s, e);
    }
  }

  predicate NoSpaces(s: string)
  {
    forall i :: 0 <= i < |s| ==> !IsSpace(s[i])
  }

  lemma ScaledIsToken(s: nat, e: nat)
    ensures IsToken(PrintScaled(s, e))
  {
    hide PrintNat, Zeros, ParseInt;
    var digits := PrintNat(s);
    var x := |digits| + e - 7;
    DigitsAreToken(digits);
    SignedHasNoSpaces(x);
  }

  lemma SignedHasNoSpaces(x: int)
    ensures NoSpaces(Signed(x))
  {
    DigitsAreToken(PrintNat(if x < 0 then -x else x));
  }

  // ---- Requests: printed by the proxy --------------------------------------------------------------------

  /** The values an FMU instance holds, by value reference; reals as their printed text. */
  datatype Slots = Slots(reals: map<nat, string>, integers: map<nat, int>, booleans: map<nat, int>)

  datatype Assigned = RealOf(reference: nat, text: string) | IntOf(reference: nat, number: int) | BoolOf(reference: nat, number: int)

  function AssignedText(a: Assigned): string
  {
    match a
    case RealOf(reference, text) => "r" + PrintNat(reference) + "=" + text
    case IntOf(reference, number) => "i" + PrintNat(reference) + "=" + PrintInt(number)
    case BoolOf(reference, number) => "b" + PrintNat(reference) + "=" + PrintInt(number)
  }

  predicate IsMax(keys: set<nat>, m: nat)
  {
    m in keys && forall k <- keys :: k <= m
  }

  lemma MaxExists(keys: set<nat>)
    requires keys != {}
    ensures exists m :: IsMax(keys, m)
  {
    var above := (a: nat, b: nat) => a > b;
    FirstExists(keys, above);
    var m :| IsFirst(keys, above, m);
    assert IsMax(keys, m);
  }

  function Max(keys: set<nat>): (m: nat)
    requires keys != {}
    ensures IsMax(keys, m)
  {
    MaxExists(keys);
    var m :| m in keys && IsMax(keys, m);
    m
  }

  /** The entries of an ordered map, in ascending order of their keys. */
  function Entries<V>(m: map<nat, V>, make: (nat, V) -> Assigned): seq<Assigned>
    decreases |m|
  {
    if m == map[] then []
    else
      var k := Max(m.Keys);
      Entries(m - {k}, make) + [make(k, m[k])]
  }

  function MakeReal(): (nat, string) -> Assigned
  {
    (k: nat, v: string) => RealOf(k, v)
  }

  function MakeInt(): (nat, int) -> Assigned
  {
    (k: nat, v: int) => IntOf(k, v)
  }

  function MakeBool(): (nat, int) -> Assigned
  {
    (k: nat, v: int) => BoolOf(k, v)
  }

  /** All values of an instance, whatever their direction: outputs of earlier steps are echoed. */
  function AssignedList(slots: Slots): seq<Assigned>
  {
    Entries(slots.reals, MakeReal()) + Entries(slots.integers, MakeInt()) + Entries(slots.booleans, MakeBool())
  }

  function Texts(list: seq<Assigned>): (r: seq<string>)
    ensures |r| == |list| && forall i :: 0 <= i < |r| ==> r[i] == AssignedText(list[i])
  {
    seq(|list|, i requires 0 <= i < |list| => AssignedText(list[i]))
  }

  function RequestWords(name: string, current: nat, step: nat, slots: Slots): seq<string>
  {
    ["STEP", name, PrintSeconds(current), PrintSeconds(step)] + Texts(AssignedList(slots))
  }

  function PrintRequest(name: string, current: nat, step: nat, slots: Slots): string
  {
    Line(RequestWords(name, current, step, slots))
  }

  // ---- Requests: read by the bridge ---------------------------------------------------------------------

  datatype Direction = Input | Output | Bidirectional

  datatype DataType = RealType | IntegerType | BooleanType | StringType | BytesType

  datatype Port = Port(name: string, direction: Direction, dataType: DataType)

  datatype Value = Real(text: string) | Int(number: int) | Bool(flag: bool)

  datatype Injection = Injection(port: string, value: Value)

  /** A value reference, counted from one, that names a port which takes inputs. */
  predicate TakesInput(ports: seq<Port>, reference: int)
  {
    1 <= reference <= |ports| && ports[reference - 1].direction != Output
  }

  function ReadValue(letter: char, text: string): Option<Value>
  {
    if letter == 'r' then Some(Real(text))
    else if letter == 'i' then match ParseInt(text) case None => None case Some(n) => Some(Int(n))
    else if letter == 'b' then match ParseInt(text) case None => None case Some(n) => Some(Bool(n != 0))
    else None
  }

  datatype Reading = Reading(done: seq<Injection>, ok: bool)

  /** One assignment: what it injects, and whether it can be read at all. */
  function ReadAssignment(ports: seq<Port>, word: string): Reading
  {
    var i := IndexOf(word, '=');
    if i == |word| || i == 0 then Reading([], false)
    else
      match ParseInt(word[1..i])
      case None => Reading([], false)
      case Some(reference) =>
        if !TakesInput(ports, reference) then Reading([], true)
        else
          match ReadValue(word[0], word[i + 1..])
          case None => Reading([], false)
          case Some(v) => Reading([Injection(ports[reference - 1].name, v)], true)
  }

  /** Assignments are injected one after the other, up to the first that cannot be read. */
  function ReadAssignments(ports: seq<Port>, words: seq<string>): Reading
  {
    if words == [] then Reading([], true)
    else
      var before := ReadAssignments(ports, words[..|words| - 1]);
      if !before.ok then before
      else
        var last := ReadAssignment(ports, words[|words| - 1]);
        Reading(before.done + last.done, last.ok)
  }

  predicate EndsWith(s: string, suffix: string)
  {
    |suffix| <= |s| && s[|s| - |suffix|..] == suffix
  }

  predicate Qualifies(name: string, id: string)
  {
    EndsWith(name, "." + id) || EndsWith(name, "/" + id)
  }

  /** The component a request is for: its exact name, or the one whose id ends the instance name. */
  ghost function Resolve(ids: set<string>, name: string): Option<string>
  {
    if name in ids then Some(name)
    else if exists id :: id in ids && Qualifies(name, id) && forall other <- ids :: Qualifies(name, other) ==> other == id then
      var id :| id in ids && Qualifies(name, id) && forall other <- ids :: Qualifies(name, other) ==> other == id;
      Some(id)
    else None
  }

  datatype Request = Request(component: string, currentUs: nat, stepUs: nat, words: seq<string>)

  /** The head of a request; None stands for the raised error. */
  ghost function ReadRequest(ids: set<string>, line: string): Option<Request>
  {
    var fields := Split(IsSpace, line);
    if |fields| < 4 || fields[0] != "STEP" then None
    else
      match (Resolve(ids, fields[1]), ParseMicros(fields[2]), ParseMicros(fields[3]))
      case (Some(id), Some(current), Some(step)) => Some(Request(id, current, step, fields[4..]))
      case _ => None
  }

  // ---- A request survives -----------------------------------------------------------------------------

  /** What an assignment injects when it arrives: its own value, into the port of its reference. */
  function Arrives(ports: seq<Port>): Assigned -> seq<Injection>
  {
    (a: Assigned) =>
      if !TakesInput(ports, a.reference) then []
      else
        [Injection(ports[a.reference - 1].name,
                   match a
                   case RealOf(_, text) => Real(text)
                   case IntOf(_, number) => Int(number)
                   case BoolOf(_, number) => Bool(number != 0))]
  }

  lemma ReadsWord(ports: seq<Port>, letter: char, reference: nat, text: string)
    requires letter != '='
    ensures ReadAssignment(ports, [letter] + PrintNat(reference) + "=" + text) ==
      if !TakesInput(ports, reference) then Reading([], true)
      else match ReadValue(letter, text)
           case None => Reading([], false)
           case Some(v) => Reading([Injection(ports[reference - 1].name, v)], true)
  {
    hide PrintNat, ParseInt, AllDigits, ReadValue, IndexOf;
    var digits := PrintNat(reference);
    var word := [letter] + digits + "=" + text;
    NoEquals(digits);
    PrintedNat(reference);
    IndexIs(word, '=', 1 + |digits|);
    assert word[1..1 + |digits|] == digits && word[1 + |digits| + 1..] == text;
  }

  /**
    What any assignment does: without an equals sign after its letter, or with a reference that is no number,
    it cannot be read; for no input or bidirectional port it does nothing, whatever its value; otherwise it
    injects the value of its letter's type, or cannot be read.
   */
  lemma AssignmentExactly(ports: seq<Port>, letter: char, head: string, text: string)
    requires letter != '=' && '=' !in head
    ensures ReadAssignment(ports, [letter] + head) == Reading([], false)
    ensures ReadAssignment(ports, "=" + text) == Reading([], false)
    ensures ReadAssignment(ports, [letter] + head + "=" + text) ==
      match ParseInt(head)
      case None => Reading([], false)
      case Some(k) =>
        if k < 1 || k > |ports| || ports[k - 1].direction == Output then Reading([], true)
        else if letter == 'r' then Reading([Injection(ports[k - 1].name, Real(text))], true)
        else if letter == 'i' && ParseInt(text).Some? then Reading([Injection(ports[k - 1].name, Int(ParseInt(text).value))], true)
        else if letter == 'b' && ParseInt(text).Some? then Reading([Injection(ports[k - 1].name, Bool(ParseInt(text).value != 0))], true)
        else Reading([], false)
  {
    hide ParseInt, IndexOf;
    var word := [letter] + head + "=" + text;
    IndexIs(word, '=', 1 + |head|);
    IndexIs([letter] + head, '=', 1 + |head|);
    IndexIs("=" + text, '=', 0);
    assert word[1..1 + |head|] == head && word[1 + |head| + 1..] == text;
  }

  lemma ReadsOwnText(ports: seq<Port>, a: Assigned)
    ensures ReadAssignment(ports, AssignedText(a)) == Reading(Arrives(ports)(a), true)
  {
    hide PrintNat, PrintInt, ParseInt, ReadAssignment, TakesInput;
    match a
    case RealOf(reference, text) =>
      ReadsWord(ports, 'r', reference, text);
    case IntOf(reference, number) =>
      ReadsWord(ports, 'i', reference, PrintInt(number));
      ParsePrintInt(number);
    case BoolOf(reference, number) =>
      ReadsWord(ports, 'b', reference, PrintInt(number));
      ParsePrintInt(number);
  }

  lemma NoEquals(digits: string)
    requires AllDigits(digits)
    ensures '=' !in digits
  {
  }

  lemma PrintedNat(n: nat)
    ensures ParseInt(PrintNat(n)) == Some(n)
  {
    ParsePrintInt(n);
  }

  lemma {:induction false} ReadsOwnTexts(ports: seq<Port>, list: seq<Assigned>)
    ensures ReadAssignments(ports, Texts(list)) == Reading(Project(Arrives(ports), list), true)
  {
    hide ReadAssignment, AssignedText, Arrives;
    if list == [] {
    } else {
      var front := list[..|list| - 1];
      assert Texts(list)[..|list| - 1] == Texts(front);
      ReadsOwnTexts(ports, front);
      ReadsOwnText(ports, list[|list| - 1]);
    }
  }

  ghost predicate RealTexts(slots: Slots)
  {
    forall k <- slots.reals :: IsToken(slots.reals[k])
  }

  lemma {:induction false} EntriesAre<V>(m: map<nat, V>, make: (nat, V) -> Assigned, i: nat)
    requires i < |Entries(m, make)|
    ensures exists k :: k in m && Entries(m, make)[i] == make(k, m[k])
    decreases |m|
  {
    var k := Max(m.Keys);
    var rest := m - {k};
    var front := Entries(rest, make);
    assert Entries(m, make) == front + [make(k, m[k])];
    if i < |front| {
      EntriesAre(rest, make, i);
      var j :| j in rest && front[i] == make(j, rest[j]);
      assert j in m && Entries(m, make)[i] == make(j, m[j]);
    } else {
      assert k in m && Entries(m, make)[i] == make(k, m[k]);
    }
  }

  lemma AssignedIsToken(a: Assigned)
    requires a.RealOf? ==> IsToken(a.text)
    ensures IsToken(AssignedText(a))
  {
    hide PrintNat, PrintInt;
    DigitsAreToken(PrintNat(a.reference));
    if !a.RealOf? {
      IntIsToken(a.number);
    }
  }

  lemma RequestIsTokens(name: string, current: nat, step: nat, slots: Slots)
    requires IsToken(name) && RealTexts(slots)
    ensures forall i :: 0 <= i < |RequestWords(name, current, step, slots)| ==> IsToken(RequestWords(name, current, step, slots)[i])
  {
    hide PrintSeconds, AssignedText, Entries;
    SecondsAreToken(current);
    SecondsAreToken(step);
    var list := AssignedList(slots);
    forall i | 0 <= i < |list|
      ensures IsToken(Texts(list)[i])
    {
      EntryIsToken(slots, i);
      AssignedIsToken(list[i]);
    }
  }

  lemma EntryIsToken(slots: Slots, i: nat)
    requires RealTexts(slots) && i < |AssignedList(slots)|
    ensures AssignedList(slots)[i].RealOf? ==> IsToken(AssignedList(slots)[i].text)
  {
    hide Entries, IsToken;
    var r, n := |Entries(slots.reals, MakeReal())|, |Entries(slots.integers, MakeInt())|;
    if i < r {
      EntriesAre(slots.reals, MakeReal(), i);
    } else if i < r + n {
      EntriesAre(slots.integers, MakeInt(), i - r);
    } else {
      EntriesAre(slots.booleans, MakeBool(), i - r - n);
    }
  }

  // ---- What arrives, in terms of what is held -----------------------------------------------------------

  /** The instance holds this value, in the table of its type, under this reference. */
  predicate Holds(slots: Slots, a: Assigned)
  {
    match a
    case RealOf(k, text) => k in slots.reals && slots.reals[k] == text
    case IntOf(k, number) => k in slots.integers && slots.integers[k] == number
    case BoolOf(k, number) => k in slots.booleans && slots.booleans[k] == number
  }

  /** Reals before integers before booleans, and each table in ascending order. */
  predicate Earlier(a: Assigned, b: Assigned)
  {
    || (a.RealOf? && !b.RealOf?)
    || (a.IntOf? && b.BoolOf?)
    || (a.RealOf? == b.RealOf? && a.IntOf? == b.IntOf? && a.reference < b.reference)
  }

  ghost predicate InOrder(list: seq<Assigned>)
  {
    forall i, j :: 0 <= i < j < |list| ==> Earlier(list[i], list[j])
  }

  predicate ForInput(ports: seq<Port>, a: Assigned)
  {
    && 1 <= a.reference <= |ports|
    && (ports[a.reference - 1].direction == Input || ports[a.reference - 1].direction == Bidirectional)
  }

  predicate IsValueOf(v: Value, a: Assigned)
  {
    match a
    case RealOf(_, text) => v == Real(text)
    case IntOf(_, number) => v == Int(number)
    case BoolOf(_, number) => v.Bool? && (v.flag <==> number != 0)
  }

  /** Injection by injection: the values of the entries, each into the port of its reference. */
  ghost predicate InjectsEach(injections: seq<Injection>, entries: seq<Assigned>, ports: seq<Port>)
  {
    && |injections| == |entries|
    && forall i :: 0 <= i < |entries| ==>
                     && ForInput(ports, entries[i])
                     && injections[i].port == ports[entries[i].reference - 1].name && IsValueOf(injections[i].value, entries[i])
  }

  /**
    The injections are those of the values held under the references of input and bidirectional ports:
    each such value exactly once, into the port of its reference, in the order of the tables, and none
    besides.
   */
  ghost predicate InjectsHeld(injections: seq<Injection>, slots: Slots, ports: seq<Port>)
  {
    exists entries ::
      && InjectsEach(injections, entries, ports) && InOrder(entries)
      && forall a :: a in entries <==> Holds(slots, a) && ForInput(ports, a)
  }

  function ForInputs(ports: seq<Port>, list: seq<Assigned>): seq<Assigned>
  {
    if list == [] then []
    else ForInputs(ports, list[..|list| - 1]) + (if ForInput(ports, list[|list| - 1]) then [list[|list| - 1]] else [])
  }

  lemma {:induction false} ForInputsAre(ports: seq<Port>, list: seq<Assigned>)
    ensures forall a :: a in ForInputs(ports, list) <==> a in list && ForInput(ports, a)
    ensures InOrder(list) ==> InOrder(ForInputs(ports, list))
  {
    hide ForInput, Earlier;
    if list == [] {
    } else {
      var front, last := list[..|list| - 1], list[|list| - 1];
      assert list == front + [last];
      ForInputsAre(ports, front);
      if InOrder(list) {
        forall a | a in ForInputs(ports, front)
          ensures Earlier(a, last)
        {
          var i :| 0 <= i < |front| && front[i] == a;
          assert list[i] == a;
        }
      }
    }
  }

  lemma {:induction false} EachArrives(ports: seq<Port>, list: seq<Assigned>)
    ensures InjectsEach(Project(Arrives(ports), list), ForInputs(ports, list), ports)
  {
    hide ForInput, IsValueOf, Arrives;
    if list == [] {
    } else {
      EachArrives(ports, list[..|list| - 1]);
      OneArrives(ports, list[|list| - 1]);
    }
  }

  lemma OneArrives(ports: seq<Port>, a: Assigned)
    ensures !ForInput(ports, a) ==> Arrives(ports)(a) == []
    ensures ForInput(ports, a) ==>
              var r := Arrives(ports)(a);
              r == [r[0]] && r[0].port == ports[a.reference - 1].name && IsValueOf(r[0].value, a)
  {
  }

  lemma {:induction false} EntriesInOrder<V>(m: map<nat, V>, make: (nat, V) -> Assigned)
    requires forall i, j, v, w :: i < j ==> Earlier(make(i, v), make(j, w))
    ensures InOrder(Entries(m, make))
    decreases |m|
  {
    hide Earlier;
    if m == map[] {
    } else {
      var k := Max(m.Keys);
      var front := Entries(m - {k}, make);
      EntriesInOrder(m - {k}, make);
      forall i | 0 <= i < |front|
        ensures Earlier(front[i], make(k, m[k]))
      {
        EntriesAre(m - {k}, make, i);
      }
    }
  }

  lemma {:induction false} EntryPresent<V>(m: map<nat, V>, make: (nat, V) -> Assigned, k: nat)
    requires k in m
    ensures make(k, m[k]) in Entries(m, make)
    decreases |m|
  {
    var top := Max(m.Keys);
    if k == top {
    } else {
      EntryPresent(m - {top}, make, k);
    }
  }

  lemma ListInOrder(slots: Slots)
    ensures InOrder(AssignedList(slots))
  {
    hide Entries;
    EntriesInOrder(slots.reals, MakeReal());
    EntriesInOrder(slots.integers, MakeInt());
    EntriesInOrder(slots.booleans, MakeBool());
    EntriesOfTables(slots);
  }

  lemma EntriesOfTables(slots: Slots)
    ensures forall a :: a in Entries(slots.reals, MakeReal()) <==> a.RealOf? && Holds(slots, a)
    ensures forall a :: a in Entries(slots.integers, MakeInt()) <==> a.IntOf? && Holds(slots, a)
    ensures forall a :: a in Entries(slots.booleans, MakeBool()) <==> a.BoolOf? && Holds(slots, a)
  {
    hide Entries;
    forall i: nat | i < |Entries(slots.reals, MakeReal())|
      ensures Holds(slots, Entries(slots.reals, MakeReal())[i]) && Entries(slots.reals, MakeReal())[i].RealOf?
    {
      EntriesAre(slots.reals, MakeReal(), i);
    }
    forall i: nat | i < |Entries(slots.integers, MakeInt())|
      ensures Holds(slots, Entries(slots.integers, MakeInt())[i]) && Entries(slots.integers, MakeInt())[i].IntOf?
    {
      EntriesAre(slots.integers, MakeInt(), i);
    }
    forall i: nat | i < |Entries(slots.booleans, MakeBool())|
      ensures Holds(slots, Entries(slots.booleans, MakeBool())[i]) && Entries(slots.booleans, MakeBool())[i].BoolOf?
    {
      EntriesAre(slots.booleans, MakeBool(), i);
    }
    forall k <- slots.reals {
      EntryPresent(slots.reals, MakeReal(), k);
    }
    forall k <- slots.integers {
      EntryPresent(slots.integers, MakeInt(), k);
    }
    forall k <- slots.booleans {
      EntryPresent(slots.booleans, MakeBool(), k);
    }
  }

  /** What a request injects is what is held for input ports. */
  lemma HeldInputsArrive(slots: Slots, ports: seq<Port>)
    ensures InjectsHeld(Project(Arrives(ports), AssignedList(slots)), slots, ports)
  {
    var list := AssignedList(slots);
    var entries := ForInputs(ports, list);
    hide ForInputs, ForInput, Holds, Earlier, Entries, InOrder, InjectsEach, Project, Arrives;
    EntriesOfTables(slots);
    ForInputsAre(ports, list);
    assert forall a :: a in list <==> Holds(slots, a);
    ListInOrder(slots);
    EachArrives(ports, list);
  }

  /**
    A printed step request is read back: the component its instance name resolves to, the two times as
    far as six digits carry them, every integer and boolean exactly, and every real as the text it was
    printed as, each into the port of its 1-based reference when that port is an input or bidirectional.
   */
  lemma RequestSurvives(ids: set<string>, name: string, current: nat, step: nat, slots: Slots, ports: seq<Port>)
    requires IsToken(name) && RealTexts(slots) && Resolve(ids, name).Some?
    ensures var read := ReadRequest(ids, PrintRequest(name, current, step, slots));
            && read.Some? && Some(read.value.component) == Resolve(ids, name)
            && SixDigits(current, read.value.currentUs) && SixDigits(step, read.value.stepUs)
            && ReadAssignments(ports, read.value.words) == Reading(Project(Arrives(ports), AssignedList(slots)), true)
            && InjectsHeld(ReadAssignments(ports, read.value.words).done, slots, ports)
  {
    hide PrintSeconds, ParseMicros, Resolve, Line, Split, ReadAssignments, AssignedList, Texts, Arrives, InjectsHeld;
    HeldInputsArrive(slots, ports);
    var words := RequestWords(name, current, step, slots);
    RequestIsTokens(name, current, step, slots);
    SplitLine(IsSpace, words);
    TimeSurvives(current);
    TimeSurvives(step);
    assert words[4..] == Texts(AssignedList(slots));
    ReadsOwnTexts(ports, AssignedList(slots));
  }

  // ---- Routing ---------------------------------------------------------------------------------------------

  ghost predicate Plain(id: string)
  {
    '.' !in id && '/' !in id
  }

  lemma SuffixesAgree(name: string, a: string, b: string)
    requires Plain(a) && Plain(b) && Qualifies(name, a) && Qualifies(name, b)
    ensures a == b
  {
    if |b| < |a| {
      LongerIsNotPlain(name, a, b);
    } else if |a| < |b| {
      LongerIsNotPlain(name, b, a);
    } else {
      LastPart(name, a);
      LastPart(name, b);
    }
  }

  lemma LastPart(name: string, a: string)
    requires Qualifies(name, a)
    ensures |a| < |name| && name[|name| - |a|..] == a && name[|name| - |a| - 1] in "./"
  {
    var k := |name| - |a| - 1;
    assert name[k..][1..] == name[k + 1..];
    assert ("." + a)[1..] == a && ("/" + a)[1..] == a;
    assert name[k] == name[k..][0];
  }

  lemma LongerIsNotPlain(name: string, a: string, b: string)
    requires Qualifies(name, a) && Qualifies(name, b) && |b| < |a|
    ensures !Plain(a)
  {
    LastPart(name, a);
    LastPart(name, b);
    var separator := name[|name| - |b| - 1];
    assert separator == a[|a| - |b| - 1];
    assert separator in a;
  }

  /**
    With component ids free of dots and slashes every qualified instance name is routed to the one
    component it ends in, and an instance name that ends in none, and is none, to no component.
   */
  lemma RoutingIsExact(ids: set<string>, path: string, separator: char, id: string)
    requires (forall other <- ids :: Plain(other)) && Plain(id) && (separator == '.' || separator == '/')
    ensures Resolve(ids, path + [separator] + id) == if id in ids then Some(id) else None
  {
    var name := path + [separator] + id;
    assert name[|path|..] == [separator] + id;
    assert "." + id == ['.'] + id && "/" + id == ['/'] + id;
    assert Qualifies(name, id);
    assert name !in ids by {
      assert name[|path|] == separator;
    }
    forall other | other in ids && Qualifies(name, other)
      ensures other == id
    {
      SuffixesAgree(name, other, id);
    }
  }

  /** The name ends in the id, after a dot or a slash. */
  predicate EndsIn(name: string, id: string)
  {
    |id| < |name| && name[|name| - |id|..] == id && (name[|name| - |id| - 1] == '.' || name[|name| - |id| - 1] == '/')
  }

  lemma EndsInExactly(name: string, id: string)
    ensures Qualifies(name, id) <==> EndsIn(name, id)
  {
    if Qualifies(name, id) {
      LastPart(name, id);
    }
    if EndsIn(name, id) {
      var k := |name| - |id| - 1;
      assert name[k..] == [name[k]] + name[k + 1..];
      assert "." + id == ['.'] + id && "/" + id == ['/'] + id;
    }
  }

  /** A request is for the component of its exact name, or else for the one component its name ends in, and for none if there are several. */
  lemma ResolveExactly(ids: set<string>, name: string, id: string)
    ensures Resolve(ids, name) == Some(id) <==>
      && id in ids
      && (name == id || (name !in ids && EndsIn(name, id) && forall other <- ids :: EndsIn(name, other) ==> other == id))
  {
    hide Qualifies, EndsIn;
    EndsInExactly(name, id);
    forall other <- ids {
      EndsInExactly(name, other);
    }
  }

  // ---- Echoes ------------------------------------------------------------------------------------------------

  function InputsOnly<V>(m: map<nat, V>, ports: seq<Port>): map<nat, V>
  {
    map k <- m | TakesInput(ports, k) :: m[k]
  }

  /** Only the entries of input ports arrive. */
  lemma {:induction false} EntriesArriving<V>(m: map<nat, V>, make: (nat, V) -> Assigned, ports: seq<Port>)
    requires forall k: nat, v :: make(k, v).reference == k
    ensures Project(Arrives(ports), Entries(m, make)) == Project(Arrives(ports), Entries(InputsOnly(m, ports), make))
    decreases |m|
  {
    var inputs := InputsOnly(m, ports);
    if m == map[] {
      assert inputs == map[];
    } else {
      var k := Max(m.Keys);
      var rest := m - {k};
      EntriesArriving(rest, make, ports);
      if TakesInput(ports, k) {
        assert k in inputs && inputs.Keys <= m.Keys;
        assert Max(inputs.Keys) == k;
        assert inputs - {k} == InputsOnly(rest, ports);
        LastArrives(Arrives(ports), Entries(rest, make), Entries(inputs - {k}, make), make(k, m[k]));
      } else {
        assert inputs == InputsOnly(rest, ports);
        LastVanishes(Arrives(ports), Entries(rest, make), make(k, m[k]));
      }
    }
  }

  lemma LastArrives(f: Assigned -> seq<Injection>, a: seq<Assigned>, b: seq<Assigned>, last: Assigned)
    requires Project(f, a) == Project(f, b)
    ensures Project(f, a + [last]) == Project(f, b + [last])
  {
    ProjectConcat(f, a, [last]);
    ProjectConcat(f, b, [last]);
  }

  lemma LastVanishes(f: Assigned -> seq<Injection>, a: seq<Assigned>, last: Assigned)
    requires f(last) == []
    ensures Project(f, a + [last]) == Project(f, a)
  {
    ProjectConcat(f, a, [last]);
    ProjectOne(f, last);
  }

  lemma ArrivingInputs(slots: Slots, ports: seq<Port>)
    ensures Project(Arrives(ports), AssignedList(slots)) ==
      Project(Arrives(ports), AssignedList(Slots(InputsOnly(slots.reals, ports), InputsOnly(slots.integers, ports), InputsOnly(slots.booleans, ports))))
  {
    hide Entries, Arrives, Project, InputsOnly;
    var f := Arrives(ports);
    var inputs := Slots(InputsOnly(slots.reals, ports), InputsOnly(slots.integers, ports), InputsOnly(slots.booleans, ports));
    EntriesArriving(slots.reals, MakeReal(), ports);
    EntriesArriving(slots.integers, MakeInt(), ports);
    EntriesArriving(slots.booleans, MakeBool(), ports);
    ThreeParts(f, Entries(slots.reals, MakeReal()), Entries(slots.integers, MakeInt()), Entries(slots.booleans, MakeBool()));
    ThreeParts(f, Entries(inputs.reals, MakeReal()), Entries(inputs.integers, MakeInt()), Entries(inputs.booleans, MakeBool()));
  }

  lemma ThreeParts(f: Assigned -> seq<Injection>, a: seq<Assigned>, b: seq<Assigned>, c: seq<Assigned>)
    ensures Project(f, a + b + c) == Project(f, a) + Project(f, b) + Project(f, c)
  {
    ProjectConcat(f, a + b, c);
    ProjectConcat(f, a, b);
  }

  /** Slots that agree on the references of input ports inject the same, whatever else they hold. */
  lemma EchoesInjectNothing(before: Slots, after: Slots, ports: seq<Port>)
    requires InputsOnly(before.reals, ports) == InputsOnly(after.reals, ports)
    requires InputsOnly(before.integers, ports) == InputsOnly(after.integers, ports)
    requires InputsOnly(before.booleans, ports) == InputsOnly(after.booleans, ports)
    ensures Project(Arrives(ports), AssignedList(before)) == Project(Arrives(ports), AssignedList(after))
  {
    hide InputsOnly, Project, AssignedList;
    ArrivingInputs(before, ports);
    ArrivingInputs(after, ports);
  }
}

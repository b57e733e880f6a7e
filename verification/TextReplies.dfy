// Replies with texts of any kind. The proxy splits a reply at blanks, so a text with blanks is not one
// item: its first word belongs to its port, and every later word is an item of its own.
module TextReplies {
  import opened Common
  import opened DecimalText
  import opened FmiReply
  import opened FmiText
  import opened IntegerPorts

  // ---- Replies word by word --------------------------------------------------------------------------

  function Words(s: string): seq<string>
  {
    Split(IsBlank, s)
  }

  function WordsOf(): string -> seq<string>
  {
    (s: string) => Words(s)
  }

  lemma {:induction false} WordLengthBefore(a: string, b: string)
    requires b != [] && IsBlank(b[0])
    ensures WordLength(IsBlank, a + b) == WordLength(IsBlank, a)
  {
    if a == [] {
      assert a + b == b;
    } else {
      assert (a + b)[1..] == a[1..] + b;
      WordLengthBefore(a[1..], b);
    }
  }

  /** At a blank the words of a text come apart. */
  lemma {:induction false} WordsSplit(a: string, b: string)
    requires b != [] && IsBlank(b[0])
    ensures Words(a + b) == Words(a) + Words(b[1..])
    decreases |a|
  {
    if a == [] {
      assert a + b == b;
    } else if IsBlank(a[0]) {
      assert (a + b)[1..] == a[1..] + b;
      WordsSplit(a[1..], b);
    } else {
      var n := WordLength(IsBlank, a);
      WordLengthBefore(a, b);
      assert (a + b)[..n] == a[..n] && (a + b)[n..] == a[n..] + b;
      WordsSplit(a[n..], b);
    }
  }

  lemma {:induction false} LineWords(items: seq<string>)
    ensures Words(Line(items)) == Project(WordsOf(), items)
  {
    hide Split;
    if items == [] {
      SplitNothing(IsBlank);
    } else {
      var rest := items[1..];
      ProjectConcat(WordsOf(), [items[0]], rest);
      ProjectOne(WordsOf(), items[0]);
      assert [items[0]] + rest == items;
      LineWords(rest);
      if rest == [] {
        SplitNothing(IsBlank);
        WordsSplit(items[0], "\n");
        assert "\n"[1..] == [];
        assert Line(rest) == "\n";
      } else {
        var more := " " + Line(rest);
        WordsSplit(items[0], more);
        assert more[1..] == Line(rest);
      }
    }
  }

  lemma {:induction false} ReadConcat(slots: Slots, a: seq<string>, b: seq<string>)
    ensures var first := ReadItems(slots, a);
            ReadItems(slots, a + b) == if first.all then ReadItems(first.slots, b) else first
  {
    hide ParseItem, PutEntry;
    if b == [] {
      assert a + b == a;
    } else {
      assert (a + b)[..|a + b| - 1] == a + b[..|b| - 1];
      ReadConcat(slots, a, b[..|b| - 1]);
    }
  }

  /** Any reply that fits the buffer is read word by word, whatever its items are. */
  lemma ReplyInWords(slots: Slots, items: seq<string>)
    requires |PrintReply(items)| <= BUFFER
    ensures var stored := ReadItems(slots, Project(WordsOf(), items));
            ReadReply(slots, PrintReply(items)) == if stored.all then Done(stored.slots) else Threw(stored.slots)
  {
    hide ReadItems, Line, Split;
    LineWords(["OK"] + items);
    ProjectConcat(WordsOf(), ["OK"], items);
    ProjectOne(WordsOf(), "OK");
    WordAlone("OK");
    var words := Project(WordsOf(), items);
    assert (["OK"] + words)[1..] == words;
  }

  lemma WordAlone(s: string)
    requires IsWord(s)
    ensures Words(s) == [s]
  {
    WordLengthIs(IsBlank, s, []);
    SplitNothing(IsBlank);
    assert s + [] == s && s[..|s|] == s && s[|s|..] == [];
    assert [s] + [] == [s];
  }

  /** All words are read exactly when none of them throws. */
  lemma {:induction false} AllReadExactly(slots: Slots, words: seq<string>)
    ensures ReadItems(slots, words).all <==> forall i :: 0 <= i < |words| ==> ParseItem(words[i]) != Throw
  {
    hide ParseItem, PutEntry;
    if words == [] {
    } else {
      var front := words[..|words| - 1];
      AllReadExactly(slots, front);
      assert forall i :: 0 <= i < |front| ==> front[i] == words[i];
    }
  }

  lemma {:induction false} WordOfSome(items: seq<string>, word: string)
    ensures word in Project(WordsOf(), items) <==> exists i :: 0 <= i < |items| && word in Words(items[i])
  {
    hide Split;
    if items == [] {
    } else {
      var front := items[..|items| - 1];
      WordOfSome(front, word);
      assert forall i :: 0 <= i < |front| ==> front[i] == items[i];
    }
  }

  /** Some word of some item throws. */
  ghost predicate Rejected(items: seq<string>)
  {
    exists i, word :: 0 <= i < |items| && word in Words(items[i]) && ParseItem(word) == Throw
  }

  /** The exchange ends in an exception exactly when some word of some item throws. */
  lemma ReplyThrowsExactly(slots: Slots, items: seq<string>)
    requires |PrintReply(items)| <= BUFFER
    ensures ReadReply(slots, PrintReply(items)).Threw? <==> Rejected(items)
    ensures !Rejected(items) ==> ReadReply(slots, PrintReply(items)).Done?
  {
    hide ReadReply, PrintReply, ReadItems, ParseItem, Split;
    ReplyInWords(slots, items);
    var words := Project(WordsOf(), items);
    AllReadExactly(slots, words);
    if i :| 0 <= i < |words| && ParseItem(words[i]) == Throw {
      WordOfSome(items, words[i]);
    }
    if i, word :| 0 <= i < |items| && word in Words(items[i]) && ParseItem(word) == Throw {
      WordOfSome(items, word);
      var j :| 0 <= j < |words| && words[j] == word;
    }
  }

  // ---- One item with any text ----------------------------------------------------------------------------

  function FirstWord(text: string): string
  {
    text[..WordLength(IsBlank, text)]
  }

  function OtherWords(text: string): seq<string>
  {
    Words(text[WordLength(IsBlank, text)..])
  }

  function ItemText(letter: char, k: nat, text: string): string
  {
    [letter] + PrintNat(k) + "=" + text
  }

  lemma {:induction false} WordLengthAfter(a: string, b: string)
    requires forall i :: 0 <= i < |a| ==> !IsBlank(a[i])
    ensures WordLength(IsBlank, a + b) == |a| + WordLength(IsBlank, b)
  {
    if a == [] {
      assert a + b == b;
    } else {
      assert (a + b)[1..] == a[1..] + b;
      WordLengthAfter(a[1..], b);
    }
  }

  lemma PrefixIsWord(letter: char, k: nat)
    requires letter in "rib"
    ensures IsWord([letter] + PrintNat(k) + "=")
  {
    hide PrintNat;
    DigitsAreToken(PrintNat(k));
  }

  /** The first word of a text completes the item of its port. */
  lemma ItemWords(letter: char, k: nat, text: string)
    requires letter in "rib"
    ensures Words(ItemText(letter, k, text)) == [ItemText(letter, k, FirstWord(text))] + OtherWords(text)
  {
    hide PrintNat;
    var prefix := [letter] + PrintNat(k) + "=";
    var s := prefix + text;
    var n := WordLength(IsBlank, text);
    PrefixIsWord(letter, k);
    WordLengthAfter(prefix, text);
    assert s == ItemText(letter, k, text);
    assert s[..|prefix| + n] == prefix + text[..n] && s[|prefix| + n..] == text[n..];
    assert s[0] == letter && !IsBlank(s[0]);
  }

  lemma OneWord(text: string)
    requires IsWord(text)
    ensures FirstWord(text) == text && OtherWords(text) == []
  {
    WordLengthIs(IsBlank, text, []);
    assert text + [] == text;
  }

  /** What becomes of the first word. */
  function First(letter: char, k: nat, text: string): Parsed
  {
    if FirstWord(text) == [] && k < 10 then Skip else ParseValue(letter, k, FirstWord(text))
  }

  /** An item with any text: its first word is skipped, throws or is stored; then come the other words as items of their own. */
  lemma TextIsReadExactly(slots: Slots, letter: char, k: nat, text: string)
    requires letter in "rib" && k < WORD
    ensures ReadItems(slots, Words(ItemText(letter, k, text))) ==
      match First(letter, k, text)
      case Throw => Stored(slots, false)
      case Skip => ReadItems(slots, OtherWords(text))
      case Put(entry) => ReadItems(PutEntry(slots, entry), OtherWords(text))
  {
    hide PrintNat, ParseItem, ParseValue, PutEntry, FirstWord, OtherWords, Split;
    ItemWords(letter, k, text);
    PrintedItem(letter, k, FirstWord(text));
    var first := ItemText(letter, k, FirstWord(text));
    ReadConcat(slots, [first], OtherWords(text));
    assert [first][..0] == [];
  }

  // ---- A whole reply, port by port ------------------------------------------------------------------------

  /** The port of reference k is reported as an item. */
  ghost predicate ReportedAs(ports: seq<Port>, outputs: Outputs, k: int, item: string)
  {
    && 1 <= k <= |ports| && Sends(ports[k - 1], outputs)
    && var printed := PortText(ports[k - 1], SentValue(ports, outputs, k));
       printed.Some? && item == ItemText(printed.value.0, k, printed.value.1)
  }

  lemma {:induction false} ItemsAreReports(ports: seq<Port>, outputs: Outputs, item: string)
    requires Items(ports, outputs).Some?
    ensures item in Items(ports, outputs).value <==> exists k :: ReportedAs(ports, outputs, k, item)
  {
    hide PortText, ItemText, Sends;
    if ports == [] {
    } else {
      var front := ports[..|ports| - 1];
      ItemsAreReports(front, outputs, item);
      forall k
        ensures ReportedAs(ports, outputs, k, item) <==>
          if k == |ports| then ReportedAs(ports, outputs, |ports|, item) else ReportedAs(front, outputs, k, item)
      {
      }
      LastReport(ports, outputs, item);
    }
  }

  lemma LastReport(ports: seq<Port>, outputs: Outputs, item: string)
    requires ports != [] && Items(ports, outputs).Some?
    ensures Items(ports[..|ports| - 1], outputs).Some?
    ensures item in Items(ports, outputs).value <==>
      item in Items(ports[..|ports| - 1], outputs).value || ReportedAs(ports, outputs, |ports|, item)
  {
    hide PortText, PrintNat, Sends;
  }

  /** The report of the port of reference k makes the proxy throw: at its first word, or at one that is an item of its own. */
  ghost predicate ReportThrows(ports: seq<Port>, outputs: Outputs, k: int)
  {
    && 1 <= k <= |ports| && Sends(ports[k - 1], outputs)
    && var printed := PortText(ports[k - 1], SentValue(ports, outputs, k));
       printed.Some? && (First(printed.value.0, k, printed.value.1) == Throw || SomeThrows(OtherWords(printed.value.1)))
  }

  lemma ItemRejected(letter: char, k: nat, text: string)
    requires letter in "rib" && k < WORD
    ensures (exists word :: word in Words(ItemText(letter, k, text)) && ParseItem(word) == Throw)
       <==> First(letter, k, text) == Throw || SomeThrows(OtherWords(text))
  {
    hide ParseItem, First, ItemText, OtherWords, FirstWord, Split;
    ItemWords(letter, k, text);
    FirstIsParsed(letter, k, text);
    var first := ItemText(letter, k, FirstWord(text));
    assert first in [first] + OtherWords(text);
    forall word
      ensures word in [first] + OtherWords(text) <==> word == first || word in OtherWords(text)
    {
    }
    if word :| word in OtherWords(text) && ParseItem(word) == Throw {
      var i :| 0 <= i < |OtherWords(text)| && OtherWords(text)[i] == word;
    }
  }

  lemma PortLetters(port: Port, v: OutputValue)
    ensures PortText(port, v).Some? ==> PortText(port, v).value.0 in "rib"
  {
  }

  /** The exchange of any outputs, with texts of any kind, ends in an exception exactly when the report of some port throws. */
  lemma OutputsThrowExactly(slots: Slots, ports: seq<Port>, outputs: Outputs)
    requires |ports| < WORD && Items(ports, outputs).Some? && |PrintReply(Items(ports, outputs).value)| <= BUFFER
    ensures ReadReply(slots, PrintReply(Items(ports, outputs).value)).Threw? <==> exists k :: ReportThrows(ports, outputs, k)
  {
    hide ReadReply, PrintReply, ParseItem, First, ItemText, OtherWords, Split, PortText, Items, Sends, SomeThrows;
    var items := Items(ports, outputs).value;
    ReplyThrowsExactly(slots, items);
    if i, word :| 0 <= i < |items| && word in Words(items[i]) && ParseItem(word) == Throw {
      ItemsAreReports(ports, outputs, items[i]);
      var k :| ReportedAs(ports, outputs, k, items[i]);
      var v := SentValue(ports, outputs, k);
      PortLetters(ports[k - 1], v);
      ItemRejected(PortText(ports[k - 1], v).value.0, k, PortText(ports[k - 1], v).value.1);
      assert ReportThrows(ports, outputs, k);
    }
    if k :| ReportThrows(ports, outputs, k) {
      var v := SentValue(ports, outputs, k);
      var (letter, text) := PortText(ports[k - 1], v).value;
      var item := ItemText(letter, k, text);
      PortLetters(ports[k - 1], v);
      ItemRejected(letter, k, text);
      assert ReportedAs(ports, outputs, k, item);
      ItemsAreReports(ports, outputs, item);
      var i :| 0 <= i < |items| && items[i] == item;
      var word :| word in Words(item) && ParseItem(word) == Throw;
      assert 0 <= i < |items| && word in Words(items[i]) && ParseItem(word) == Throw;
    }
  }

  // ---- Any value on an integer port -----------------------------------------------------------------------

  /** The first word throws: it starts with no 32-bit integer, and is looked at. */
  ghost predicate FirstThrows(k: nat, text: string)
  {
    !(FirstWord(text) == [] && k < 10) && forall n :: StartsWithNumber(FirstWord(text), n) ==> !Fits32(n)
  }

  lemma FirstThrowsExactly(k: nat, text: string)
    ensures First('i', k, text) == Throw <==> FirstThrows(k, text)
    ensures forall n :: First('i', k, text) == Put(IntOf(k, n)) ==> StartsWithNumber(FirstWord(text), n) && Fits32(n)
    ensures First('i', k, text).Put? ==> First('i', k, text).entry.IntOf? && First('i', k, text).entry.reference == k
  {
    hide ReadInt32, StartsWithNumber, FirstWord;
    TextsThrow(FirstWord(text));
    if FirstWord(text) == [] {
      EmptyStartsWithNothing();
    }
    if ReadInt32(FirstWord(text)).Some? {
      IntegerIsReadExactly(FirstWord(text), ReadInt32(FirstWord(text)).value);
    }
  }

  lemma EmptyStartsWithNothing()
    ensures ReadInt32([]) == None
  {
  }

  ghost predicate SomeThrows(words: seq<string>)
  {
    exists i :: 0 <= i < |words| && ParseItem(words[i]) == Throw
  }

  /**
    Whatever an integer port reports, reading it ends in an exception exactly when its first word throws,
    or some later word does, which is then an item of its own.
   */
  lemma IntegerPortThrowsExactly(slots: Slots, k: nat, v: OutputValue)
    requires k < WORD
    ensures !ReadItems(slots, Words(ItemText('i', k, Format(v)))).all <==> FirstThrows(k, Format(v)) || SomeThrows(OtherWords(Format(v)))
  {
    hide ReadItems, ParseItem, FirstThrows, First, Format, OtherWords, Split, PutEntry, ItemText;
    var text := Format(v);
    TextIsReadExactly(slots, 'i', k, text);
    FirstThrowsExactly(k, text);
    AllReadExactly(slots, OtherWords(text));
    if First('i', k, text).Put? {
      AllReadExactly(PutEntry(slots, First('i', k, text).entry), OtherWords(text));
    }
  }

  lemma NumbersAreWords(v: OutputValue)
    requires v.Integer? || v.Flag?
    ensures IsWord(Format(v))
  {
    if v.Integer? {
      IntIsToken(v.number);
    }
  }

  /** For what prints as one word that is the exception of its single item. */
  lemma OneWordThrowsExactly(slots: Slots, k: nat, v: OutputValue)
    requires k < WORD && IsWord(Format(v))
    ensures !ReadItems(slots, Words(ItemText('i', k, Format(v)))).all <==> Throws(v)
  {
    hide ReadItems, Format, FirstThrows, ItemText, Throws, ReadInt32, StartsWithNumber;
    IntegerPortThrowsExactly(slots, k, v);
    OneWord(Format(v));
    ThrowsExactly(v);
    WordThrows(k, Format(v));
  }

  lemma WordThrows(k: nat, text: string)
    requires IsWord(text)
    ensures FirstThrows(k, text) <==> ReadInt32(text) == None
  {
    hide ReadInt32, StartsWithNumber;
    OneWord(text);
    TextsThrow(text);
  }

  // ---- Other references ---------------------------------------------------------------------------------------

  predicate Own(entry: Assigned, letter: char, k: nat)
  {
    entry.reference == k && (if letter == 'r' then entry.RealOf? else if letter == 'i' then entry.IntOf? else entry.BoolOf?)
  }

  ghost predicate SameBut<V>(a: map<nat, V>, b: map<nat, V>, k: nat)
  {
    forall j: nat :: j != k ==> (j in a <==> j in b) && (j in a ==> a[j] == b[j])
  }

  /** Nothing changed but, at most, the value of one port. */
  ghost predicate OnlyUnder(before: Slots, after: Slots, letter: char, k: nat)
  {
    && (if letter == 'r' then SameBut(before.reals, after.reals, k) else before.reals == after.reals)
    && (if letter == 'i' then SameBut(before.integers, after.integers, k) else before.integers == after.integers)
    && (if letter == 'b' then SameBut(before.booleans, after.booleans, k) else before.booleans == after.booleans)
  }

  predicate Foreign(word: string, letter: char, k: nat)
  {
    ParseItem(word).Put? && !Own(ParseItem(word).entry, letter, k)
  }

  /** No word stores under another reference, or one before it throws. */
  ghost predicate Harmless(words: seq<string>, letter: char, k: nat)
  {
    forall j :: 0 <= j < |words| && Foreign(words[j], letter, k) ==> SomeThrows(words[..j])
  }

  lemma OwnChanges(before: Slots, middle: Slots, entry: Assigned, letter: char, k: nat)
    requires OnlyUnder(before, middle, letter, k) && Own(entry, letter, k) && letter in "rib"
    ensures OnlyUnder(before, PutEntry(middle, entry), letter, k)
  {
  }

  lemma {:induction false} HarmlessChanges(slots: Slots, words: seq<string>, letter: char, k: nat)
    requires Harmless(words, letter, k) && letter in "rib"
    ensures OnlyUnder(slots, ReadItems(slots, words).slots, letter, k)
  {
    hide ParseItem, PutEntry, Own, OnlyUnder;
    if words == [] {
      NothingChanged(slots, letter, k);
    } else {
      var front, last := words[..|words| - 1], words[|words| - 1];
      assert Harmless(front, letter, k) by {
        forall j | 0 <= j < |front| && Foreign(front[j], letter, k)
          ensures SomeThrows(front[..j])
        {
          assert words[j] == front[j] && words[..j] == front[..j];
        }
      }
      HarmlessChanges(slots, front, letter, k);
      AllReadExactly(slots, front);
      var middle := ReadItems(slots, front);
      if middle.all && ParseItem(last).Put? {
        assert words[..|words| - 1] == front;
        assert !Foreign(last, letter, k);
        OwnChanges(slots, middle.slots, ParseItem(last).entry, letter, k);
      }
    }
  }

  lemma NothingChanged(slots: Slots, letter: char, k: nat)
    ensures OnlyUnder(slots, slots, letter, k)
  {
  }

  /** The value of an entry's reference is held. */
  predicate Holds(slots: Slots, entry: Assigned)
  {
    match entry
    case RealOf(reference, _) => reference in slots.reals
    case IntOf(reference, _) => reference in slots.integers
    case BoolOf(reference, _) => reference in slots.booleans
  }

  lemma PutHolds(slots: Slots, put: Assigned, entry: Assigned)
    ensures Holds(PutEntry(slots, put), put) && (Holds(slots, entry) ==> Holds(PutEntry(slots, put), entry))
  {
  }

  lemma {:induction false} StoredIsHeld(slots: Slots, words: seq<string>, j: nat)
    requires j < |words| && ParseItem(words[j]).Put? && !SomeThrows(words[..j])
    ensures Holds(ReadItems(slots, words).slots, ParseItem(words[j]).entry)
  {
    hide ParseItem, PutEntry, Holds;
    var front, last := words[..|words| - 1], words[|words| - 1];
    AllReadExactly(slots, front);
    var middle := ReadItems(slots, front);
    if j == |words| - 1 {
      assert words[..j] == front;
      PutHolds(middle.slots, ParseItem(last).entry, ParseItem(last).entry);
    } else {
      assert front[..j] == words[..j] && front[j] == words[j];
      StoredIsHeld(slots, front, j);
      if ParseItem(last).Put? {
        PutHolds(middle.slots, ParseItem(last).entry, ParseItem(words[j]).entry);
      }
    }
  }

  const EMPTY := Slots(map[], map[], map[])

  lemma ForeignShows(slots: Slots, entry: Assigned, letter: char, k: nat)
    requires letter in "rib" && Holds(slots, entry) && !Own(entry, letter, k)
    ensures !OnlyUnder(EMPTY, slots, letter, k)
  {
  }

  /** Words leave everything but one port's value alone, whatever is held, exactly when they are harmless. */
  lemma HarmlessExactly(words: seq<string>, letter: char, k: nat)
    requires letter in "rib"
    ensures (forall slots :: OnlyUnder(slots, ReadItems(slots, words).slots, letter, k)) <==> Harmless(words, letter, k)
  {
    hide ParseItem, Own, OnlyUnder, Holds, ReadItems;
    if Harmless(words, letter, k) {
      forall slots
        ensures OnlyUnder(slots, ReadItems(slots, words).slots, letter, k)
      {
        HarmlessChanges(slots, words, letter, k);
      }
    } else {
      var j :| 0 <= j < |words| && Foreign(words[j], letter, k) && !SomeThrows(words[..j]);
      StoredIsHeld(EMPTY, words, j);
      ForeignShows(ReadItems(EMPTY, words).slots, ParseItem(words[j]).entry, letter, k);
      assert !OnlyUnder(EMPTY, ReadItems(EMPTY, words).slots, letter, k);
    }
  }

  lemma FirstIsOwn(letter: char, k: nat, text: string)
    requires letter in "rib" && First(letter, k, text).Put?
    ensures Own(First(letter, k, text).entry, letter, k)
  {
    hide ReadInt32, ReadsAsReal;
  }

  lemma HarmlessAfter(first: string, others: seq<string>, letter: char, k: nat)
    requires !Foreign(first, letter, k)
    ensures Harmless([first] + others, letter, k) <==> ParseItem(first) == Throw || Harmless(others, letter, k)
  {
    hide ParseItem, Own;
    var words := [first] + others;
    forall j | 0 <= j < |others|
      ensures words[j + 1] == others[j] && (SomeThrows(words[..j + 1]) <==> ParseItem(first) == Throw || SomeThrows(others[..j]))
    {
      assert words[..j + 1] == [first] + others[..j];
      ThrowsInFront(first, others[..j]);
    }
    if Harmless(words, letter, k) && ParseItem(first) != Throw {
      forall j | 0 <= j < |others| && Foreign(others[j], letter, k)
        ensures SomeThrows(others[..j])
      {
        assert Foreign(words[j + 1], letter, k);
      }
    }
    if ParseItem(first) == Throw || Harmless(others, letter, k) {
      forall j | 0 <= j < |words| && Foreign(words[j], letter, k)
        ensures SomeThrows(words[..j])
      {
        assert words[j] == others[j - 1];
      }
    }
  }

  lemma ThrowsInFront(first: string, others: seq<string>)
    ensures SomeThrows([first] + others) <==> ParseItem(first) == Throw || SomeThrows(others)
  {
    hide ParseItem;
    var words := [first] + others;
    if j :| 0 <= j < |others| && ParseItem(others[j]) == Throw {
      assert words[j + 1] == others[j];
    }
    if ParseItem(first) == Throw {
      assert words[0] == first;
    }
  }

  /**
    A reported text changes no other reference, whatever is held, if and only if its first word throws or
    none of its other words stores under another reference before one throws.
   */
  lemma TextChangesNoOtherExactly(letter: char, k: nat, text: string)
    requires letter in "rib" && k < WORD
    ensures (forall slots :: OnlyUnder(slots, ReadItems(slots, Words(ItemText(letter, k, text))).slots, letter, k))
       <==> First(letter, k, text) == Throw || Harmless(OtherWords(text), letter, k)
  {
    hide PrintNat, ParseItem, Own, OnlyUnder, ReadItems, First, FirstWord, OtherWords, Split, Harmless;
    var first := ItemText(letter, k, FirstWord(text));
    ItemWords(letter, k, text);
    FirstIsParsed(letter, k, text);
    if First(letter, k, text).Put? {
      FirstIsOwn(letter, k, text);
    }
    HarmlessAfter(first, OtherWords(text), letter, k);
    HarmlessExactly([first] + OtherWords(text), letter, k);
  }

  lemma FirstIsParsed(letter: char, k: nat, text: string)
    requires letter in "rib" && k < WORD
    ensures ParseItem(ItemText(letter, k, FirstWord(text))) == First(letter, k, text)
  {
    hide PrintNat, ParseItem, ParseValue, FirstWord;
    PrintedItem(letter, k, FirstWord(text));
  }

  // ---- Two outputs --------------------------------------------------------------------------------------------

  lemma SmallNumbers()
    ensures PrintNat(1) == "1" && PrintNat(2) == "2" && ReadInt32("5") == Some(5) && ReadInt32("7") == Some(7)
  {
    LeadingIntSurvives(5);
    LeadingIntSurvives(7);
    assert PrintInt(5) == "5" && PrintInt(7) == "7";
  }

  function Then(slots: Slots, parsed: Parsed): Slots
  {
    if parsed.Put? then PutEntry(slots, parsed.entry) else slots
  }

  lemma ReadsTwo(slots: Slots, a: string, b: string)
    requires ParseItem(a) != Throw && ParseItem(b) != Throw
    ensures ReadItems(slots, [a, b]) == Stored(Then(Then(slots, ParseItem(a)), ParseItem(b)), true)
  {
    hide ParseItem, PutEntry;
    ReadsOne(slots, a);
    ReadsOne(Then(slots, ParseItem(a)), b);
    ReadConcat(slots, [a], [b]);
    assert [a] + [b] == [a, b];
  }

  lemma ReadsOne(slots: Slots, word: string)
    requires ParseItem(word) != Throw
    ensures ReadItems(slots, [word]) == Stored(Then(slots, ParseItem(word)), true)
  {
    hide ParseItem, PutEntry;
    assert [word][..0] == [];
  }

  /** A text on the port of reference 1 that changes reference 2 as well. */
  lemma TextChangesOther(slots: Slots)
    ensures ItemText('i', 1, "5 i2=7") == "i1=5 i2=7"
    ensures ReadReply(slots, PrintReply(["i1=5 i2=7"])) == Done(slots.(integers := slots.integers[1 := 5][2 := 7]))
  {
    hide PrintNat, Split, ReadInt32, Line, ReadItems, ParseItem, ReadReply, PrintReply;
    SmallNumbers();
    PrintedItem('i', 1, "5");
    PrintedItem('i', 2, "7");
    assert "i1=5" == ['i'] + "1" + "=" + "5" && "i2=7" == ['i'] + "2" + "=" + "7";
    TwoWords("i1=5", "i2=7");
    assert "i1=5 i2=7" == "i1=5" + " " + "i2=7";
    OneItemReply(slots, "i1=5 i2=7", ["i1=5", "i2=7"]);
    ReadsTwo(slots, "i1=5", "i2=7");
  }

  lemma ShortWords()
    ensures ParseItem("i1=") == Skip && ParseItem("5") == Skip
  {
  }

  /** And one that is neither stored nor refused. */
  lemma TextIsLost(slots: Slots)
    ensures ItemText('i', 1, " 5") == "i1= 5"
    ensures ReadReply(slots, PrintReply(["i1= 5"])) == Done(slots)
  {
    hide PrintNat, Split, ReadInt32, Line, ReadItems, ParseItem, ReadReply, PrintReply;
    SmallNumbers();
    ShortWords();
    TwoWords("i1=", "5");
    assert "i1= 5" == "i1=" + " " + "5";
    OneItemReply(slots, "i1= 5", ["i1=", "5"]);
    ReadsTwo(slots, "i1=", "5");
  }

  lemma LineOfTwo(a: string, b: string)
    ensures Line([a, b]) == a + (" " + (b + "\n"))
  {
    assert [a, b][1..] == [b];
  }

  lemma TwoWords(a: string, b: string)
    requires IsWord(a) && IsWord(b)
    ensures Words(a + " " + b) == [a, b]
  {
    hide Split;
    WordsSplit(a, " " + b);
    assert a + " " + b == a + (" " + b) && (" " + b)[1..] == b;
    WordAlone(a);
    WordAlone(b);
  }

  lemma OneItemReply(slots: Slots, item: string, words: seq<string>)
    requires Words(item) == words && |item| <= 100
    ensures var stored := ReadItems(slots, words);
            ReadReply(slots, PrintReply([item])) == if stored.all then Done(stored.slots) else Threw(stored.slots)
  {
    hide ReadItems, Split, ReadReply;
    ProjectOne(WordsOf(), item);
    LineOfTwo("OK", item);
    assert ["OK"] + [item] == ["OK", item];
    ReplyInWords(slots, [item]);
  }
}

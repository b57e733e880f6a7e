// A co-simulation step over the text hop: the proxy's value tables, the bridge's exchange with a
// backend, and what one step does on both sides.
module FmiBridge {
  import opened Common
  import opened DecimalText
  import opened FmiReply
  import opened FmiText

  // ---- The backend behind the bridge ------------------------------------------------------------------------

  datatype Call = Inject(component: string, port: string, value: Value, time: nat) | Step(component: string, current: nat, step: nat)

  /** Deterministic adapters: whether the last call of a log is accepted, and what its step reports. */
  datatype Adapters = Adapters(accepts: seq<Call> -> bool, answer: seq<Call> -> Option<Outputs>)

  function InjectCall(component: string, time: nat): Injection -> seq<Call>
  {
    (injection: Injection) => [Inject(component, injection.port, injection.value, time)]
  }

  /** The log after some assignments, and whether all of them went through. */
  datatype Progress = Progress(log: seq<Call>, ok: bool)

  function InjectWord(env: Adapters, component: string, ports: seq<Port>, time: nat, log: seq<Call>, word: string): Progress
  {
    var read := ReadAssignment(ports, word);
    if !read.ok || read.done == [] then Progress(log, read.ok)
    else
      var log' := log + InjectCall(component, time)(read.done[0]);
      Progress(log', env.accepts(log'))
  }

  function InjectWords(env: Adapters, component: string, ports: seq<Port>, time: nat, log: seq<Call>, words: seq<string>): Progress
  {
    if words == [] then Progress(log, true)
    else
      var before := InjectWords(env, component, ports, time, log, words[..|words| - 1]);
      if !before.ok then before else InjectWord(env, component, ports, time, before.log, words[|words| - 1])
  }

  /** One exchange: the calls it makes, and the items it reports; None stands for the raised error. */
  ghost function Exchange(env: Adapters, components: map<string, seq<Port>>, log: seq<Call>, line: string): (seq<Call>, Option<seq<string>>)
  {
    match ReadRequest(components.Keys, line)
    case None => (log, None)
    case Some(request) =>
      if request.component !in components then (log, None)
      else
        var ports := components[request.component];
        var injected := InjectWords(env, request.component, ports, request.currentUs, log, request.words);
        if !injected.ok then (injected.log, None)
        else
          var log' := injected.log + [Step(request.component, request.currentUs, request.stepUs)];
          match env.answer(log')
          case None => (log', None)
          case Some(outputs) => (log', Items(ports, outputs))
  }

  /** What is written back: the reply line, or an error line. */
  function Response(items: Option<seq<string>>, message: string): string
  {
    match items
    case None => "ERROR " + message + "\n"
    case Some(values) => PrintReply(values)
  }

  // ---- The bridge ------------------------------------------------------------------------------------------------

  class BridgeServer {
    const components: map<string, seq<Port>>
    const env: Adapters
    var log: seq<Call>

    constructor (components: map<string, seq<Port>>, env: Adapters)
      ensures this.components == components && this.env == env && log == []
    {
      this.components := components;
      this.env := env;
      log := [];
    }

    /** Injects the assignments of a request in order, up to the first that fails. */
    method InjectAll(component: string, ports: seq<Port>, time: nat, words: seq<string>) returns (ok: bool)
      modifies this
      ensures Progress(log, ok) == InjectWords(env, component, ports, time, old(log), words)
    {
      hide ReadAssignment;
      ok := true;
      var k := 0;
      while k < |words| && ok
        invariant k <= |words|
        invariant Progress(log, ok) == InjectWords(env, component, ports, time, old(log), words[..k])
      {
        var read := ReadAssignment(ports, words[k]);
        assert words[..k + 1][..k] == words[..k];
        if !read.ok {
          ok := false;
        } else if read.done != [] {
          log := log + [Inject(component, read.done[0].port, read.done[0].value, time)];
          ok := env.accepts(log);
        }
        k := k + 1;
      }
      if ok {
        assert words[..k] == words;
      } else {
        StopsThere(env, component, ports, time, old(log), words, k);
      }
    }

    /** The items of a reply, port by port. */
    method ReportOutputs(ports: seq<Port>, outputs: Outputs) returns (values: Option<seq<string>>)
      ensures values == Items(ports, outputs)
    {
      var items: seq<string> := [];
      var k := 0;
      while k < |ports|
        invariant k <= |ports|
        invariant Items(ports[..k], outputs) == Some(items)
      {
        var port := ports[k];
        assert ports[..k + 1][..k] == ports[..k];
        if Sends(port, outputs) {
          var printed := PortText(port, outputs[port.name]);
          if printed.None? {
            ItemsFailOn(ports, outputs, k + 1);
            return None;
          }
          items := items + [[printed.value.0] + PrintNat(k + 1) + "=" + printed.value.1];
        }
        k := k + 1;
      }
      assert ports[..k] == ports;
      values := Some(items);
    }

    /** The component of a request: its exact name, or else the only id that the instance name ends in. */
    method FindComponent(name: string) returns (component: Option<string>)
      ensures component == Resolve(components.Keys, name)
    {
      hide Qualifies;
      if name in components {
        return Some(name);
      }
      var matches: set<string> := {};
      var left := components.Keys;
      while left != {}
        invariant left <= components.Keys
        invariant matches == set id | id in components.Keys - left && Qualifies(name, id)
        decreases left
      {
        var id :| id in left;
        if Qualifies(name, id) {
          matches := matches + {id};
        }
        left := left - {id};
      }
      if |matches| != 1 {
        NoUniqueMatch(components.Keys, name, matches);
        return None;
      }
      var id :| id in matches;
      OneMatch(components.Keys, name, matches, id);
      component := Some(id);
    }

    /** The head of a request; None stands for the raised error. */
    method ParseRequest(line: string) returns (request: Option<Request>)
      ensures request == ReadRequest(components.Keys, line)
    {
      hide Split, ParseMicros, Resolve;
      var fields := Split(IsSpace, line);
      if |fields| < 4 || fields[0] != "STEP" {
        return None;
      }
      var component := FindComponent(fields[1]);
      var currentUs, stepUs := ParseMicros(fields[2]), ParseMicros(fields[3]);
      if component.None? || currentUs.None? || stepUs.None? {
        return None;
      }
      request := Some(FmiText.Request(component.value, currentUs.value, stepUs.value, fields[4..]));
    }

    /** One request line, answered with one line: what the exchange reports, or its error. */
    method Handle(line: string, message: string) returns (reply: string)
      modifies this
      ensures log == Exchange(env, components, old(log), line).0
      ensures reply == Response(Exchange(env, components, old(log), line).1, message)
    {
      hide ReadRequest, InjectWords, Items, PrintReply;
      reply := Response(None, message);
      var request := ParseRequest(line);
      if request.Some? && request.value.component in components {
        var ports := components[request.value.component];
        var ok := InjectAll(request.value.component, ports, request.value.currentUs, request.value.words);
        if ok {
          log := log + [Step(request.value.component, request.value.currentUs, request.value.stepUs)];
          var outputs := env.answer(log);
          if outputs.Some? {
            var values := ReportOutputs(ports, outputs.value);
            reply := Response(values, message);
          }
        }
      }
    }
  }

  ghost predicate IsMatches(ids: set<string>, name: string, matches: set<string>)
  {
    matches == set id | id in ids && Qualifies(name, id)
  }

  lemma OneMatch(ids: set<string>, name: string, matches: set<string>, id: string)
    requires IsMatches(ids, name, matches) && |matches| == 1 && id in matches && name !in ids
    ensures Resolve(ids, name) == Some(id)
  {
    hide Qualifies;
    assert |matches - {id}| == 0;
    assert matches == {id};
    forall other | other in ids && Qualifies(name, other)
      ensures other == id
    {
      assert other in matches;
    }
  }

  lemma UniqueMatch(ids: set<string>, name: string, matches: set<string>, id: string)
    requires IsMatches(ids, name, matches)
    requires id in ids && Qualifies(name, id) && forall other <- ids :: Qualifies(name, other) ==> other == id
    ensures |matches| == 1
  {
    hide Qualifies;
    assert matches == {id};
  }

  lemma NoUniqueMatch(ids: set<string>, name: string, matches: set<string>)
    requires IsMatches(ids, name, matches) && |matches| != 1 && name !in ids
    ensures Resolve(ids, name) == None
  {
    hide Qualifies;
    if id :| id in ids && Qualifies(name, id) && forall other <- ids :: Qualifies(name, other) ==> other == id {
      UniqueMatch(ids, name, matches, id);
    }
  }

  lemma {:induction false} StopsThere(env: Adapters, component: string, ports: seq<Port>, time: nat, log: seq<Call>, words: seq<string>, k: nat)
    requires k <= |words| && !InjectWords(env, component, ports, time, log, words[..k]).ok
    ensures InjectWords(env, component, ports, time, log, words) == InjectWords(env, component, ports, time, log, words[..k])
  {
    hide InjectWord;
    if k == |words| {
      assert words[..k] == words;
    } else {
      var front := words[..|words| - 1];
      assert front[..k] == words[..k];
      StopsThere(env, component, ports, time, log, front, k);
    }
  }

  lemma {:induction false} ItemsFailOn(ports: seq<Port>, outputs: Outputs, k: nat)
    requires k <= |ports| && Items(ports[..k], outputs) == None
    ensures Items(ports, outputs) == None
  {
    hide PortText, PrintNat, Sends;
    if k == |ports| {
      assert ports[..k] == ports;
    } else {
      assert ports[..|ports| - 1][..k] == ports[..k];
      ItemsFailOn(ports[..|ports| - 1], outputs, k);
    }
  }

  // ---- The proxy -----------------------------------------------------------------------------------------------------

  /** The entries below every key that is still to be printed. */
  ghost predicate Lowest<V>(m: map<nat, V>, left: set<nat>)
  {
    left <= m.Keys && forall k <- m.Keys - left, j <- left :: k < j
  }

  lemma NextEntry<V>(m: map<nat, V>, left: set<nat>, k: nat, make: (nat, V) -> Assigned)
    requires Lowest(m, left) && k in left && forall j <- left :: k <= j
    ensures Lowest(m, left - {k})
    ensures Entries(m - (left - {k}), make) == Entries(m - left, make) + [make(k, m[k])]
  {
    var done := m - (left - {k});
    forall j | j in done
      ensures j <= k
    {
      assert j == k || j in m.Keys - left;
    }
    assert k in done;
    assert IsMax(done.Keys, k) && IsMax(done.Keys, Max(done.Keys));
    assert Max(done.Keys) == k;
    assert done - {k} == m - left;
  }

  lemma SmallestExists(left: set<nat>)
    requires left != {}
    ensures exists k :: k in left && forall j <- left :: k <= j
  {
    var below := (a: nat, b: nat) => a < b;
    FirstExists(left, below);
    var k :| IsFirst(left, below, k);
    assert k in left && forall j <- left :: k <= j;
  }

  /** An ordered map's entries, printed in ascending order. */
  method PrintEntries<V>(m: map<nat, V>, make: (nat, V) -> Assigned) returns (words: seq<string>)
    ensures words == Texts(Entries(m, make))
  {
    hide Entries, AssignedText;
    var left := m.Keys;
    words := [];
    NoEntries(m, make);
    while left != {}
      invariant Lowest(m, left) && words == Texts(Entries(m - left, make))
      decreases left
    {
      SmallestExists(left);
      var k :| k in left && forall j <- left :: k <= j;
      NextEntry(m, left, k, make);
      words := words + [AssignedText(make(k, m[k]))];
      left := left - {k};
    }
    assert m - left == m;
  }

  lemma NoEntries<V>(m: map<nat, V>, make: (nat, V) -> Assigned)
    ensures Entries(m - m.Keys, make) == []
  {
    assert m - m.Keys == map[];
  }

  /** The table after one write after the other. */
  function Written<V>(values: map<nat, V>, vr: seq<nat>, input: seq<V>): map<nat, V>
    requires |vr| == |input|
  {
    if vr == [] then values
    else
      var n := |vr| - 1;
      Written(values, vr[..n], input[..n])[vr[n] := input[n]]
  }

  method SetValues<V>(values: map<nat, V>, vr: seq<nat>, input: seq<V>) returns (r: map<nat, V>)
    requires |vr| == |input|
    ensures r == Written(values, vr, input)
  {
    r := values;
    var index := 0;
    while index < |vr|
      invariant index <= |vr| && r == Written(values, vr[..index], input[..index])
    {
      r := r[vr[index] := input[index]];
      assert vr[..index + 1][..index] == vr[..index] && input[..index + 1][..index] == input[..index];
      index := index + 1;
    }
    assert vr[..index] == vr && input[..index] == input;
  }

  /** References outside the list keep their value, and of several writes to one the last counts. */
  lemma {:induction false} LastWriteCounts<V>(values: map<nat, V>, vr: seq<nat>, input: seq<V>, k: nat)
    requires |vr| == |input|
    ensures k !in vr ==> (k in Written(values, vr, input) <==> k in values)
    ensures k !in vr && k in values ==> Written(values, vr, input)[k] == values[k]
    ensures k in vr ==> k in Written(values, vr, input)
    ensures forall i :: 0 <= i < |vr| && vr[i] == k && k !in vr[i + 1..] ==> Written(values, vr, input)[k] == input[i]
  {
    if vr == [] {
    } else {
      var n := |vr| - 1;
      var front := vr[..n];
      LastWriteCounts(values, front, input[..n], k);
      assert vr == front + [vr[n]];
      forall i | 0 <= i < |vr| && vr[i] == k && k !in vr[i + 1..]
        ensures Written(values, vr, input)[k] == input[i]
      {
        if i < n {
          assert vr[i + 1..] == front[i + 1..] + [vr[n]];
        }
      }
    }
  }

  /** Fills the caller's array: the value of each reference, or the default where there is none. */
  method GetValues<V>(values: map<nat, V>, vr: seq<nat>, output: array<V>, default: V)
    requires |vr| <= output.Length
    modifies output
    ensures forall i :: 0 <= i < |vr| ==> output[i] == if vr[i] in values then values[vr[i]] else default
    ensures forall i :: |vr| <= i < output.Length ==> output[i] == old(output[i])
  {
    var index := 0;
    while index < |vr|
      invariant index <= |vr|
      invariant forall i :: 0 <= i < index ==> output[i] == if vr[i] in values then values[vr[i]] else default
      invariant forall i :: index <= i < output.Length ==> output[i] == old(output[i])
    {
      output[index] := if vr[index] in values then values[vr[index]] else default;
      index := index + 1;
    }
  }

  class Proxy {
    const instanceName: string
    var time: nat
    var reals: map<nat, string>
    var integers: map<nat, int>
    var booleans: map<nat, int>

    constructor (instanceName: string)
      ensures this.instanceName == instanceName && time == 0 && Held() == Slots(map[], map[], map[])
    {
      this.instanceName := instanceName;
      time := 0;
      reals, integers, booleans := map[], map[], map[];
    }

    function Held(): Slots
      reads this
    {
      Slots(reals, integers, booleans)
    }

    /** The step request: every value the instance holds, map by map in ascending order. */
    method Request(current: nat, step: nat) returns (payload: string)
      ensures payload == PrintRequest(instanceName, current, step, Held())
    {
      hide PrintSeconds, Line, AssignedText, Entries;
      var r := PrintEntries(reals, MakeReal());
      var i := PrintEntries(integers, MakeInt());
      var b := PrintEntries(booleans, MakeBool());
      assert r + i + b == Texts(AssignedList(Held()));
      payload := Line(["STEP", instanceName, PrintSeconds(current), PrintSeconds(step)] + (r + i + b));
    }

    /** Stores one item of a reply. */
    method Store(item: string) returns (ok: bool)
      modifies `reals, `integers, `booleans
      ensures match ReadItem(old(Held()), item)
              case None => !ok && Held() == old(Held())
              case Some(after) => ok && Held() == after
    {
      hide ReadReference, ReadInt32, ReadsAsReal;
      if |item| < 4 || (item[0] != 'r' && item[0] != 'i' && item[0] != 'b') {
        return true;
      }
      var delimiter := IndexOf(item, '=');
      if delimiter == |item| {
        return true;
      }
      var reference := ReadReference(item[1..delimiter]);
      var text := item[delimiter + 1..];
      if reference.None? {
        return false;
      }
      if item[0] == 'r' {
        if !ReadsAsReal(text) {
          return false;
        }
        reals := reals[reference.value := text];
      } else {
        var n := ReadInt32(text);
        if n.None? {
          return false;
        }
        if item[0] == 'i' {
          integers := integers[reference.value := n.value];
        } else {
          booleans := booleans[reference.value := n.value];
        }
      }
      ok := true;
    }

    /** Reads a reply; what was stored before an item that cannot be read stays stored. */
    method TakeReply(reply: string) returns (outcome: Exchanged)
      modifies `reals, `integers, `booleans
      ensures outcome == ReadReply(old(Held()), reply)
      ensures Held() == if outcome.Refused? then old(Held()) else outcome.slots
    {
      hide ReadItem;
      var words := Split(IsBlank, Received(reply));
      if words == [] || words[0] != "OK" {
        return Refused;
      }
      var items := words[1..];
      var k := 0;
      while k < |items|
        invariant k <= |items|
        invariant ReadItems(old(Held()), items[..k]) == Stored(Held(), true)
      {
        assert items[..k + 1][..k] == items[..k];
        var ok := Store(items[k]);
        if !ok {
          StoresUpTo(old(Held()), items, k + 1);
          return Threw(Held());
        }
        k := k + 1;
      }
      assert items[..k] == items;
      outcome := Done(Held());
    }

    /** One co-simulation step; the time only advances when the exchange succeeds. */
    method DoStep(bridge: BridgeServer, current: nat, step: nat, message: string) returns (outcome: Exchanged)
      modifies this, bridge
      ensures step == 0 ==> outcome.Refused? && bridge.log == old(bridge.log)
      ensures step > 0 ==>
                (bridge.log, outcome) == Hop(bridge.env, bridge.components, instanceName, old(Held()), old(bridge.log), current, step, message)
      ensures Held() == if outcome.Refused? then old(Held()) else outcome.slots
      ensures time == if outcome.Done? then current + step else old(time)
    {
      hide PrintRequest, ReadRequest, Exchange, Response, ReadReply;
      if step == 0 {
        return Refused;
      }
      var payload := Request(current, step);
      var reply := bridge.Handle(payload, message);
      outcome := TakeReply(reply);
      if outcome.Done? {
        time := current + step;
      }
    }

    /** Forgets every value and goes back to the start. */
    method Reset()
      modifies this
      ensures time == 0 && Held() == Slots(map[], map[], map[])
    {
      time := 0;
      reals, integers, booleans := map[], map[], map[];
    }
  }

  lemma {:induction false} StoresUpTo(slots: Slots, items: seq<string>, k: nat)
    requires k <= |items| && !ReadItems(slots, items[..k]).all
    ensures ReadItems(slots, items) == ReadItems(slots, items[..k])
  {
    hide ReadItem;
    if k == |items| {
      assert items[..k] == items;
    } else {
      assert items[..|items| - 1][..k] == items[..k];
      StoresUpTo(slots, items[..|items| - 1], k);
    }
  }

  // ---- One step over the hop ------------------------------------------------------------------------------------------

  /** The calls a step makes on the backend, and how the exchange ends for the proxy. */
  ghost function Hop(env: Adapters, components: map<string, seq<Port>>, name: string, slots: Slots, log: seq<Call>,
                     current: nat, step: nat, message: string): (seq<Call>, Exchanged)
  {
    var (log', items) := Exchange(env, components, log, PrintRequest(name, current, step, slots));
    (log', ReadReply(slots, Response(items, message)))
  }

  // ---- The lines as they are ---------------------------------------------------------------------------------------

  lemma OneEntry<V>(k: nat, v: V, make: (nat, V) -> Assigned)
    ensures Entries(map[k := v], make) == [make(k, v)]
  {
    var m := map[k := v];
    assert k in m.Keys;
    assert Max(m.Keys) == k;
    assert m - {k} == map[];
  }

  lemma MillisecondIsPrinted()
    ensures PrintSeconds(0) == "0" && PrintSeconds(1_000) == "0.001"
  {
    assert Pow10(0) == 1;
    assert Strip(1_000, 0) == Strip(100, 1) == Strip(10, 2) == Strip(1, 3) == (1, 3);
    assert PrintNat(1) == "1";
    assert Zeros(2) == "00" by {
      assert Zeros(0) == [] && Zeros(1) == "0";
    }
  }

  lemma DigitsPrinted()
    ensures PrintNat(1) == "1" && PrintNat(2) == "2" && PrintNat(3) == "3" && PrintNat(7) == "7" && PrintNat(42) == "42"
  {
    assert PrintNat(4) == "4";
  }

  lemma ThreeWords(words: seq<string>)
    requires |words| > 3
    ensures Line(words) == words[0] + (" " + (words[1] + (" " + (words[2] + (" " + Line(words[3..]))))))
  {
    hide Line;
    NextWord(words, words[1..]);
    NextWord(words[1..], words[2..]);
    NextWord(words[2..], words[3..]);
  }

  lemma NextWord(words: seq<string>, rest: seq<string>)
    requires |words| > 1 && rest == words[1..]
    ensures Line(words) == words[0] + (" " + Line(rest))
  {
  }

  lemma LastWord(word: string)
    ensures Line([word]) == word + "\n"
  {
  }

  lemma TextIs(a: Assigned, s: string)
    requires match a
             case RealOf(k, text) => s == ['r'] + PrintNat(k) + "=" + text
             case IntOf(k, n) => s == ['i'] + PrintNat(k) + "=" + PrintInt(n)
             case BoolOf(k, n) => s == ['b'] + PrintNat(k) + "=" + PrintInt(n)
    ensures AssignedText(a) == s
  {
    hide PrintNat, PrintInt;
  }

  lemma TextsOfEach()
    ensures Texts(AssignedList(Slots(map[1 := "0.5"], map[2 := -7], map[3 := 1]))) == ["r1=0.5", "i2=-7", "b3=1"]
  {
    hide PrintNat, Entries, AssignedText;
    DigitsPrinted();
    OneEntry(1, "0.5", MakeReal());
    OneEntry(2, -7, MakeInt());
    OneEntry(3, 1, MakeBool());
    TextIs(RealOf(1, "0.5"), "r1=0.5");
    TextIs(IntOf(2, -7), "i2=-7");
    TextIs(BoolOf(3, 1), "b3=1");
  }

  lemma EmptyEntries<V>(make: (nat, V) -> Assigned)
    ensures Entries(map[], make) == []
  {
  }

  lemma LineOfFive(words: seq<string>)
    requires words == ["STEP", "mcu", "0", "0.001", "i2=-7"]
    ensures Line(words) == "STEP mcu 0 0.001 i2=-7\n"
  {
    hide Line;
    ThreeWords(words);
    NextWord(words[3..], ["i2=-7"]);
    LastWord("i2=-7");
  }

  /** One request, as the proxy writes it; a value of each kind is spelled as in TextsOfEach. */
  lemma RequestFormat()
    ensures PrintRequest("mcu", 0, 1_000, Slots(map[], map[2 := -7], map[])) == "STEP mcu 0 0.001 i2=-7\n"
  {
    hide PrintSeconds, Line, PrintNat, Entries, AssignedText;
    MillisecondIsPrinted();
    DigitsPrinted();
    EmptyEntries(MakeReal());
    EmptyEntries(MakeBool());
    OneEntry(2, -7, MakeInt());
    TextIs(IntOf(2, -7), "i2=-7");
    var slots := Slots(map[], map[2 := -7], map[]);
    assert AssignedList(slots) == [IntOf(2, -7)];
    assert Texts([IntOf(2, -7)]) == ["i2=-7"];
    LineOfFive(RequestWords("mcu", 0, 1_000, slots));
  }

  lemma OneMoreItem(ports: seq<Port>, port: Port, outputs: Outputs, before: seq<string>, letter: char, reference: string, text: string)
    requires Items(ports, outputs) == Some(before) && Sends(port, outputs) && PrintNat(|ports| + 1) == reference
    requires PortText(port, outputs[port.name]) == Some((letter, text))
    ensures Items(ports + [port], outputs) == Some(before + [[letter] + reference + "=" + text])
  {
    hide PrintNat, Sends, PortText;
    assert (ports + [port])[..|ports|] == ports;
  }

  /** And as the bridge answers. */
  lemma ReplyFormat()
    ensures var ports := [Port("volts", Output, RealType), Port("count", Bidirectional, IntegerType), Port("ready", Output, BooleanType)];
            var items := Items(ports, map["volts" := RealNumber("0.5", false), "count" := Integer(42), "ready" := Flag(true)]);
            items.Some? && PrintReply(items.value) == "OK r1=0.5 i2=42 b3=1\n"
  {
    hide PrintNat;
    DigitsPrinted();
    var ports := [Port("volts", Output, RealType), Port("count", Bidirectional, IntegerType), Port("ready", Output, BooleanType)];
    var outputs := map["volts" := RealNumber("0.5", false), "count" := Integer(42), "ready" := Flag(true)];
    assert Items([], outputs) == Some([]);
    assert ['r'] + "1" + "=" + "0.5" == "r1=0.5" && ['i'] + "2" + "=" + "42" == "i2=42" && ['b'] + "3" + "=" + "1" == "b3=1";
    assert [] + [ports[0]] == [ports[0]] && [ports[0]] + [ports[1]] == [ports[0], ports[1]] && [ports[0], ports[1]] + [ports[2]] == ports;
    assert [] + ["r1=0.5"] == ["r1=0.5"] && ["r1=0.5"] + ["i2=42"] == ["r1=0.5", "i2=42"];
    assert ["r1=0.5", "i2=42"] + ["b3=1"] == ["r1=0.5", "i2=42", "b3=1"];
    OneMoreItem([], ports[0], outputs, [], 'r', "1", "0.5");
    OneMoreItem([ports[0]], ports[1], outputs, ["r1=0.5"], 'i', "2", "42");
    OneMoreItem([ports[0], ports[1]], ports[2], outputs, ["r1=0.5", "i2=42"], 'b', "3", "1");
    LineOfFour(["OK"] + ["r1=0.5", "i2=42", "b3=1"]);
  }

  lemma LineOfFour(words: seq<string>)
    requires words == ["OK", "r1=0.5", "i2=42", "b3=1"]
    ensures Line(words) == "OK r1=0.5 i2=42 b3=1\n"
  {
    hide Line;
    ThreeWords(words);
    LastWord("b3=1");
    assert words[3..] == ["b3=1"];
  }

  // ---- Any exchange, with any backend ----------------------------------------------------------------------------------

  /** The first m of some calls were made after a log, and all but the last of them were accepted. */
  ghost predicate MadeUpTo(env: Adapters, log: seq<Call>, calls: seq<Call>, m: nat)
  {
    m <= |calls| && forall i :: 1 <= i < m ==> env.accepts(log + calls[..i])
  }

  /** The last of the m calls was accepted, if there was one. */
  ghost predicate LastAccepted(env: Adapters, log: seq<Call>, calls: seq<Call>, m: nat)
  {
    m <= |calls| && (m > 0 ==> env.accepts(log + calls[..m]))
  }

  function InjectCalls(component: string, time: nat, injections: seq<Injection>): (calls: seq<Call>)
    ensures |calls| == |injections|
    ensures forall i :: 0 <= i < |calls| ==> calls[i] == Inject(component, injections[i].port, injections[i].value, time)
  {
    seq(|injections|, i requires 0 <= i < |injections| => Inject(component, injections[i].port, injections[i].value, time))
  }

  /** How far an exchange got: m of the calls that its readable assignments ask for, and why no further. */
  ghost predicate WentUpTo(env: Adapters, log: seq<Call>, calls: seq<Call>, readable: bool, p: Progress, m: nat)
  {
    && MadeUpTo(env, log, calls, m) && p.log == log + calls[..m]
    && (p.ok <==> m == |calls| && readable && LastAccepted(env, log, calls, m))
    && (!p.ok ==> !LastAccepted(env, log, calls, m) || (m == |calls| && !readable))
  }

  lemma WentOn(env: Adapters, log: seq<Call>, calls: seq<Call>, p: Progress, m: nat, call: Call)
    requires WentUpTo(env, log, calls, true, p, m) && p.ok
    ensures WentUpTo(env, log, calls + [call], true, Progress(p.log + [call], env.accepts(p.log + [call])), m + 1)
  {
    var all := calls + [call];
    assert forall i :: 0 <= i <= m ==> all[..i] == calls[..i];
    assert calls[..m] == calls && all[..m + 1] == all;
    assert log + all == p.log + [call];
  }

  lemma WasRejected(env: Adapters, log: seq<Call>, calls: seq<Call>, more: seq<Call>, readable: bool, p: Progress, m: nat)
    requires WentUpTo(env, log, calls, true, p, m) && !p.ok
    ensures WentUpTo(env, log, calls + more, readable, p, m)
  {
    var all := calls + more;
    assert forall i :: 0 <= i <= m ==> all[..i] == calls[..i];
  }

  lemma CallsConcat(component: string, time: nat, a: seq<Injection>, b: seq<Injection>)
    ensures InjectCalls(component, time, a + b) == InjectCalls(component, time, a) + InjectCalls(component, time, b)
  {
  }

  /** Assignments are injected in order until one cannot be read or an injection is rejected. */
  lemma {:induction false} InjectedUpTo(env: Adapters, component: string, ports: seq<Port>, time: nat, log: seq<Call>, words: seq<string>) returns (m: nat)
    ensures var read := ReadAssignments(ports, words);
            WentUpTo(env, log, InjectCalls(component, time, read.done), read.ok, InjectWords(env, component, ports, time, log, words), m)
  {
    if words == [] {
      m := 0;
      assert log + [] == log;
    } else {
      var front, word := words[..|words| - 1], words[|words| - 1];
      m := InjectedUpTo(env, component, ports, time, log, front);
      var before, last := ReadAssignments(ports, front), ReadAssignment(ports, word);
      var calls, p := InjectCalls(component, time, before.done), InjectWords(env, component, ports, time, log, front);
      AtMostOne(ports, word);
      CallsConcat(component, time, before.done, last.done);
      if !before.ok {
        NotReadable(env, log, calls, p, m);
      } else if !p.ok {
        hide WentUpTo, ReadAssignment, InjectWord;
        WasRejected(env, log, calls, InjectCalls(component, time, last.done), last.ok, p, m);
      } else if last.done != [] {
        hide WentUpTo, ReadAssignment;
        assert InjectCalls(component, time, last.done) == InjectCall(component, time)(last.done[0]);
        WentOn(env, log, calls, p, m, InjectCall(component, time)(last.done[0])[0]);
        m := m + 1;
      } else {
        hide ReadAssignment, MadeUpTo, LastAccepted;
        assert before.done + last.done == before.done;
      }
    }
  }

  lemma NotReadable(env: Adapters, log: seq<Call>, calls: seq<Call>, p: Progress, m: nat)
    requires WentUpTo(env, log, calls, false, p, m)
    ensures !p.ok
  {
  }

  /**
    Any request, with any backend: a request that cannot be read calls nothing. Otherwise the readable
    assignments are injected in order up to the first rejection; the step is called once, last, if and
    only if every assignment could be read and every injection was accepted, and only then is there
    anything to report, which is what the backend answered.
   */
  lemma ExchangeExactly(env: Adapters, components: map<string, seq<Port>>, log: seq<Call>, line: string)
    ensures var (log', items) := Exchange(env, components, log, line);
            match ReadRequest(components.Keys, line)
            case None => log' == log && items == None
            case Some(r) =>
              && r.component in components
              && var read := ReadAssignments(components[r.component], r.words);
                 var calls := InjectCalls(r.component, r.currentUs, read.done);
                 if read.ok && forall i :: 1 <= i <= |calls| ==> env.accepts(log + calls[..i]) then
                   && log' == log + calls + [Step(r.component, r.currentUs, r.stepUs)]
                   && items == match env.answer(log')
                               case None => None
                               case Some(outputs) => Items(components[r.component], outputs)
                 else
                   && items == None
                   && exists m: nat :: MadeUpTo(env, log, calls, m) && log' == log + calls[..m]
                                       && (LastAccepted(env, log, calls, m) ==> m == |calls| && !read.ok)
  {
    hide Split, ParseMicros, ReadAssignments, InjectWords, InjectCalls, Items;
    match ReadRequest(components.Keys, line)
    case None =>
    case Some(r) =>
      var m := InjectedUpTo(env, r.component, components[r.component], r.currentUs, log, r.words);
      var calls := InjectCalls(r.component, r.currentUs, ReadAssignments(components[r.component], r.words).done);
      assert calls[..|calls|] == calls;
  }

  /** Backends that take every injection and answer every step with outputs of the right types. */
  ghost predicate GoodBackend(env: Adapters, ports: seq<Port>)
  {
    && (forall log :: env.accepts(log))
    && (forall log :: GoodAnswer(ports, env.answer(log)))
  }

  ghost predicate GoodAnswer(ports: seq<Port>, answer: Option<Outputs>)
  {
    && answer.Some? && AllWellTyped(ports, answer.value)
    && (Items(ports, answer.value).Some? ==> |PrintReply(Items(ports, answer.value).value)| <= 8191)
  }

  lemma {:induction false} AllInjected(env: Adapters, component: string, ports: seq<Port>, time: nat, log: seq<Call>, words: seq<string>)
    requires forall l :: env.accepts(l)
    ensures var read := ReadAssignments(ports, words);
            InjectWords(env, component, ports, time, log, words) ==
            Progress(log + Project(InjectCall(component, time), read.done), read.ok)
  {
    hide ReadAssignment;
    var f := InjectCall(component, time);
    if words == [] {
      assert log + [] == log;
    } else {
      var front := words[..|words| - 1];
      AllInjected(env, component, ports, time, log, front);
      var before := ReadAssignments(ports, front);
      if before.ok {
        var last := ReadAssignment(ports, words[|words| - 1]);
        AtMostOne(ports, words[|words| - 1]);
        ProjectConcat(f, before.done, last.done);
        if last.done != [] {
          ProjectOne(f, last.done[0]);
        } else {
          assert before.done + [] == before.done;
        }
      }
    }
  }

  lemma AtMostOne(ports: seq<Port>, word: string)
    ensures var r := ReadAssignment(ports, word); (r.done == [] || r.done == [r.done[0]]) && (!r.ok ==> r.done == [])
  {
  }

  /**
    The calls of a step: what is held for the input and bidirectional ports at the current time, each
    value once and in order, and then one step, with both times as far as six digits carry them.
   */
  ghost predicate StepCalls(calls: seq<Call>, component: string, slots: Slots, ports: seq<Port>, current: nat, step: nat)
  {
    exists now: nat, length: nat, injections: seq<Injection> ::
      && SixDigits(current, now) && SixDigits(step, length) && InjectsHeld(injections, slots, ports)
      && |calls| == |injections| + 1
      && (forall i :: 0 <= i < |injections| ==> calls[i] == Inject(component, injections[i].port, injections[i].value, now))
      && calls[|injections|] == Step(component, now, length)
  }

  lemma {:induction false} CallsAre(component: string, now: nat, injections: seq<Injection>)
    ensures var calls := Project(InjectCall(component, now), injections);
            && |calls| == |injections|
            && forall i :: 0 <= i < |injections| ==> calls[i] == Inject(component, injections[i].port, injections[i].value, now)
  {
    if injections == [] {
    } else {
      CallsAre(component, now, injections[..|injections| - 1]);
    }
  }

  lemma StepCallsAre(component: string, slots: Slots, ports: seq<Port>, current: nat, step: nat, now: nat, length: nat, injections: seq<Injection>)
    requires SixDigits(current, now) && SixDigits(step, length) && InjectsHeld(injections, slots, ports)
    ensures StepCalls(Project(InjectCall(component, now), injections) + [Step(component, now, length)], component, slots, ports, current, step)
  {
    hide SixDigits, InjectsHeld, Project;
    CallsAre(component, now, injections);
  }

  lemma RealTextsKept(before: Slots, after: Slots, ports: seq<Port>, outputs: Outputs)
    requires RealTexts(before) && Delivered(before, after, ports, outputs) && AllWellTyped(ports, outputs)
    ensures RealTexts(after)
  {
    hide IsToken, ReadsAsReal, Truthy, DeliveredIntegers, DeliveredBooleans, PrintInt;
    forall k | k in after.reals
      ensures IsToken(after.reals[k])
    {
      if SentAs(ports, outputs, k, RealType) {
        var v := SentValue(ports, outputs, k);
        assert WellTyped(ports[k - 1], v);
        if v.Integer? {
          IntIsToken(v.number);
        }
      }
    }
  }

  /**
    One step over the hop with a well-behaved backend: the component the instance is named after gets
    exactly the values of its input ports and then one step, and every output it reports comes back
    under its own reference with everything else unchanged; so the next step starts the same way.
   */
  lemma StepOverTheHop(env: Adapters, components: map<string, seq<Port>>, name: string, slots: Slots, log: seq<Call>,
                       current: nat, step: nat, message: string, component: string)
    requires IsToken(name) && RealTexts(slots) && Resolve(components.Keys, name) == Some(component) && component in components
    requires GoodBackend(env, components[component]) && |components[component]| < WORD
    ensures var ports := components[component];
            var (log', outcome) := Hop(env, components, name, slots, log, current, step, message);
            && log <= log'
            && StepCalls(log'[|log|..], component, slots, ports, current, step)
            && env.answer(log').Some? && outcome.Done?
            && Delivered(slots, outcome.slots, ports, env.answer(log').value) && Arrived(slots, outcome.slots, ports, env.answer(log').value)
            && RealTexts(outcome.slots)
  {
    hide PrintRequest, ReadRequest, SixDigits, Delivered, ReadReply, InjectWords, Items, AllWellTyped, RealTexts, Resolve, Project,
      AssignedList, Arrives, IsToken, InjectsHeld, StepCalls, Arrived;
    var ports := components[component];
    RequestSurvives(components.Keys, name, current, step, slots, ports);
    var request := ReadRequest(components.Keys, PrintRequest(name, current, step, slots)).value;
    AllInjected(env, component, ports, request.currentUs, log, request.words);
    var calls := Project(InjectCall(component, request.currentUs), Project(Arrives(ports), AssignedList(slots)))
      + [Step(component, request.currentUs, request.stepUs)];
    var log' := Hop(env, components, name, slots, log, current, step, message).0;
    assert log' == log + calls;
    assert log'[|log|..] == calls;
    StepCallsAre(component, slots, ports, current, step, request.currentUs, request.stepUs, Project(Arrives(ports), AssignedList(slots)));
    var outputs := env.answer(log').value;
    assert GoodAnswer(ports, env.answer(log'));
    ReplySurvives(slots, ports, outputs);
    var outcome := ReadReply(slots, PrintReply(Items(ports, outputs).value));
    RealTextsKept(slots, outcome.slots, ports, outputs);
  }

  /** A request the bridge refuses, or a backend that fails, leaves the values of the instance alone. */
  lemma FailureKeepsValues(env: Adapters, components: map<string, seq<Port>>, name: string, slots: Slots, log: seq<Call>,
                           current: nat, step: nat, message: string)
    requires Exchange(env, components, log, PrintRequest(name, current, step, slots)).1.None?
    ensures Hop(env, components, name, slots, log, current, step, message).1 == Refused
  {
    hide ReadReply, Exchange;
    assert "ERROR " + message + "\n" == "ERROR " + (message + "\n");
    ErrorsAreRefused(slots, message + "\n");
  }

  // ---- A run over the hop ---------------------------------------------------------------------------------------------

  /** What a master does between two communication points: it sets values, and asks for a step. */
  datatype Round = Round(realRefs: seq<nat>, reals: seq<string>, integerRefs: seq<nat>, integers: seq<int>,
                         booleanRefs: seq<nat>, booleans: seq<int>, current: nat, step: nat)

  predicate ValidRound(r: Round)
  {
    && |r.realRefs| == |r.reals| && |r.integerRefs| == |r.integers| && |r.booleanRefs| == |r.booleans|
    && (forall i :: 0 <= i < |r.reals| ==> IsToken(r.reals[i])) && r.step > 0
  }

  function SetRound(slots: Slots, r: Round): Slots
    requires ValidRound(r)
  {
    Slots(Written(slots.reals, r.realRefs, r.reals), Written(slots.integers, r.integerRefs, r.integers),
          Written(slots.booleans, r.booleanRefs, r.booleans))
  }

  /** What the instance holds, and the calls on the backend, after n rounds from an empty instance. */
  ghost function AfterRounds(env: Adapters, components: map<string, seq<Port>>, name: string, rounds: seq<Round>, message: string, n: nat): (Slots, seq<Call>)
    requires n <= |rounds| && forall i :: 0 <= i < |rounds| ==> ValidRound(rounds[i])
  {
    if n == 0 then (Slots(map[], map[], map[]), [])
    else
      var (slots, log) := AfterRounds(env, components, name, rounds, message, n - 1);
      var r := rounds[n - 1];
      var held := SetRound(slots, r);
      var (log', outcome) := Hop(env, components, name, held, log, r.current, r.step, message);
      (if outcome.Refused? then held else outcome.slots, log')
  }

  lemma {:induction false} WrittenTokens(values: map<nat, string>, vr: seq<nat>, input: seq<string>)
    requires |vr| == |input| && (forall k <- values :: IsToken(values[k])) && forall i :: 0 <= i < |input| ==> IsToken(input[i])
    ensures forall k <- Written(values, vr, input) :: IsToken(Written(values, vr, input)[k])
  {
    hide IsToken;
    if vr == [] {
    } else {
      var n := |vr| - 1;
      assert forall i :: 0 <= i < n ==> input[..n][i] == input[i];
      WrittenTokens(values, vr[..n], input[..n]);
    }
  }

  lemma RoundKeepsTokens(slots: Slots, r: Round)
    requires ValidRound(r) && RealTexts(slots)
    ensures RealTexts(SetRound(slots, r))
  {
    WrittenTokens(slots.reals, r.realRefs, r.reals);
  }

  /** Everything that holds of one round, between what is held and called before it and after it. */
  ghost predicate RoundDone(env: Adapters, ports: seq<Port>, component: string, r: Round,
                            slots: Slots, log: seq<Call>, slots': Slots, log': seq<Call>)
    requires ValidRound(r)
  {
    && log <= log'
    && StepCalls(log'[|log|..], component, SetRound(slots, r), ports, r.current, r.step)
    && env.answer(log').Some? && Arrived(SetRound(slots, r), slots', ports, env.answer(log').value)
  }

  /**
    A whole run over the hop, of any number of rounds: in every round the backend gets what the input
    ports hold at that time and one step, and the instance gets every output of that step and keeps the
    rest of what it held and was set.
   */
  lemma {:induction false} RunOverTheHop(env: Adapters, components: map<string, seq<Port>>, name: string, rounds: seq<Round>,
                                         message: string, component: string, n: nat)
    requires n < |rounds| && forall i :: 0 <= i < |rounds| ==> ValidRound(rounds[i])
    requires IsToken(name) && Resolve(components.Keys, name) == Some(component) && component in components
    requires GoodBackend(env, components[component]) && |components[component]| < WORD
    ensures var (slots, log) := AfterRounds(env, components, name, rounds, message, n);
            var (slots', log') := AfterRounds(env, components, name, rounds, message, n + 1);
            RoundDone(env, components[component], component, rounds[n], slots, log, slots', log') && RealTexts(slots) && RealTexts(slots')
  {
    hide Hop, SetRound, StepCalls, Delivered, Arrived, RealTexts, GoodBackend, Resolve, Project, AssignedList, Arrives, IsToken;
    if n == 0 {
      NoReals();
    } else {
      RunOverTheHop(env, components, name, rounds, message, component, n - 1);
    }
    var (slots, log) := AfterRounds(env, components, name, rounds, message, n);
    var r := rounds[n];
    RoundKeepsTokens(slots, r);
    StepOverTheHop(env, components, name, SetRound(slots, r), log, r.current, r.step, message, component);
  }

  lemma NoReals()
    ensures RealTexts(Slots(map[], map[], map[]))
  {
  }
}

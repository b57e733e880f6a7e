// What the next step request injects after a reply: outputs are stored in the same tables as inputs,
// and everything in the tables is sent with every request. A real is held as the text it was read from;
// what a request prints for it is a function of that text, the proxy's own reading and printing.
module FmiEchoes {
  import opened Common
  import opened FmiReply
  import opened FmiText

  function PrintedReals(reals: map<nat, string>, toDigits: string -> string): map<nat, string>
  {
    map k <- reals :: toDigits(reals[k])
  }

  /** What an instance sends with its next request, and what that injects. */
  function Reprinted(slots: Slots, toDigits: string -> string): Slots
  {
    slots.(reals := PrintedReals(slots.reals, toDigits))
  }

  function NextInjections(slots: Slots, toDigits: string -> string, ports: seq<Port>): seq<Injection>
  {
    Project(Arrives(ports), AssignedList(Reprinted(slots, toDigits)))
  }

  /** The next request injects every value held for an input port, with its reals as printed, and nothing else. */
  lemma NextRequestInjects(slots: Slots, toDigits: string -> string, ports: seq<Port>)
    ensures InjectsHeld(NextInjections(slots, toDigits, ports), Reprinted(slots, toDigits), ports)
  {
    HeldInputsArrive(Reprinted(slots, toDigits), ports);
  }

  /** Outputs of pure output ports are sent back with the next request, and inject nothing there. */
  lemma OutputsEchoNothing(before: Slots, after: Slots, toDigits: string -> string, ports: seq<Port>, outputs: Outputs)
    requires Delivered(before, after, ports, outputs)
    requires forall i :: 0 <= i < |ports| && Sends(ports[i], outputs) ==> ports[i].direction == Output
    ensures NextInjections(after, toDigits, ports) == NextInjections(before, toDigits, ports)
  {
    hide Arrives, AssignedList, Project, Format, Truthy;
    forall k: nat, t: DataType | TakesInput(ports, k)
      ensures !SentAs(ports, outputs, k, t)
    {
    }
    assert InputsOnly(PrintedReals(after.reals, toDigits), ports) == InputsOnly(PrintedReals(before.reals, toDigits), ports);
    assert InputsOnly(after.integers, ports) == InputsOnly(before.integers, ports);
    assert InputsOnly(after.booleans, ports) == InputsOnly(before.booleans, ports);
    EchoesInjectNothing(Reprinted(after, toDigits), Reprinted(before, toDigits), ports);
  }

  /** What the reported value of a port injects when it is sent back. */
  function Returned(port: Port, v: OutputValue, toDigits: string -> string): Value
    requires WellTyped(port, v)
  {
    match port.dataType
    case RealType => Real(toDigits(Format(v)))
    case IntegerType => Int(v.number)
    case _ => Bool(Truthy(v))
  }

  lemma EntryArrives(slots: Slots, ports: seq<Port>, entry: Assigned, injection: Injection)
    requires entry in AssignedList(slots) && Arrives(ports)(entry) == [injection]
    ensures injection in Project(Arrives(ports), AssignedList(slots))
  {
    hide AssignedList, Arrives, Project;
    var i :| 0 <= i < |AssignedList(slots)| && AssignedList(slots)[i] == entry;
    ProjectMember(Arrives(ports), AssignedList(slots), i);
  }

  /** A bidirectional port is different: whatever its type, what it reported is injected into it by the next request. */
  lemma BidirectionalEchoes(before: Slots, after: Slots, toDigits: string -> string, ports: seq<Port>, outputs: Outputs, k: nat)
    requires Delivered(before, after, ports, outputs) && AllWellTyped(ports, outputs)
    requires Echoes(ports, outputs, k)
    ensures WellTyped(ports[k - 1], SentValue(ports, outputs, k))
    ensures Injection(ports[k - 1].name, Returned(ports[k - 1], SentValue(ports, outputs, k), toDigits)) in NextInjections(after, toDigits, ports)
  {
    hide Entries, Project, Format, Truthy, ReadsAsReal, IsToken;
    var v := SentValue(ports, outputs, k);
    var injection := Injection(ports[k - 1].name, Returned(ports[k - 1], v, toDigits));
    var sent := Reprinted(after, toDigits);
    match ports[k - 1].dataType
    case RealType =>
      assert SentAs(ports, outputs, k, RealType);
      EntryPresent(sent.reals, MakeReal(), k);
      EntryArrives(sent, ports, RealOf(k, sent.reals[k]), injection);
    case IntegerType =>
      assert SentAs(ports, outputs, k, IntegerType);
      EntryPresent(after.integers, MakeInt(), k);
      EntryArrives(sent, ports, IntOf(k, after.integers[k]), injection);
    case BooleanType =>
      assert SentAs(ports, outputs, k, BooleanType);
      EntryPresent(after.booleans, MakeBool(), k);
      EntryArrives(sent, ports, BoolOf(k, after.booleans[k]), injection);
  }

  // ---- When exactly a reply changes the next request --------------------------------------------------------------

  /** The table already held a value under the reference that injects the same as the reported one. */
  predicate AlreadyHeld(before: Slots, toDigits: string -> string, port: Port, v: OutputValue, k: nat)
  {
    match port.dataType
    case RealType => k in before.reals && toDigits(before.reals[k]) == toDigits(Format(v))
    case IntegerType => k in before.integers && v == Integer(before.integers[k])
    case BooleanType => k in before.booleans && (before.booleans[k] != 0) == Truthy(v)
    case _ => true
  }

  /** The port of reference k is bidirectional, and reported. */
  predicate Echoes(ports: seq<Port>, outputs: Outputs, k: nat)
  {
    1 <= k <= |ports| && Sends(ports[k - 1], outputs) && ports[k - 1].direction == Bidirectional
  }

  ghost predicate EveryEchoHeld(before: Slots, toDigits: string -> string, ports: seq<Port>, outputs: Outputs)
  {
    forall k: nat :: Echoes(ports, outputs, k) ==> AlreadyHeld(before, toDigits, ports[k - 1], SentValue(ports, outputs, k), k)
  }

  ghost predicate AllInputs<V>(m: map<nat, V>, ports: seq<Port>)
  {
    forall k <- m :: TakesInput(ports, k)
  }

  ghost predicate OwnReference<V(!new)>(make: (nat, V) -> Assigned)
  {
    forall k: nat, v :: make(k, v).reference == k
  }

  /** What the entries of one table inject. */
  function Sent<V>(m: map<nat, V>, make: (nat, V) -> Assigned, ports: seq<Port>): seq<Injection>
  {
    Project(Arrives(ports), Entries(m, make))
  }

  lemma SentGrows<V(!new)>(m: map<nat, V>, make: (nat, V) -> Assigned, ports: seq<Port>)
    requires m != map[] && AllInputs(m, ports) && OwnReference(make)
    ensures var k := Max(m.Keys);
            && Sent(m, make, ports) == Sent(m - {k}, make, ports) + Arrives(ports)(make(k, m[k]))
            && |Arrives(ports)(make(k, m[k]))| == 1 && AllInputs(m - {k}, ports)
  {
    var k := Max(m.Keys);
    ProjectConcat(Arrives(ports), Entries(m - {k}, make), [make(k, m[k])]);
    ProjectOne(Arrives(ports), make(k, m[k]));
    assert TakesInput(ports, k);
  }

  lemma {:induction false} SentOneEach<V(!new)>(m: map<nat, V>, make: (nat, V) -> Assigned, ports: seq<Port>)
    requires AllInputs(m, ports) && OwnReference(make)
    ensures |Sent(m, make, ports)| == |m|
    decreases |m|
  {
    hide Arrives, Max, AllInputs, OwnReference;
    if m == map[] {
    } else {
      SentGrows(m, make, ports);
      SentOneEach(m - {Max(m.Keys)}, make, ports);
    }
  }

  lemma {:induction false} SameSentExactly<V(!new)>(a: map<nat, V>, b: map<nat, V>, make: (nat, V) -> Assigned, ports: seq<Port>)
    requires AllInputs(a, ports) && OwnReference(make) && a.Keys == b.Keys
    ensures Sent(a, make, ports) == Sent(b, make, ports) <==>
      forall k <- a :: Arrives(ports)(make(k, a[k])) == Arrives(ports)(make(k, b[k]))
    decreases |a|
  {
    hide Arrives, OwnReference, Sent, TakesInput, Max;
    if a == map[] {
      assert b == map[];
    } else {
      var top := Max(a.Keys);
      assert AllInputs(b, ports);
      var x, y := a - {top}, b - {top};
      SentGrows(a, make, ports);
      SentGrows(b, make, ports);
      SameSentExactly(x, y, make, ports);
      assert forall k <- x :: k in a && x[k] == a[k] && y[k] == b[k];
      assert forall k <- a :: k == top || k in x;
      LastOnes(Sent(a - {top}, make, ports), Sent(b - {top}, make, ports), Arrives(ports)(make(top, a[top])), Arrives(ports)(make(top, b[top])));
    }
  }

  lemma LastOnes<T>(a: seq<T>, b: seq<T>, x: seq<T>, y: seq<T>)
    requires |x| == |y|
    ensures a + x == b + y <==> a == b && x == y
  {
    if a + x == b + y {
      assert |a| == |b|;
      assert a == (a + x)[..|a|] && b == (b + y)[..|a|];
      assert x == (a + x)[|a|..] && y == (b + y)[|a|..];
    }
  }

  lemma SameSize(a: set<nat>, b: set<nat>)
    requires a <= b
    ensures |a| <= |b|
    ensures |a| == |b| ==> a == b
  {
    assert b == a + (b - a);
    assert |b| == |a| + |b - a|;
  }

  /** Two tables of inputs, the second with at least the references of the first. */
  lemma TablesSendSame<V(!new)>(a: map<nat, V>, b: map<nat, V>, make: (nat, V) -> Assigned, ports: seq<Port>)
    requires AllInputs(a, ports) && AllInputs(b, ports) && OwnReference(make) && a.Keys <= b.Keys
    ensures |Sent(a, make, ports)| <= |Sent(b, make, ports)|
    ensures Sent(a, make, ports) == Sent(b, make, ports) <==>
      forall k <- b :: k in a && Arrives(ports)(make(k, a[k])) == Arrives(ports)(make(k, b[k]))
    ensures |Sent(a, make, ports)| == |Sent(b, make, ports)| ==> a.Keys == b.Keys
  {
    hide Arrives, OwnReference, Sent;
    SentOneEach(a, make, ports);
    SentOneEach(b, make, ports);
    SameSize(a.Keys, b.Keys);
    assert |a| == |a.Keys| && |b| == |b.Keys|;
    if a.Keys == b.Keys {
      SameSentExactly(a, b, make, ports);
    }
  }

  function Inputs(slots: Slots, ports: seq<Port>): Slots
  {
    Slots(InputsOnly(slots.reals, ports), InputsOnly(slots.integers, ports), InputsOnly(slots.booleans, ports))
  }

  /** What a request injects, table by table. */
  lemma RequestInjects(slots: Slots, ports: seq<Port>)
    ensures var s := Inputs(slots, ports);
            Project(Arrives(ports), AssignedList(slots))
            == Sent(s.reals, MakeReal(), ports) + Sent(s.integers, MakeInt(), ports) + Sent(s.booleans, MakeBool(), ports)
  {
    hide Entries, Arrives, Project, InputsOnly;
    var s := Inputs(slots, ports);
    ArrivingInputs(slots, ports);
    ThreeParts(Arrives(ports), Entries(s.reals, MakeReal()), Entries(s.integers, MakeInt()), Entries(s.booleans, MakeBool()));
  }

  lemma ThreeEqual<T>(a: seq<T>, b: seq<T>, c: seq<T>, a': seq<T>, b': seq<T>, c': seq<T>)
    requires |a| <= |a'| && |b| <= |b'| && |c| <= |c'|
    ensures a + b + c == a' + b' + c' <==> a == a' && b == b' && c == c'
  {
    if a + b + c == a' + b' + c' {
      assert |a + b + c| == |a| + |b| + |c| && |a' + b' + c'| == |a'| + |b'| + |c'|;
      LastOnes(a + b, a' + b', c, c');
      LastOnes(a, a', b, b');
    }
  }

  /** One reported bidirectional port, of one type, at one reference. */
  ghost predicate EchoOf(ports: seq<Port>, outputs: Outputs, k: nat, t: DataType)
  {
    Echoes(ports, outputs, k) && ports[k - 1].dataType == t
  }

  lemma RealsEcho(before: map<nat, string>, after: map<nat, string>, toDigits: string -> string, ports: seq<Port>, outputs: Outputs)
    requires DeliveredReals(before, after, ports, outputs)
    ensures var a, b := InputsOnly(PrintedReals(before, toDigits), ports), InputsOnly(PrintedReals(after, toDigits), ports);
            && |Sent(a, MakeReal(), ports)| <= |Sent(b, MakeReal(), ports)|
            && (Sent(a, MakeReal(), ports) == Sent(b, MakeReal(), ports) <==>
                  forall k: nat :: EchoOf(ports, outputs, k, RealType) ==> k in before && toDigits(before[k]) == toDigits(Format(SentValue(ports, outputs, k))))
  {
    hide Sent, Format;
    var a, b := InputsOnly(PrintedReals(before, toDigits), ports), InputsOnly(PrintedReals(after, toDigits), ports);
    TablesSendSame(a, b, MakeReal(), ports);
    forall k | k in b
      ensures EchoOf(ports, outputs, k, RealType) || (k in a && a[k] == b[k])
    {
      assert TakesInput(ports, k);
    }
    forall k: nat | EchoOf(ports, outputs, k, RealType)
      ensures k in b && b[k] == toDigits(Format(SentValue(ports, outputs, k)))
    {
      assert SentAs(ports, outputs, k, RealType) && k in after;
    }
  }

  lemma IntegersEcho(before: map<nat, int>, after: map<nat, int>, ports: seq<Port>, outputs: Outputs)
    requires DeliveredIntegers(before, after, ports, outputs)
    ensures var a, b := InputsOnly(before, ports), InputsOnly(after, ports);
            && |Sent(a, MakeInt(), ports)| <= |Sent(b, MakeInt(), ports)|
            && (Sent(a, MakeInt(), ports) == Sent(b, MakeInt(), ports) <==>
                  forall k: nat :: EchoOf(ports, outputs, k, IntegerType) ==> k in before && SentValue(ports, outputs, k) == Integer(before[k]))
  {
    hide Sent;
    var a, b := InputsOnly(before, ports), InputsOnly(after, ports);
    TablesSendSame(a, b, MakeInt(), ports);
    forall k | k in b
      ensures EchoOf(ports, outputs, k, IntegerType) || (k in a && a[k] == b[k])
    {
      assert TakesInput(ports, k);
    }
    forall k: nat | EchoOf(ports, outputs, k, IntegerType)
      ensures k in b && SentValue(ports, outputs, k) == Integer(b[k])
    {
      assert SentAs(ports, outputs, k, IntegerType) && k in after;
    }
  }

  lemma BooleansEcho(before: map<nat, int>, after: map<nat, int>, ports: seq<Port>, outputs: Outputs)
    requires DeliveredBooleans(before, after, ports, outputs)
    ensures var a, b := InputsOnly(before, ports), InputsOnly(after, ports);
            && |Sent(a, MakeBool(), ports)| <= |Sent(b, MakeBool(), ports)|
            && (Sent(a, MakeBool(), ports) == Sent(b, MakeBool(), ports) <==>
                  forall k: nat :: EchoOf(ports, outputs, k, BooleanType) ==> k in before && (before[k] != 0) == Truthy(SentValue(ports, outputs, k)))
  {
    hide Sent, Truthy;
    var a, b := InputsOnly(before, ports), InputsOnly(after, ports);
    TablesSendSame(a, b, MakeBool(), ports);
    forall k | k in b
      ensures EchoOf(ports, outputs, k, BooleanType) || (k in a && a[k] == b[k])
    {
      assert TakesInput(ports, k);
    }
    forall k: nat | EchoOf(ports, outputs, k, BooleanType)
      ensures k in b && b[k] == (if Truthy(SentValue(ports, outputs, k)) then 1 else 0)
    {
      assert SentAs(ports, outputs, k, BooleanType) && k in after;
    }
  }

  /**
    A reply leaves what the next request injects unchanged if and only if, for every reported
    bidirectional port, the table already held a value that injects the same: the same integer, the same
    truth, or a real that prints the same.
   */
  lemma NextRequestUnchangedExactly(before: Slots, after: Slots, toDigits: string -> string, ports: seq<Port>, outputs: Outputs)
    requires Delivered(before, after, ports, outputs)
    ensures NextInjections(after, toDigits, ports) == NextInjections(before, toDigits, ports) <==> EveryEchoHeld(before, toDigits, ports, outputs)
  {
    hide Sent, Arrives, AssignedList, Project, Format, Truthy, DeliveredReals, DeliveredIntegers, DeliveredBooleans, InputsOnly, PrintedReals;
    var r, r' := Reprinted(before, toDigits), Reprinted(after, toDigits);
    RequestInjects(r, ports);
    RequestInjects(r', ports);
    RealsEcho(before.reals, after.reals, toDigits, ports, outputs);
    IntegersEcho(before.integers, after.integers, ports, outputs);
    BooleansEcho(before.booleans, after.booleans, ports, outputs);
    var s, s' := Inputs(r, ports), Inputs(r', ports);
    ThreeEqual(Sent(s.reals, MakeReal(), ports), Sent(s.integers, MakeInt(), ports), Sent(s.booleans, MakeBool(), ports),
               Sent(s'.reals, MakeReal(), ports), Sent(s'.integers, MakeInt(), ports), Sent(s'.booleans, MakeBool(), ports));
    EchoesByType(before, toDigits, ports, outputs);
  }

  lemma EchoesByType(before: Slots, toDigits: string -> string, ports: seq<Port>, outputs: Outputs)
    ensures EveryEchoHeld(before, toDigits, ports, outputs) <==>
      && (forall k: nat :: EchoOf(ports, outputs, k, RealType) ==>
                             k in before.reals && toDigits(before.reals[k]) == toDigits(Format(SentValue(ports, outputs, k))))
      && (forall k: nat :: EchoOf(ports, outputs, k, IntegerType) ==> k in before.integers && SentValue(ports, outputs, k) == Integer(before.integers[k]))
      && (forall k: nat :: EchoOf(ports, outputs, k, BooleanType) ==>
                             k in before.booleans && (before.booleans[k] != 0) == Truthy(SentValue(ports, outputs, k)))
  {
    hide Format, Truthy, Sends;
    forall k: nat | Echoes(ports, outputs, k)
      ensures EchoOf(ports, outputs, k, ports[k - 1].dataType)
    {
    }
  }
}

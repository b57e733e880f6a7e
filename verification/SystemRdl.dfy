// The SystemRDL import: registers whose resets are composed from their fields,
// and a peripheral whose size is the furthest register end.
module SystemRdl {
  import opened Common
  import opened BitArithmetic
  import opened RegisterLayout

  /** A register node of the elaborated description; a missing or zero width means 32. */
  datatype Node = Node(name: string, offset: nat, regwidth: Option<nat>, fields: seq<Field>)

  datatype ImportError = BadField | UnsupportedWidth | NoRegisters | BadLayout(problem: Problem)

  datatype Imported = Imported(ir: Ir) | Failed(error: ImportError)

  // ---- Reset composition ----------------------------------------------------------------------------

  /** The shifted resets, or-ed together. */
  function Compose(fields: seq<Field>): nat
  {
    if fields == [] then 0
    else
      var last := fields[|fields| - 1];
      Or(Compose(fields[..|fields| - 1]), Shl(last.reset, last.lsb))
  }

  /** The shifted resets, added. */
  function Sum(fields: seq<Field>): nat
  {
    if fields == [] then 0
    else
      var last := fields[|fields| - 1];
      Sum(fields[..|fields| - 1]) + Shl(last.reset, last.lsb)
  }

  /** The bits of a register that belong to a field. */
  function Extract(value: nat, f: Field): nat
  {
    Low(Shr(value, f.lsb), f.width)
  }

  predicate FieldBit(f: Field, i: nat)
  {
    i >= f.lsb && Bit(f.reset, i - f.lsb)
  }

  lemma {:induction false} ComposeBit(fields: seq<Field>, i: nat)
    ensures Bit(Compose(fields), i) <==> exists j :: 0 <= j < |fields| && FieldBit(fields[j], i)
  {
    hide Bit, Or, Shl;
    if fields == [] {
      ZeroHasNoBits(i);
    } else {
      var front, last := fields[..|fields| - 1], fields[|fields| - 1];
      ComposeBit(front, i);
      OrBit(Compose(front), Shl(last.reset, last.lsb), i);
      ShlBit(last.reset, last.lsb, i);
      assert forall j :: 0 <= j < |front| ==> front[j] == fields[j];
      if exists j :: 0 <= j < |front| && FieldBit(front[j], i) {
        var j :| 0 <= j < |front| && FieldBit(front[j], i);
        assert FieldBit(fields[j], i);
      }
      if exists j :: 0 <= j < |fields| && FieldBit(fields[j], i) {
        var j :| 0 <= j < |fields| && FieldBit(fields[j], i);
        assert j < |front| ==> FieldBit(front[j], i);
      }
    }
  }

  ghost predicate FieldsValid(fields: seq<Field>)
  {
    forall j :: 0 <= j < |fields| ==> ValidField(fields[j])
  }

  /** A field that passed its own check only sets bits of its own span. */
  lemma FieldBitInSpan(f: Field, i: nat)
    requires ValidField(f) && FieldBit(f, i)
    ensures f.lsb <= i < f.lsb + f.width
  {
    if i >= f.lsb + f.width {
      FittingBits(f.reset, f.width, i - f.lsb);
    }
  }

  lemma NoSharedBit(fields: seq<Field>, a: nat, b: nat, i: nat)
    requires FieldsValid(fields) && AllApart(FieldSpans(fields)) && a < |fields| && b < |fields|
    requires FieldBit(fields[a], i) && FieldBit(fields[b], i)
    ensures a == b
  {
    FieldBitInSpan(fields[a], i);
    FieldBitInSpan(fields[b], i);
    ApartOrSame(FieldSpans(fields), a, b);
  }

  lemma FrontApart(fields: seq<Field>)
    requires fields != [] && AllApart(FieldSpans(fields))
    ensures AllApart(FieldSpans(fields[..|fields| - 1]))
  {
    assert FieldSpans(fields[..|fields| - 1]) == FieldSpans(fields)[..|fields| - 1];
  }

  /** For disjoint fields, or-ing the shifted resets is adding them. */
  lemma {:induction false} ComposeIsSum(fields: seq<Field>)
    requires FieldsValid(fields) && AllApart(FieldSpans(fields))
    ensures Compose(fields) == Sum(fields)
  {
    hide Bit, Or, Shl, AllApart;
    if fields == [] {
    } else {
      var front, last := fields[..|fields| - 1], fields[|fields| - 1];
      FrontApart(fields);
      ComposeIsSum(front);
      forall i: nat
        ensures !(Bit(Compose(front), i) && Bit(Shl(last.reset, last.lsb), i))
      {
        ComposeBit(front, i);
        ShlBit(last.reset, last.lsb, i);
        if Bit(Compose(front), i) && FieldBit(last, i) {
          var j :| 0 <= j < |front| && FieldBit(front[j], i);
          assert fields[j] == front[j];
          NoSharedBit(fields, j, |fields| - 1, i);
        }
      }
      OrDisjoint(Compose(front), Shl(last.reset, last.lsb));
    }
  }

  /** The composed reset fits the register, so the register's own reset check cannot fail. */
  lemma ComposeFits(fields: seq<Field>, width: nat)
    requires FieldsValid(fields) && SoundFields(fields, width)
    ensures Compose(fields) < Pow2(width)
  {
    if Compose(fields) >= Pow2(width) {
      var i := OverflowBit(Compose(fields), width);
      ComposeBit(fields, i);
      var j :| 0 <= j < |fields| && FieldBit(fields[j], i);
      FieldBitInSpan(fields[j], i);
    }
  }

  lemma SpanOwner(fields: seq<Field>, j: nat, k: nat, i: nat)
    requires AllApart(FieldSpans(fields)) && j < |fields| && k < |fields|
    requires fields[j].lsb <= i < fields[j].lsb + fields[j].width
    requires fields[k].lsb <= i < fields[k].lsb + fields[k].width
    ensures j == k
  {
    ApartOrSame(FieldSpans(fields), j, k);
  }

  /** Within the span of a field, the composed reset has the bits of that field. */
  lemma OwnBits(fields: seq<Field>, j: nat, i: nat)
    requires FieldsValid(fields) && AllApart(FieldSpans(fields)) && j < |fields|
    requires fields[j].lsb <= i < fields[j].lsb + fields[j].width
    ensures Bit(Compose(fields), i) <==> FieldBit(fields[j], i)
  {
    hide Bit, Compose, AllApart;
    ComposeBit(fields, i);
    forall k | 0 <= k < |fields| && FieldBit(fields[k], i)
      ensures k == j
    {
      FieldBitInSpan(fields[k], i);
      SpanOwner(fields, j, k, i);
    }
  }

  /** Each field reads its own reset back out of the composed one. */
  lemma {:induction false} ExtractsOwnReset(fields: seq<Field>, j: nat)
    requires FieldsValid(fields) && AllApart(FieldSpans(fields)) && j < |fields|
    ensures Extract(Compose(fields), fields[j]) == fields[j].reset
  {
    hide Bit, Low, Shr, AllApart, Compose, Pow2;
    var f := fields[j];
    var shifted := Shr(Compose(fields), f.lsb);
    forall i: nat
      ensures Bit(Low(shifted, f.width), i) == Bit(f.reset, i)
    {
      LowBit(shifted, f.width, i);
      ShrBit(Compose(fields), f.lsb, i);
      if i < f.width {
        OwnBits(fields, j, i + f.lsb);
      } else {
        FittingBits(f.reset, f.width, i);
      }
    }
    SameBits(Low(shifted, f.width), f.reset);
  }

  // ---- The import --------------------------------------------------------------------------------------

  function WidthOf(node: Node): nat
  {
    if node.regwidth.Some? && node.regwidth.value != 0 then node.regwidth.value else 32
  }

  ghost predicate GoodNode(node: Node)
  {
    FieldsValid(node.fields) && ValidWidth(WidthOf(node))
  }

  function RegisterOf(node: Node): Register
  {
    Register(node.name, node.offset, WidthOf(node), Compose(node.fields), node.fields)
  }

  /** A node whose fields lie in 64 bits with resets that fit them, and whose width is supported or left open. */
  ghost predicate Importable(node: Node)
  {
    && (forall f <- node.fields :: 1 <= f.width && f.lsb <= 63 && f.lsb + f.width <= 64 && f.reset < Pow2(f.width))
    && node.regwidth in {None, Some(0), Some(8), Some(16), Some(32), Some(64)}
  }

  /** The register of a node: 32 bits wide when the width is left open, and reset to what its fields reset to. */
  ghost predicate Describes(node: Node, r: Register)
  {
    && r.name == node.name && r.offset == node.offset && r.fields == node.fields
    && (if node.regwidth in {None, Some(0)} then r.width == 32 else Some(r.width) == node.regwidth)
    && forall i: nat :: Bit(r.reset, i) <==> exists j :: 0 <= j < |r.fields| && i >= r.fields[j].lsb && Bit(r.fields[j].reset, i - r.fields[j].lsb)
  }

  lemma GoodIsImportable(node: Node)
    ensures GoodNode(node) <==> Importable(node)
    ensures Describes(node, RegisterOf(node))
  {
    hide Bit, Compose, Pow2;
    forall f | f in node.fields && FieldsValid(node.fields)
      ensures ValidField(f)
    {
      var j :| 0 <= j < |node.fields| && node.fields[j] == f;
    }
    forall i: nat
      ensures Bit(Compose(node.fields), i) <==>
        exists j :: 0 <= j < |node.fields| && i >= node.fields[j].lsb && Bit(node.fields[j].reset, i - node.fields[j].lsb)
    {
      ComposeBit(node.fields, i);
      assert forall j :: 0 <= j < |node.fields| ==>
        (FieldBit(node.fields[j], i) <==> i >= node.fields[j].lsb && Bit(node.fields[j].reset, i - node.fields[j].lsb));
    }
  }

  /** The smallest size of at least four bytes that all registers end within. */
  ghost predicate SmallestSize(ir: Ir)
  {
    && ir.size >= 4 && (forall r <- ir.registers :: r.offset + r.width / 8 <= ir.size)
    && (ir.size == 4 || exists r <- ir.registers :: r.offset + r.width / 8 == ir.size)
  }

  method ImportNode(node: Node) returns (r: Option<Register>, error: ImportError)
    ensures r.Some? <==> GoodNode(node)
    ensures r.Some? ==> r.value == RegisterOf(node)
    ensures r.Some? <==> Importable(node)
    ensures r.Some? ==> Describes(node, r.value)
    ensures r.None? ==> error == if FieldsValid(node.fields) then UnsupportedWidth else BadField
  {
    r, error := None, BadField;
    GoodIsImportable(node);
    hide Importable, Describes;
    var fields: seq<Field> := [];
    var registerReset := 0;
    for i := 0 to |node.fields|
      invariant fields == node.fields[..i] && FieldsValid(node.fields[..i])
      invariant registerReset == Compose(node.fields[..i])
    {
      var field := node.fields[i];
      assert node.fields[..i + 1][..i] == node.fields[..i];
      registerReset := Or(registerReset, Shl(field.reset, field.lsb));
      if !ValidField(field) {
        return;
      }
      fields := fields + [field];
    }
    assert node.fields[..|node.fields|] == node.fields;
    var width := WidthOf(node);
    if !ValidWidth(width) {
      error := UnsupportedWidth;
      return;
    }
    r := Some(Register(node.name, node.offset, width, registerReset, fields));
  }

  function Furthest(registers: seq<Register>): (m: nat)
    ensures forall i :: 0 <= i < |registers| ==> End(registers[i]) <= m
    ensures m == 0 || exists i :: 0 <= i < |registers| && End(registers[i]) == m
  {
    if registers == [] then 0
    else
      var m := Furthest(registers[..|registers| - 1]);
      var end := End(registers[|registers| - 1]);
      if m < end then end else m
  }

  function RegistersOf(nodes: seq<Node>): (r: seq<Register>)
    ensures |r| == |nodes| && forall i :: 0 <= i < |r| ==> r[i] == RegisterOf(nodes[i])
  {
    seq(|nodes|, i requires 0 <= i < |nodes| => RegisterOf(nodes[i]))
  }

  /** The peripheral that some nodes describe: as large as its furthest register, at least four bytes. */
  function IrOf(nodes: seq<Node>): Ir
  {
    var registers := RegistersOf(nodes);
    Ir(if Furthest(registers) < 4 then 4 else Furthest(registers), registers)
  }

  ghost predicate AllGood(nodes: seq<Node>)
  {
    forall i :: 0 <= i < |nodes| ==> GoodNode(nodes[i])
  }

  /** The first node that cannot be imported decides the error. */
  ghost predicate FirstBadNode(nodes: seq<Node>, i: nat, error: ImportError)
  {
    && i < |nodes| && AllGood(nodes[..i]) && !GoodNode(nodes[i])
    && error == if FieldsValid(nodes[i].fields) then UnsupportedWidth else BadField
  }

  /** The import succeeds exactly on good nodes, at least one, that make up a sound layout. */
  method ImportSystemRdl(nodes: seq<Node>) returns (result: Imported)
    ensures result.Imported? <==> nodes != [] && AllGood(nodes) && SoundLayout(IrOf(nodes))
    ensures result.Imported? ==> result.ir == IrOf(nodes) && SmallestSize(result.ir)
    ensures result.Imported? ==> |result.ir.registers| == |nodes| && forall i :: 0 <= i < |nodes| ==> Describes(nodes[i], result.ir.registers[i])
    ensures result.Failed? ==>
      match result.error
      case NoRegisters => nodes == []
      case BadLayout(problem) => AllGood(nodes) && LayoutProblem(IrOf(nodes), problem)
      case error => exists i: nat :: FirstBadNode(nodes, i, error)
  {
    hide GoodNode, RegisterOf, Furthest, FieldsValid, SoundLayout, LayoutProblem, Importable, Describes, SmallestSize;
    var registers: seq<Register> := [];
    var maxEnd := 0;
    FurthestOfNone();
    for i := 0 to |nodes|
      invariant AllGood(nodes[..i]) && registers == RegistersOf(nodes[..i])
      invariant maxEnd == Furthest(registers)
    {
      var register, error := ImportNode(nodes[i]);
      if register.None? {
        assert FirstBadNode(nodes, i, error);
        return Failed(error);
      }
      FurthestOneMore(registers, register.value);
      registers := registers + [register.value];
      maxEnd := if maxEnd < End(register.value) then End(register.value) else maxEnd;
    }
    assert nodes[..|nodes|] == nodes;
    if registers == [] {
      return Failed(NoRegisters);
    }
    var ir := Ir(if maxEnd < 4 then 4 else maxEnd, registers);
    GoodRegisters(nodes);
    var problem := ValidateRegisterLayout(ir);
    if problem.Some? {
      return Failed(BadLayout(problem.value));
    }
    SizeIsSmallest(nodes);
    forall i | 0 <= i < |nodes|
      ensures Describes(nodes[i], ir.registers[i])
    {
      GoodIsImportable(nodes[i]);
    }
    return Imported(ir);
  }

  lemma SizeIsSmallest(nodes: seq<Node>)
    ensures SmallestSize(IrOf(nodes))
  {
    hide RegisterOf;
    var registers := RegistersOf(nodes);
    assert forall r <- registers :: End(r) <= Furthest(registers);
  }

  lemma GoodRegisters(nodes: seq<Node>)
    requires AllGood(nodes)
    ensures forall i :: 0 <= i < |nodes| ==> ValidRegister(RegistersOf(nodes)[i])
  {
    forall i | 0 <= i < |nodes|
      ensures ValidRegister(RegistersOf(nodes)[i])
    {
      assert GoodNode(nodes[i]);
    }
  }

  lemma FurthestOfNone()
    ensures Furthest([]) == 0
  {
  }

  lemma FurthestOneMore(registers: seq<Register>, r: Register)
    ensures Furthest(registers + [r]) == if Furthest(registers) < End(r) then End(r) else Furthest(registers)
  {
    assert (registers + [r])[..|registers|] == registers;
  }

  /**
    Of an imported description the layout check can only find fault with names, overlaps and fields
    that leave their register: no register exceeds the size, and no composed reset is too wide.
   */
  lemma ImportNeverFailsSizeOrReset(nodes: seq<Node>)
    requires AllGood(nodes)
    ensures var ir := IrOf(nodes);
            SoundLayout(ir) <==>
              && Distinct(RegisterNames(ir.registers)) && AllApart(RegisterSpans(ir.registers))
              && forall i :: 0 <= i < |nodes| ==> SoundFields(nodes[i].fields, WidthOf(nodes[i]))
  {
    hide Distinct, AllApart, SoundFields, Furthest, Compose;
    var ir := IrOf(nodes);
    forall i | 0 <= i < |nodes|
      ensures SoundRegister(ir.registers[i], ir.size) <==> SoundFields(nodes[i].fields, WidthOf(nodes[i]))
    {
      assert GoodNode(nodes[i]);
      if SoundFields(nodes[i].fields, WidthOf(nodes[i])) {
        ComposeFits(nodes[i].fields, WidthOf(nodes[i]));
      }
    }
  }
}

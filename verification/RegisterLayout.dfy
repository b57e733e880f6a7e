// The register layout of the hardware behaviour description: the check of
// src/ael/contracts.py, and the SystemRDL import that composes resets and sizes.
module RegisterLayout {
  import opened Common
  import opened BitArithmetic

  datatype Field = Field(name: string, lsb: nat, width: nat, reset: nat)

  datatype Register = Register(name: string, offset: nat, width: nat, reset: nat, fields: seq<Field>)

  datatype Ir = Ir(size: nat, registers: seq<Register>)

  datatype Problem =
    | DuplicateRegisters
    | RegisterExceedsSize(name: string)
    | ResetTooWide(name: string)
    | DuplicateFields(name: string)
    | FieldExceedsRegister(name: string, field: string)
    | FieldsOverlap(name: string)
    | RegistersOverlap(name: string, other: string)

  /** What a field document must satisfy by itself. */
  predicate ValidField(f: Field)
  {
    f.lsb <= 63 && 0 < f.width <= 64 && f.lsb + f.width <= 64 && f.reset < Pow2(f.width)
  }

  predicate ValidWidth(width: nat)
  {
    width == 8 || width == 16 || width == 32 || width == 64
  }

  predicate ValidRegister(r: Register)
  {
    ValidWidth(r.width) && forall i :: 0 <= i < |r.fields| ==> ValidField(r.fields[i])
  }

  function End(r: Register): nat
  {
    r.offset + r.width / 8
  }

  // ---- Spans of bits and bytes ----------------------------------------------------------------------

  datatype Span = Span(start: nat, end: nat)

  predicate Apart(a: Span, b: Span)
  {
    a.end <= b.start || b.end <= a.start
  }

  ghost predicate AllApart(spans: seq<Span>)
  {
    forall i, j :: 0 <= i < j < |spans| ==> Apart(spans[i], spans[j])
  }

  lemma ApartOrSame(spans: seq<Span>, a: nat, b: nat)
    requires AllApart(spans) && a < |spans| && b < |spans|
    ensures a == b || Apart(spans[a], spans[b])
  {
  }

  predicate Inside(s: Span, limit: nat)
  {
    s.start < s.end <= limit
  }

  function Range(s: Span): (r: set<int>)
    ensures forall x :: x in r <==> s.start <= x < s.end
    decreases s.end
  {
    if s.end <= s.start then {} else Range(Span(s.start, s.end - 1)) + {s.end - 1}
  }

  /** Everything that some span covers. */
  function Cover(spans: seq<Span>): set<int>
  {
    if spans == [] then {} else Cover(spans[..|spans| - 1]) + Range(spans[|spans| - 1])
  }

  function Total(spans: seq<Span>): nat
  {
    if spans == [] then 0
    else
      var last := spans[|spans| - 1];
      Total(spans[..|spans| - 1]) + if last.start < last.end then last.end - last.start else 0
  }

  lemma {:induction false} CoverMember(spans: seq<Span>, x: int)
    ensures x in Cover(spans) <==> exists j :: 0 <= j < |spans| && spans[j].start <= x < spans[j].end
  {
    if spans == [] {
    } else {
      var front, last := spans[..|spans| - 1], spans[|spans| - 1];
      CoverMember(front, x);
      if x in Cover(front) {
        var j :| 0 <= j < |front| && front[j].start <= x < front[j].end;
        assert spans[j] == front[j];
      }
      if exists j :: 0 <= j < |spans| && spans[j].start <= x < spans[j].end {
        var j :| 0 <= j < |spans| && spans[j].start <= x < spans[j].end;
        assert j < |front| ==> front[j] == spans[j];
      }
    }
  }

  /** A span meets what others cover exactly when it is not apart from one of them. */
  lemma MeetsCover(spans: seq<Span>, s: Span)
    requires s.start < s.end && forall j :: 0 <= j < |spans| ==> spans[j].start < spans[j].end
    ensures Cover(spans) * Range(s) == {} <==> forall j :: 0 <= j < |spans| ==> Apart(spans[j], s)
  {
    if Cover(spans) * Range(s) != {} {
      var x :| x in Cover(spans) * Range(s);
      CoverMember(spans, x);
    } else {
      forall j | 0 <= j < |spans|
        ensures Apart(spans[j], s)
      {
        var x := if spans[j].start < s.start then s.start else spans[j].start;
        CoverMember(spans, x);
        assert x !in Cover(spans) * Range(s);
      }
    }
  }

  lemma {:induction false} RangeSize(s: Span)
    requires s.start <= s.end
    ensures |Range(s)| == s.end - s.start
    decreases s.end
  {
    hide Range;
    if s.start == s.end {
      assert Range(s) == {};
    } else {
      var shorter := Span(s.start, s.end - 1);
      RangeSize(shorter);
      RangeLast(s);
      SizeOneMore(Range(shorter), s.end - 1);
    }
  }

  lemma RangeLast(s: Span)
    requires s.start < s.end
    ensures Range(s) == Range(Span(s.start, s.end - 1)) + {s.end - 1}
  {
  }

  lemma SizeOneMore(a: set<int>, x: int)
    requires x !in a
    ensures |a + {x}| == |a| + 1
  {
  }

  /** Spans that are pairwise apart cover as much as they are long, and no more than there is. */
  lemma {:induction false} ApartSpansFit(spans: seq<Span>, limit: nat)
    requires AllApart(spans) && forall j :: 0 <= j < |spans| ==> Inside(spans[j], limit)
    ensures Cover(spans) <= Range(Span(0, limit)) && |Cover(spans)| == Total(spans) <= limit
  {
    if spans == [] {
    } else {
      var front, last := spans[..|spans| - 1], spans[|spans| - 1];
      assert forall j :: 0 <= j < |front| ==> front[j] == spans[j];
      ApartSpansFit(front, limit);
      MeetsCover(front, last);
      RangeSize(last);
    }
    RangeSize(Span(0, limit));
    SubsetSize(Cover(spans), Range(Span(0, limit)));
  }

  lemma SubsetSize(a: set<int>, b: set<int>)
    ensures a <= b ==> |a| <= |b|
  {
    if a <= b {
      assert b == a + (b - a);
    }
  }

  lemma AllApartOneMore(spans: seq<Span>, s: Span)
    ensures AllApart(spans + [s]) <==> AllApart(spans) && forall j :: 0 <= j < |spans| ==> Apart(spans[j], s)
  {
    var more := spans + [s];
    if AllApart(more) {
      assert forall j :: 0 <= j < |spans| ==> more[j] == spans[j];
      assert forall j :: 0 <= j < |spans| ==> Apart(more[j], more[|spans|]);
    }
  }

  // ---- The layouts that should pass -----------------------------------------------------------------

  function FieldSpan(f: Field): Span
  {
    Span(f.lsb, f.lsb + f.width)
  }

  function RegisterSpan(r: Register): Span
  {
    Span(r.offset, r.offset + r.width / 8)
  }

  function FieldSpans(fields: seq<Field>): (r: seq<Span>)
    ensures |r| == |fields| && forall i :: 0 <= i < |r| ==> r[i] == FieldSpan(fields[i])
  {
    seq(|fields|, i requires 0 <= i < |fields| => FieldSpan(fields[i]))
  }

  function RegisterSpans(registers: seq<Register>): (r: seq<Span>)
    ensures |r| == |registers| && forall i :: 0 <= i < |r| ==> r[i] == RegisterSpan(registers[i])
  {
    seq(|registers|, i requires 0 <= i < |registers| => RegisterSpan(registers[i]))
  }

  function FieldNames(fields: seq<Field>): (r: seq<string>)
    ensures |r| == |fields| && forall i :: 0 <= i < |r| ==> r[i] == fields[i].name
  {
    seq(|fields|, i requires 0 <= i < |fields| => fields[i].name)
  }

  function RegisterNames(registers: seq<Register>): (r: seq<string>)
    ensures |r| == |registers| && forall i :: 0 <= i < |r| ==> r[i] == registers[i].name
  {
    seq(|registers|, i requires 0 <= i < |registers| => registers[i].name)
  }

  /** Uniquely named, pairwise disjoint bit fields inside the register. */
  ghost predicate SoundFields(fields: seq<Field>, width: nat)
  {
    && Distinct(FieldNames(fields))
    && (forall i :: 0 <= i < |fields| ==> fields[i].lsb + fields[i].width <= width)
    && AllApart(FieldSpans(fields))
  }

  ghost predicate SoundRegister(r: Register, size: nat)
  {
    r.offset + r.width / 8 <= size && r.reset < Pow2(r.width) && SoundFields(r.fields, r.width)
  }

  /** Unique names, pairwise disjoint byte ranges inside the peripheral, resets that fit, sound fields. */
  ghost predicate SoundLayout(ir: Ir)
  {
    && Distinct(RegisterNames(ir.registers))
    && (forall i :: 0 <= i < |ir.registers| ==> SoundRegister(ir.registers[i], ir.size))
    && AllApart(RegisterSpans(ir.registers))
  }

  // ---- The check --------------------------------------------------------------------------------------

  function Names(names: seq<string>): set<string>
  {
    set i | 0 <= i < |names| :: names[i]
  }

  lemma NamesOneMore(front: seq<string>, last: string)
    ensures Names(front + [last]) == Names(front) + {last}
    ensures last in Names(front) <==> exists i :: 0 <= i < |front| && front[i] == last
  {
    var all := front + [last];
    assert all[|front|] == last;
    assert forall i :: 0 <= i < |front| ==> all[i] == front[i];
  }

  lemma DistinctOneMore(front: seq<string>, last: string)
    ensures Distinct(front + [last]) <==> Distinct(front) && forall i :: 0 <= i < |front| ==> front[i] != last
  {
    var all := front + [last];
    assert forall i :: 0 <= i < |front| ==> all[i] == front[i];
    if Distinct(all) {
      assert forall i :: 0 <= i < |front| ==> all[i] != all[|front|];
    }
  }

  /** Counting the distinct names finds a repetition, and only a repetition. */
  lemma {:induction false} CountingFindsRepetition(names: seq<string>)
    ensures |Names(names)| <= |names|
    ensures |Names(names)| == |names| <==> Distinct(names)
  {
    if names == [] {
    } else {
      var front, last := names[..|names| - 1], names[|names| - 1];
      assert names == front + [last];
      CountingFindsRepetition(front);
      NamesOneMore(front, last);
      DistinctOneMore(front, last);
      if last in Names(front) {
        assert Names(front) + {last} == Names(front);
      }
    }
  }

  /** What a reported problem says about the fields of a register. */
  ghost predicate FieldProblem(r: Register, problem: Problem)
  {
    match problem
    case DuplicateFields(name) => name == r.name && !Distinct(FieldNames(r.fields))
    case FieldExceedsRegister(name, field) =>
      name == r.name && exists i :: 0 <= i < |r.fields| && r.fields[i].name == field && r.fields[i].lsb + r.fields[i].width > r.width
    case FieldsOverlap(name) => name == r.name && !AllApart(FieldSpans(r.fields))
    case _ => false
  }

  /** A reported problem is there, in the register it names. */
  ghost predicate LayoutProblem(ir: Ir, problem: Problem)
  {
    match problem
    case DuplicateRegisters => !Distinct(RegisterNames(ir.registers))
    case RegisterExceedsSize(name) => exists i :: 0 <= i < |ir.registers| && ir.registers[i].name == name && ir.registers[i].offset + ir.registers[i].width / 8 > ir.size
    case ResetTooWide(name) =>
      exists i :: 0 <= i < |ir.registers| && ir.registers[i].name == name && ir.registers[i].reset >= Pow2(ir.registers[i].width)
    case RegistersOverlap(name, other) =>
      exists i, j :: 0 <= j < i < |ir.registers| && ir.registers[i].name == name && ir.registers[j].name == other
        && !Apart(RegisterSpan(ir.registers[j]), RegisterSpan(ir.registers[i]))
    case _ => exists i :: 0 <= i < |ir.registers| && FieldProblem(ir.registers[i], problem)
  }

  method UniqueNames(names: seq<string>) returns (unique: bool)
    ensures unique <==> Distinct(names)
  {
    CountingFindsRepetition(names);
    return |Names(names)| == |names|;
  }

  method ValidateFields(r: Register) returns (problem: Option<Problem>)
    requires ValidRegister(r)
    ensures problem.None? <==> SoundFields(r.fields, r.width)
    ensures problem.Some? ==> FieldProblem(r, problem.value)
  {
    hide AllApart, Cover, Range, ValidField, Distinct;
    ghost var spans := FieldSpans(r.fields);
    var unique := UniqueNames(FieldNames(r.fields));
    if !unique {
      return Some(DuplicateFields(r.name));
    }
    FieldsNonempty(r);
    NoSpans();
    var fieldBits: set<int> := {};
    for i := 0 to |r.fields|
      invariant forall j :: 0 <= j < i ==> r.fields[j].lsb + r.fields[j].width <= r.width
      invariant AllApart(spans[..i])
      invariant fieldBits == Cover(spans[..i])
    {
      var field := r.fields[i];
      if field.lsb + field.width > r.width {
        return Some(FieldExceedsRegister(r.name, field.name));
      }
      var bits := Range(FieldSpan(field));
      assert spans[..i + 1] == spans[..i] + [spans[i]];
      MeetsCover(spans[..i], spans[i]);
      AllApartOneMore(spans[..i], spans[i]);
      CoverOneMore(spans[..i], spans[i]);
      if fieldBits * bits != {} {
        PrefixApart(spans, i + 1);
        return Some(FieldsOverlap(r.name));
      }
      fieldBits := fieldBits + bits;
    }
    assert spans[..|r.fields|] == spans;
    return None;
  }

  lemma FieldsNonempty(r: Register)
    requires ValidRegister(r)
    ensures forall j :: 0 <= j < |r.fields| ==> FieldSpans(r.fields)[j].start < FieldSpans(r.fields)[j].end
  {
  }

  lemma NoSpans()
    ensures AllApart([]) && Cover([]) == {}
  {
  }

  lemma CoverOneMore(spans: seq<Span>, s: Span)
    ensures Cover(spans + [s]) == Cover(spans) + Range(s)
  {
    assert (spans + [s])[..|spans|] == spans;
  }

  lemma PrefixApart(spans: seq<Span>, n: nat)
    requires n <= |spans|
    ensures AllApart(spans) ==> AllApart(spans[..n])
  {
  }

  lemma NamesProblem(ir: Ir)
    ensures !Distinct(RegisterNames(ir.registers)) ==> LayoutProblem(ir, DuplicateRegisters)
  {
  }

  lemma RegisterProblem(ir: Ir, i: nat)
    requires i < |ir.registers|
    ensures End(ir.registers[i]) > ir.size ==> LayoutProblem(ir, RegisterExceedsSize(ir.registers[i].name))
    ensures ir.registers[i].reset >= Pow2(ir.registers[i].width) ==> LayoutProblem(ir, ResetTooWide(ir.registers[i].name))
  {
  }

  lemma InnerProblem(ir: Ir, i: nat, problem: Problem)
    requires i < |ir.registers| && FieldProblem(ir.registers[i], problem)
    ensures LayoutProblem(ir, problem)
  {
  }

  lemma OverlapProblem(ir: Ir, i: nat, j: nat)
    requires j < i < |ir.registers| && !Apart(RegisterSpan(ir.registers[j]), RegisterSpan(ir.registers[i]))
    ensures LayoutProblem(ir, RegistersOverlap(ir.registers[i].name, ir.registers[j].name))
  {
  }

  /** The check accepts a layout if and only if it is sound. */
  method ValidateRegisterLayout(ir: Ir) returns (problem: Option<Problem>)
    requires forall i :: 0 <= i < |ir.registers| ==> ValidRegister(ir.registers[i])
    ensures problem.None? <==> SoundLayout(ir)
    ensures problem.Some? ==> LayoutProblem(ir, problem.value)
  {
    hide AllApart, SoundFields, ValidRegister, Distinct, LayoutProblem, FieldProblem;
    NamesProblem(ir);
    ghost var spans := RegisterSpans(ir.registers);
    var unique := UniqueNames(RegisterNames(ir.registers));
    if !unique {
      return Some(DuplicateRegisters);
    }
    NoSpans();
    var occupied: seq<(nat, nat, string)> := [];
    for i := 0 to |ir.registers|
      invariant forall j :: 0 <= j < i ==> SoundRegister(ir.registers[j], ir.size)
      invariant AllApart(spans[..i])
      invariant |occupied| == i
      invariant forall j :: 0 <= j < i ==>
        occupied[j].0 == spans[j].start && occupied[j].1 == spans[j].end && occupied[j].2 == ir.registers[j].name
    {
      var register := ir.registers[i];
      RegisterProblem(ir, i);
      var end := register.offset + register.width / 8;
      if end > ir.size {
        return Some(RegisterExceedsSize(register.name));
      }
      if register.reset >= Pow2(register.width) {
        return Some(ResetTooWide(register.name));
      }
      problem := ValidateFields(register);
      if problem.Some? {
        InnerProblem(ir, i, problem.value);
        return problem;
      }
      assert spans[..i + 1] == spans[..i] + [spans[i]];
      AllApartOneMore(spans[..i], spans[i]);
      for j := 0 to i
        invariant forall m :: 0 <= m < j ==> Apart(spans[m], spans[i])
      {
        var (start, previousEnd, previousName) := occupied[j];
        if register.offset < previousEnd && end > start {
          assert !Apart(spans[..i][j], spans[i]);
          PrefixApart(spans, i + 1);
          OverlapProblem(ir, i, j);
          return Some(RegistersOverlap(register.name, previousName));
        }
      }
      occupied := occupied + [(register.offset, end, register.name)];
    }
    assert spans[..|ir.registers|] == spans;
    return None;
  }

  // ---- Pigeonhole ------------------------------------------------------------------------------------------

  /** In a sound layout the registers take no more bytes than there are, nor the fields of one more bits. */
  lemma SoundLayoutFits(ir: Ir, i: nat)
    requires SoundLayout(ir) && forall j :: 0 <= j < |ir.registers| ==> ValidRegister(ir.registers[j])
    ensures Total(RegisterSpans(ir.registers)) <= ir.size
    ensures i < |ir.registers| ==> Total(FieldSpans(ir.registers[i].fields)) <= ir.registers[i].width
  {
    hide AllApart, Total, Distinct;
    forall j | 0 <= j < |ir.registers|
      ensures Inside(RegisterSpans(ir.registers)[j], ir.size)
    {
      assert SoundRegister(ir.registers[j], ir.size) && ValidRegister(ir.registers[j]);
    }
    ApartSpansFit(RegisterSpans(ir.registers), ir.size);
    if i < |ir.registers| {
      var r := ir.registers[i];
      assert SoundRegister(r, ir.size) && ValidRegister(r);
      FieldsNonempty(r);
      ApartSpansFit(FieldSpans(r.fields), r.width);
    }
  }
}

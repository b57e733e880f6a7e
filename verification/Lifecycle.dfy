// The life of a model package in the registry, from its generation to its approval or deprecation.
module Lifecycle {
  import opened Common

  datatype ModelState = DRAFT | GENERATED | STATIC_VALIDATED | CONFORMANCE_VALIDATED
    | HARDWARE_VALIDATED | PRODUCTION_APPROVED | DEPRECATED

  function Transitions(state: ModelState): set<ModelState>
  {
    match state
    case DRAFT => {GENERATED, DEPRECATED}
    case GENERATED => {STATIC_VALIDATED, DEPRECATED}
    case STATIC_VALIDATED => {CONFORMANCE_VALIDATED, DEPRECATED}
    case CONFORMANCE_VALIDATED => {HARDWARE_VALIDATED, DEPRECATED}
    case HARDWARE_VALIDATED => {PRODUCTION_APPROVED, DEPRECATED}
    case PRODUCTION_APPROVED => {DEPRECATED}
    case DEPRECATED => {}
  }

  /** A stored package; the empty signature counts as none. */
  datatype Package = Package(state: ModelState, hasIr: bool, evidence: seq<string>, signature: string)

  datatype Report = Report(
    modelId: string,
    sourceIndependent: bool, registerLayoutPassed: bool, compilePassed: bool, driverTestsPassed: bool,
    propertyTestsPassed: bool, referenceTracePassed: bool, generatedTestsAreOnlyEvidence: bool, sandboxReadOnly: bool)

  predicate AllChecks(r: Report)
  {
    && r.sourceIndependent && r.registerLayoutPassed && r.compilePassed && r.driverTestsPassed
    && r.propertyTestsPassed && r.referenceTracePassed && !r.generatedTestsAreOnlyEvidence && r.sandboxReadOnly
  }

  /** The workspace as one call finds it; paths are taken as already resolved. */
  datatype Files = Files(
    present: string -> bool,
    directory: string -> bool,
    insideModel: string -> bool,
    report: string -> Option<Report>,
    irPath: string,
    irValid: bool,
    sourcesUnchanged: bool)

  datatype Outcome = Updated(package: Package) | KeyError | ValueError | PermissionError | FileError

  type Registry = map<string, Package>

  // ---- One transition ----------------------------------------------------------------------------------

  predicate NeedsHuman(target: ModelState)
  {
    target == HARDWARE_VALIDATED || target == PRODUCTION_APPROVED
  }

  /** The reason to refuse a move, in the order in which the registry looks. */
  function Refusal(r: Registry, id: string, target: ModelState, human: bool, evidence: seq<string>, signature: string,
                   conformanceChecked: bool, files: Files): Option<Outcome>
  {
    if id !in r then Some(KeyError)
    else if target !in Transitions(r[id].state) then Some(ValueError)
    else if NeedsHuman(target) && !human then Some(PermissionError)
    else if NeedsHuman(target) && evidence == [] then Some(ValueError)
    else if target == PRODUCTION_APPROVED && signature == "" then Some(ValueError)
    else if target == CONFORMANCE_VALIDATED && !conformanceChecked then Some(PermissionError)
    else if exists i :: 0 <= i < |evidence| && !files.present(evidence[i]) then Some(FileError)
    else None
  }

  function Moved(p: Package, target: ModelState, evidence: seq<string>, signature: string): Package
  {
    p.(state := target, evidence := p.evidence + evidence, signature := if signature != "" then signature else p.signature)
  }

  /** Each step of the life cycle leads to the next state, and to deprecation from everywhere but deprecation. */
  predicate Next(state: ModelState, target: ModelState)
  {
    || (target == DEPRECATED && state != DEPRECATED)
    || (state, target) in {(DRAFT, GENERATED), (GENERATED, STATIC_VALIDATED), (STATIC_VALIDATED, CONFORMANCE_VALIDATED),
                           (CONFORMANCE_VALIDATED, HARDWARE_VALIDATED), (HARDWARE_VALIDATED, PRODUCTION_APPROVED)}
  }

  /** Which error a refused move raises: the first that applies, with permissions before evidence. */
  lemma RefusalsExactly(r: Registry, id: string, target: ModelState, human: bool, evidence: seq<string>, signature: string,
                        conformanceChecked: bool, files: Files)
    ensures var refusal := Refusal(r, id, target, human, evidence, signature, conformanceChecked, files);
            var approval := target == HARDWARE_VALIDATED || target == PRODUCTION_APPROVED;
            var allowed := id in r && Next(r[id].state, target);
            && (refusal == Some(KeyError) <==> id !in r)
            && (refusal == Some(PermissionError) <==>
                  allowed && if approval then !human else target == CONFORMANCE_VALIDATED && !conformanceChecked)
            && (refusal == Some(ValueError) <==>
                  id in r && (!allowed || (approval && human && (evidence == [] || (target == PRODUCTION_APPROVED && signature == "")))))
            && (refusal == Some(FileError) <==>
                  && allowed && (exists i :: 0 <= i < |evidence| && !files.present(evidence[i]))
                  && (approval ==> human && (target == PRODUCTION_APPROVED ==> signature != ""))
                  && (target == CONFORMANCE_VALIDATED ==> conformanceChecked))
            && (refusal.Some? ==> refusal.value in {KeyError, PermissionError, ValueError, FileError})
  {
  }

  // ---- Conformance evidence ---------------------------------------------------------------------------

  predicate Usable(files: Files, id: string, item: string)
  {
    && files.present(item) && !files.directory(item)
    && (files.report(item).Some? ==> files.report(item).value.modelId == id)
  }

  predicate Passing(files: Files, item: string)
  {
    files.report(item).Some? && AllChecks(files.report(item).value)
  }

  /** What the registry accepts: usable files, one of them outside the model, one of them a passing report. */
  ghost predicate ConformanceAccepted(files: Files, id: string, evidence: seq<string>)
  {
    && evidence != []
    && (forall i :: 0 <= i < |evidence| ==> Usable(files, id, evidence[i]))
    && (exists i :: 0 <= i < |evidence| && !files.insideModel(evidence[i]))
    && (exists i :: 0 <= i < |evidence| && Passing(files, evidence[i]))
  }

  /** What its error message asks for: a passing report that is itself independent of the model package. */
  ghost predicate IndependentReport(files: Files, evidence: seq<string>)
  {
    exists i :: 0 <= i < |evidence| && Passing(files, evidence[i]) && !files.insideModel(evidence[i])
  }

  /** A usable passing report inside the package, and a usable file outside it that is no passing report. */
  ghost predicate LoopholePair(files: Files, id: string, own: string, other: string)
  {
    && Usable(files, id, own) && Passing(files, own) && files.insideModel(own)
    && Usable(files, id, other) && !Passing(files, other) && !files.insideModel(other)
  }

  lemma PairOpensLoophole(files: Files, id: string, own: string, other: string)
    requires LoopholePair(files, id, own, other)
    ensures ConformanceAccepted(files, id, [own, other]) && !IndependentReport(files, [own, other])
  {
    hide Usable, Passing;
    var evidence := [own, other];
    assert evidence[0] == own && evidence[1] == other;
  }

  lemma LoopholeHasPair(files: Files, id: string, evidence: seq<string>)
    requires ConformanceAccepted(files, id, evidence) && !IndependentReport(files, evidence)
    ensures exists own, other :: LoopholePair(files, id, own, other)
  {
    hide Usable, Passing;
    var i :| 0 <= i < |evidence| && Passing(files, evidence[i]);
    var j :| 0 <= j < |evidence| && !files.insideModel(evidence[j]);
    assert Usable(files, id, evidence[i]) && Usable(files, id, evidence[j]);
    assert LoopholePair(files, id, evidence[i], evidence[j]);
  }

  /**
    The two differ: a model can be validated by a report from inside its own package exactly when there
    is such a usable passing report, and some other usable file outside the package that is not one.
   */
  lemma SelfReportLoophole(files: Files, id: string)
    ensures (exists evidence :: ConformanceAccepted(files, id, evidence) && !IndependentReport(files, evidence))
       <==> (exists own, other :: LoopholePair(files, id, own, other))
  {
    hide *;
    if evidence :| ConformanceAccepted(files, id, evidence) && !IndependentReport(files, evidence) {
      LoopholeHasPair(files, id, evidence);
    }
    if own, other :| LoopholePair(files, id, own, other) {
      PairOpensLoophole(files, id, own, other);
    }
  }

  // ---- Operations and runs -------------------------------------------------------------------------------

  datatype Op =
    | Generate(id: string)
    | StaticValidate(id: string, files: Files)
    | ConformanceValidate(id: string, evidence: seq<string>, files: Files)
    | Transition(id: string, target: ModelState, human: bool, evidence: seq<string>, signature: string, files: Files)

  /** A move an operation asks for, once its own checks have passed. */
  datatype Move = Move(target: ModelState, human: bool, evidence: seq<string>, signature: string, checked: bool)

  /** What static validation looks at before it moves. */
  predicate StaticChecks(r: Registry, id: string, files: Files)
  {
    id in r && r[id].state == GENERATED && r[id].hasIr && files.present(files.irPath) && files.irValid && files.sourcesUnchanged
  }

  ghost function MoveOf(r: Registry, op: Op): Option<Move>
    requires !op.Generate?
  {
    match op
    case StaticValidate(id, files) =>
      if StaticChecks(r, id, files) then Some(Move(STATIC_VALIDATED, false, [files.irPath], "", false)) else None
    case ConformanceValidate(id, evidence, files) =>
      if id in r && r[id].state == STATIC_VALIDATED && ConformanceAccepted(files, id, evidence)
      then Some(Move(CONFORMANCE_VALIDATED, false, evidence, "", true)) else None
    case Transition(_, target, human, evidence, signature, _) =>
      Some(Move(target, human, evidence, signature, false))
  }

  /** The move an operation makes, if it makes one. */
  ghost function MoveMade(r: Registry, op: Op): Option<Move>
    requires !op.Generate?
  {
    var m := MoveOf(r, op);
    if m.Some? && Refusal(r, op.id, m.value.target, m.value.human, m.value.evidence, m.value.signature, m.value.checked, op.files) == None
    then m else None
  }

  const NEW_PACKAGE := Package(GENERATED, true, [], "")

  ghost function Apply(r: Registry, op: Op): Registry
  {
    if op.Generate? then r[op.id := NEW_PACKAGE]
    else
      match MoveMade(r, op)
      case None => r
      case Some(m) => if op.id in r then r[op.id := Moved(r[op.id], m.target, m.evidence, m.signature)] else r
  }

  /**
    The public transition moves a package exactly when the move is one of five and what it asks for is
    given; it then changes the state, appends the evidence and takes a signature that is not empty.
   */
  lemma PublicMoveExactly(r: Registry, id: string, target: ModelState, human: bool, evidence: seq<string>, signature: string, files: Files)
    ensures var approved := human && evidence != [];
            var moves :=
              && id in r && (forall i :: 0 <= i < |evidence| ==> files.present(evidence[i]))
              && (|| (target == DEPRECATED && r[id].state != DEPRECATED)
                  || (target == GENERATED && r[id].state == DRAFT)
                  || (target == STATIC_VALIDATED && r[id].state == GENERATED)
                  || (target == HARDWARE_VALIDATED && r[id].state == CONFORMANCE_VALIDATED && approved)
                  || (target == PRODUCTION_APPROVED && r[id].state == HARDWARE_VALIDATED && approved && signature != ""));
            && (Refusal(r, id, target, human, evidence, signature, false, files) == None <==> moves)
            && Apply(r, Transition(id, target, human, evidence, signature, files)) ==
               if !moves then r
               else r[id := Package(target, r[id].hasIr, r[id].evidence + evidence, if signature == "" then r[id].signature else signature)]
  {
  }

  ghost function After(ops: seq<Op>, n: nat): Registry
    requires n <= |ops|
  {
    if n == 0 then map[] else Apply(After(ops, n - 1), ops[n - 1])
  }

  /** The moves made on a model since it was last generated. */
  ghost function Trail(ops: seq<Op>, n: nat, id: string): seq<Move>
    requires n <= |ops|
  {
    if n == 0 then []
    else
      var op := ops[n - 1];
      if op.id != id then Trail(ops, n - 1, id)
      else if op.Generate? then []
      else
        match MoveMade(After(ops, n - 1), op)
        case None => Trail(ops, n - 1, id)
        case Some(m) => Trail(ops, n - 1, id) + [m]
  }

  // ---- What every trail looks like ---------------------------------------------------------------------

  /** The state a trail leads to. */
  function Reached(trail: seq<Move>): ModelState
  {
    if trail == [] then GENERATED else trail[|trail| - 1].target
  }

  /** A move its authorisation allows: conformance only when checked, hardware and production only by a human with evidence. */
  predicate Authorised(m: Move)
  {
    && (m.target == CONFORMANCE_VALIDATED ==> m.checked)
    && (NeedsHuman(m.target) ==> m.human && m.evidence != [])
    && (m.target == PRODUCTION_APPROVED ==> m.signature != "")
  }

  ghost predicate GoodTrail(trail: seq<Move>)
  {
    forall i :: 0 <= i < |trail| ==> trail[i].target in Transitions(Reached(trail[..i])) && Authorised(trail[i])
  }

  function EvidenceOf(): Move -> seq<string>
  {
    (m: Move) => m.evidence
  }

  /** The signature a package carries after a trail: the latest that was given. */
  function Signed(trail: seq<Move>): string
  {
    if trail == [] then ""
    else if trail[|trail| - 1].signature != "" then trail[|trail| - 1].signature
    else Signed(trail[..|trail| - 1])
  }

  /** A package is what its trail makes of it: its state, all evidence in order, the latest signature. */
  ghost predicate Follows(p: Package, trail: seq<Move>)
  {
    GoodTrail(trail) && p == Package(Reached(trail), true, Project(EvidenceOf(), trail), Signed(trail))
  }

  lemma TrailGrows(p: Package, trail: seq<Move>, m: Move)
    requires Follows(p, trail) && m.target in Transitions(p.state) && Authorised(m)
    ensures Follows(Moved(p, m.target, m.evidence, m.signature), trail + [m])
  {
    var more := trail + [m];
    assert more[..|trail|] == trail;
    forall i | 0 <= i < |more|
      ensures more[i].target in Transitions(Reached(more[..i])) && Authorised(more[i])
    {
      if i < |trail| {
        assert more[..i] == trail[..i];
      }
    }
  }

  /** Every package of every run is exactly what its moves since the last generate make of it. */
  lemma {:induction false} PackagesFollowTrails(ops: seq<Op>, n: nat, id: string)
    requires n <= |ops| && id in After(ops, n)
    ensures Follows(After(ops, n)[id], Trail(ops, n, id))
  {
    if n == 0 {
    } else {
      hide Follows, Refusal, MoveOf, ConformanceAccepted;
      var before := After(ops, n - 1);
      var op := ops[n - 1];
      if op.Generate? && op.id == id {
        NewPackageFollows();
      } else {
        PackagesFollowTrails(ops, n - 1, id);
        if op.id == id && MoveMade(before, op).Some? {
          var m := MoveMade(before, op).value;
          MovesAreAuthorised(before, op);
          TrailGrows(before[id], Trail(ops, n - 1, id), m);
        }
      }
    }
  }

  lemma NewPackageFollows()
    ensures Follows(NEW_PACKAGE, [])
  {
  }

  lemma MovesAreAuthorised(r: Registry, op: Op)
    requires !op.Generate? && MoveMade(r, op).Some?
    ensures var m := MoveMade(r, op).value;
            && op.id in r && m.target in Transitions(r[op.id].state) && Authorised(m)
            && (m.checked ==> op.ConformanceValidate? && ConformanceAccepted(op.files, op.id, op.evidence))
  {
  }

  // ---- Rank ---------------------------------------------------------------------------------------------

  function Rank(s: ModelState): nat
  {
    match s
    case DRAFT => 0
    case GENERATED => 1
    case STATIC_VALIDATED => 2
    case CONFORMANCE_VALIDATED => 3
    case HARDWARE_VALIDATED => 4
    case PRODUCTION_APPROVED => 5
    case DEPRECATED => 6
  }

  lemma GoodFront(trail: seq<Move>)
    requires GoodTrail(trail) && trail != []
    ensures var front := trail[..|trail| - 1]; GoodTrail(front) && trail[|trail| - 1].target in Transitions(Reached(front))
  {
    hide Transitions, Authorised;
    var front := trail[..|trail| - 1];
    assert forall i :: 0 <= i < |front| ==> front[..i] == trail[..i] && front[i] == trail[i];
  }

  lemma RankGrows(from: ModelState, to: ModelState)
    requires to in Transitions(from)
    ensures from != DEPRECATED && (to == DEPRECATED || Rank(to) == Rank(from) + 1)
  {
  }

  /** A package that is not deprecated has made one move per rank, so its state tells its whole trail. */
  lemma {:induction false} TrailByRank(trail: seq<Move>)
    requires GoodTrail(trail)
    ensures Reached(trail) != DEPRECATED ==> |trail| == Rank(Reached(trail)) - 1
    ensures |trail| <= 5
    ensures forall i :: 0 <= i < |trail| - 1 ==> Rank(trail[i].target) == i + 2
    ensures Reached(trail) != DEPRECATED ==> forall i :: 0 <= i < |trail| ==> Rank(trail[i].target) == i + 2
  {
    hide GoodTrail, Transitions;
    if trail == [] {
    } else {
      var front := trail[..|trail| - 1];
      GoodFront(trail);
      TrailByRank(front);
      RankGrows(Reached(front), trail[|trail| - 1].target);
    }
  }

  /**
    A production-approved package has made, since its last generate, exactly the static, conformance,
    hardware and production moves in that order; conformance through an accepted evidence check, the
    last two by a human with evidence; and it carries the signature given with the approval.
   */
  lemma ProductionHasFullTrail(ops: seq<Op>, n: nat, id: string)
    requires n <= |ops| && id in After(ops, n) && After(ops, n)[id].state == PRODUCTION_APPROVED
    ensures var trail := Trail(ops, n, id);
            && |trail| == 4
            && trail[0].target == STATIC_VALIDATED && trail[1].target == CONFORMANCE_VALIDATED
            && trail[2].target == HARDWARE_VALIDATED && trail[3].target == PRODUCTION_APPROVED
            && trail[1].checked
            && trail[2].human && trail[2].evidence != [] && trail[3].human && trail[3].evidence != []
            && After(ops, n)[id].signature == trail[3].signature != ""
            && After(ops, n)[id].evidence == trail[0].evidence + trail[1].evidence + trail[2].evidence + trail[3].evidence
  {
    hide After, Trail;
    PackagesFollowTrails(ops, n, id);
    var trail := Trail(ops, n, id);
    TrailByRank(trail);
    assert Rank(trail[0].target) == 2 && Rank(trail[1].target) == 3 && Rank(trail[2].target) == 4;
    assert Authorised(trail[1]) && Authorised(trail[2]) && Authorised(trail[3]);
    FourEvidences(trail);
  }

  lemma FourEvidences(trail: seq<Move>)
    requires |trail| == 4
    ensures Project(EvidenceOf(), trail) == trail[0].evidence + trail[1].evidence + trail[2].evidence + trail[3].evidence
  {
    var f := EvidenceOf();
    assert trail == [trail[0]] + [trail[1]] + [trail[2]] + [trail[3]];
    ProjectConcat(f, [trail[0]] + [trail[1]] + [trail[2]], [trail[3]]);
    ProjectConcat(f, [trail[0]] + [trail[1]], [trail[2]]);
    ProjectConcat(f, [trail[0]], [trail[1]]);
    ProjectOne(f, trail[0]);
    ProjectOne(f, trail[1]);
    ProjectOne(f, trail[2]);
    ProjectOne(f, trail[3]);
  }

  /**
    All that accepted evidence shows, in full: every item is a file that exists, every report among them is
    about this model, one item is outside the package, and one is a report that passed all eight checks.
   */
  ghost predicate EvidenceShown(files: Files, id: string, evidence: seq<string>)
  {
    && (forall item <- evidence ::
          && files.present(item) && !files.directory(item)
          && match files.report(item)
             case None => true
             case Some(report) => report.modelId == id)
    && (exists item <- evidence :: !files.insideModel(item))
    && exists item <- evidence ::
         match files.report(item)
         case None => false
         case Some(report) =>
           && report.modelId == id
           && report.sourceIndependent && report.registerLayoutPassed && report.compilePassed && report.driverTestsPassed
           && report.propertyTestsPassed && report.referenceTracePassed && report.sandboxReadOnly && !report.generatedTestsAreOnlyEvidence
  }

  lemma AcceptedExactly(files: Files, id: string, evidence: seq<string>)
    ensures ConformanceAccepted(files, id, evidence) <==> EvidenceShown(files, id, evidence)
  {
    if ConformanceAccepted(files, id, evidence) {
      var i :| 0 <= i < |evidence| && Passing(files, evidence[i]);
      assert evidence[i] in evidence && Usable(files, id, evidence[i]);
    }
    if EvidenceShown(files, id, evidence) {
      forall i | 0 <= i < |evidence|
        ensures Usable(files, id, evidence[i])
      {
        assert evidence[i] in evidence;
      }
    }
  }

  /** A checked move on the trail was made by a conformance validation whose evidence was accepted. */
  lemma {:induction false} CheckedMovesHadEvidence(ops: seq<Op>, n: nat, id: string, i: nat)
    requires n <= |ops| && i < |Trail(ops, n, id)| && Trail(ops, n, id)[i].checked
    ensures exists k :: 0 <= k < n && ops[k].ConformanceValidate? && ops[k].id == id
              && ops[k].evidence == Trail(ops, n, id)[i].evidence && EvidenceShown(ops[k].files, id, ops[k].evidence)
  {
    hide Refusal, ConformanceAccepted, Apply, EvidenceShown;
    var op := ops[n - 1];
    if op.id == id && !op.Generate? && MoveMade(After(ops, n - 1), op).Some? && i == |Trail(ops, n, id)| - 1 {
      AcceptedExactly(op.files, id, op.evidence);
      MovesAreAuthorised(After(ops, n - 1), op);
    } else {
      CheckedMovesHadEvidence(ops, n - 1, id, i);
    }
  }

  // ---- The two ways to be statically validated ---------------------------------------------------------------

  /** All that the public transition looks at before it moves to statically validated. */
  predicate TransitionChecks(r: Registry, id: string, evidence: seq<string>, files: Files)
  {
    id in r && r[id].state == GENERATED && forall i :: 0 <= i < |evidence| ==> files.present(evidence[i])
  }

  /** A static move is made by static validation when its checks pass, by the public transition when its own do, and in no other way. */
  lemma StaticMoveExactly(r: Registry, op: Op)
    requires !op.Generate?
    ensures MoveMade(r, op).Some? && MoveMade(r, op).value.target == STATIC_VALIDATED <==>
      && op.id in r && r[op.id].state == GENERATED
      && (|| (op.StaticValidate? && r[op.id].hasIr && op.files.present(op.files.irPath) && op.files.irValid && op.files.sourcesUnchanged)
          || (op.Transition? && op.target == STATIC_VALIDATED && forall i :: 0 <= i < |op.evidence| ==> op.files.present(op.evidence[i])))
  {
    hide ConformanceAccepted;
  }

  /** So a generated package is moved by the public transition whatever its description and its sources are like by then. */
  lemma StaticWithoutChecks(r: Registry, id: string, files: Files)
    requires id in r && r[id].state == GENERATED
    ensures Apply(r, Transition(id, STATIC_VALIDATED, false, [], "", files)) == r[id := r[id].(state := STATIC_VALIDATED)]
  {
    assert r[id].evidence + [] == r[id].evidence;
  }

  /** Operation k made move i of the trail that the first n operations leave. */
  ghost predicate Made(ops: seq<Op>, k: nat, n: nat, id: string, i: nat)
    requires n <= |ops|
  {
    && k < n && i < |Trail(ops, n, id)| && ops[k].id == id && !ops[k].Generate?
    && MoveMade(After(ops, k), ops[k]) == Some(Trail(ops, n, id)[i]) && Trail(ops, k, id) == Trail(ops, n, id)[..i]
  }

  lemma {:induction false} MoveWasMade(ops: seq<Op>, n: nat, id: string, i: nat) returns (k: nat)
    requires n <= |ops| && i < |Trail(ops, n, id)|
    ensures Made(ops, k, n, id, i)
  {
    hide MoveMade, After;
    var op := ops[n - 1];
    if op.id == id && !op.Generate? && MoveMade(After(ops, n - 1), op).Some? && i == |Trail(ops, n, id)| - 1 {
      k := n - 1;
      assert Trail(ops, n, id)[..i] == Trail(ops, n - 1, id);
    } else {
      k := MoveWasMade(ops, n - 1, id, i);
      assert Trail(ops, n, id)[..i] == Trail(ops, n - 1, id)[..i];
    }
  }

  /**
    A static move on the trail of any run had its checks pass if it was made by static validation, and
    otherwise was made by the public transition, which only asked for a generated package and for the
    evidence it was given.
   */
  lemma StaticMovesOnTrails(ops: seq<Op>, n: nat, id: string, i: nat)
    requires n <= |ops| && i < |Trail(ops, n, id)| && Trail(ops, n, id)[i].target == STATIC_VALIDATED
    ensures exists k: nat :: Made(ops, k, n, id, i)
    ensures forall k: nat :: Made(ops, k, n, id, i) ==>
      if ops[k].StaticValidate? then StaticChecks(After(ops, k), id, ops[k].files)
      else ops[k].Transition? && TransitionChecks(After(ops, k), id, ops[k].evidence, ops[k].files)
  {
    hide MoveMade, After, Trail;
    var _ := MoveWasMade(ops, n, id, i);
    forall k: nat | Made(ops, k, n, id, i)
      ensures if ops[k].StaticValidate? then StaticChecks(After(ops, k), id, ops[k].files)
              else ops[k].Transition? && TransitionChecks(After(ops, k), id, ops[k].evidence, ops[k].files)
    {
      StaticMoveExactly(After(ops, k), ops[k]);
    }
  }

  /** A run that approves a package for production and never looks at its description or its sources again. */
  function UncheckedRun(id: string, evidence: seq<string>, files: Files): seq<Op>
  {
    [Generate(id), Transition(id, STATIC_VALIDATED, false, [], "", files), ConformanceValidate(id, evidence, files),
     Transition(id, HARDWARE_VALIDATED, true, evidence, "", files), Transition(id, PRODUCTION_APPROVED, true, evidence, "signed", files)]
  }

  /** It succeeds with any accepted conformance evidence, whatever the static checks would have said. */
  lemma ProductionWithoutStaticChecks(id: string, evidence: seq<string>, files: Files)
    requires ConformanceAccepted(files, id, evidence)
    ensures var ops := UncheckedRun(id, evidence, files);
            id in After(ops, 5) && After(ops, 5)[id].state == PRODUCTION_APPROVED
  {
    hide ConformanceAccepted, After, Apply;
    var ops := UncheckedRun(id, evidence, files);
    AcceptedIsPresent(files, id, evidence);
    OneMore(ops, 0);
    OneMore(ops, 1);
    OneMore(ops, 2);
    OneMore(ops, 3);
    OneMore(ops, 4);
    Generated(After(ops, 0), id);
    StaticWithoutChecks(After(ops, 1), id, files);
    Allowed(After(ops, 2), ops[2], Move(CONFORMANCE_VALIDATED, false, evidence, "", true));
    Allowed(After(ops, 3), ops[3], Move(HARDWARE_VALIDATED, true, evidence, "", false));
    Allowed(After(ops, 4), ops[4], Move(PRODUCTION_APPROVED, true, evidence, "signed", false));
  }

  lemma OneMore(ops: seq<Op>, n: nat)
    requires n < |ops|
    ensures After(ops, n + 1) == Apply(After(ops, n), ops[n])
  {
  }

  lemma Generated(r: Registry, id: string)
    ensures id in Apply(r, Generate(id)) && Apply(r, Generate(id))[id] == NEW_PACKAGE
  {
  }

  lemma AcceptedIsPresent(files: Files, id: string, evidence: seq<string>)
    requires ConformanceAccepted(files, id, evidence)
    ensures evidence != [] && forall i :: 0 <= i < |evidence| ==> files.present(evidence[i])
  {
    assert forall i :: 0 <= i < |evidence| ==> Usable(files, id, evidence[i]);
  }

  lemma Allowed(r: Registry, op: Op, m: Move)
    requires !op.Generate? && op.id in r && MoveOf(r, op) == Some(m)
    requires m.target in Transitions(r[op.id].state) && Authorised(m)
    requires forall i :: 0 <= i < |m.evidence| ==> op.files.present(m.evidence[i])
    ensures op.id in Apply(r, op) && Apply(r, op)[op.id].state == m.target
  {
    hide MoveOf;
  }

  /** Without human approval no package passes conformance, except into deprecation. */
  lemma NoHumanNoHardware(ops: seq<Op>, n: nat, id: string)
    requires n <= |ops| && id in After(ops, n)
    requires forall k :: 0 <= k < n && ops[k].Transition? ==> !ops[k].human
    ensures After(ops, n)[id].state in {GENERATED, STATIC_VALIDATED, CONFORMANCE_VALIDATED, DEPRECATED}
  {
    hide After, Trail;
    PackagesFollowTrails(ops, n, id);
    var trail := Trail(ops, n, id);
    TrailByRank(trail);
    if trail != [] && NeedsHuman(trail[|trail| - 1].target) {
      assert trail[|trail| - 1].human;
      HumanMovesHadHuman(ops, n, id, |trail| - 1);
    }
  }

  lemma {:induction false} HumanMovesHadHuman(ops: seq<Op>, n: nat, id: string, i: nat)
    requires n <= |ops| && i < |Trail(ops, n, id)| && Trail(ops, n, id)[i].human
    ensures exists k :: 0 <= k < n && ops[k].Transition? && ops[k].human
  {
    hide Refusal, ConformanceAccepted, Apply;
    var op := ops[n - 1];
    if op.id == id && !op.Generate? && MoveMade(After(ops, n - 1), op).Some? && i == |Trail(ops, n, id)| - 1 {
      assert op.Transition?;
    } else {
      HumanMovesHadHuman(ops, n - 1, id, i);
    }
  }

  /** Between generates evidence is append-only and every move adds to the trail, at most five times. */
  lemma EvidenceIsAppendOnly(ops: seq<Op>, n: nat, id: string)
    requires n < |ops| && id in After(ops, n) && ops[n] != Generate(id)
    ensures id in After(ops, n + 1) && After(ops, n)[id].evidence <= After(ops, n + 1)[id].evidence
    ensures Trail(ops, n, id) <= Trail(ops, n + 1, id) && |Trail(ops, n + 1, id)| <= 5
  {
    hide Refusal, ConformanceAccepted, MoveOf;
    PackagesFollowTrails(ops, n + 1, id);
    TrailByRank(Trail(ops, n + 1, id));
  }
}

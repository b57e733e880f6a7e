// The registry as the program runs it: methods that load a package, check, and save it back.
module ModelRegistry {
  import opened Common
  import opened Lifecycle

  class Registry {
    var packages: Lifecycle.Registry

    constructor ()
      ensures packages == map[]
    {
      packages := map[];
    }

    /** A generated model starts over, whatever was stored under its id. */
    method GenerateModel(id: string)
      modifies this
      ensures packages == Apply(old(packages), Generate(id))
    {
      packages := packages[id := NEW_PACKAGE];
    }

    /** The move itself, with the flag only the conformance validation sets. */
    method MoveTo(id: string, target: ModelState, human: bool, evidence: seq<string>, signature: string,
                  conformanceChecked: bool, files: Files) returns (outcome: Outcome)
      modifies this
      ensures var refusal := Refusal(old(packages), id, target, human, evidence, signature, conformanceChecked, files);
              if refusal.Some? then outcome == refusal.value && packages == old(packages)
              else id in old(packages) && outcome == Updated(Moved(old(packages)[id], target, evidence, signature))
                   && packages == old(packages)[id := Moved(old(packages)[id], target, evidence, signature)]
    {
      if id !in packages {
        return KeyError;
      }
      var package := packages[id];
      if target !in Transitions(package.state) {
        return ValueError;
      }
      if target == HARDWARE_VALIDATED || target == PRODUCTION_APPROVED {
        if !human {
          return PermissionError;
        }
        if evidence == [] {
          return ValueError;
        }
      }
      if target == PRODUCTION_APPROVED && signature == "" {
        return ValueError;
      }
      if target == CONFORMANCE_VALIDATED && !conformanceChecked {
        return PermissionError;
      }
      for i := 0 to |evidence|
        invariant forall j :: 0 <= j < i ==> files.present(evidence[j])
      {
        if !files.present(evidence[i]) {
          return FileError;
        }
      }
      var updated := Moved(package, target, evidence, signature);
      packages := packages[id := updated];
      return Updated(updated);
    }

    method TransitionModel(id: string, target: ModelState, human: bool, evidence: seq<string>, signature: string, files: Files)
      returns (outcome: Outcome)
      modifies this
      ensures var op := Transition(id, target, human, evidence, signature, files);
              packages == Apply(old(packages), op) && (outcome.Updated? <==> MoveMade(old(packages), op).Some?)
      ensures match Refusal(old(packages), id, target, human, evidence, signature, false, files)
              case None => id in packages && outcome == Updated(packages[id])
              case Some(error) => outcome == error
    {
      outcome := MoveTo(id, target, human, evidence, signature, false, files);
    }

    method ValidateStatically(id: string, files: Files) returns (outcome: Outcome)
      modifies this
      ensures var op := StaticValidate(id, files);
              packages == Apply(old(packages), op) && (outcome.Updated? <==> MoveMade(old(packages), op).Some?)
      ensures outcome == KeyError <==> id !in old(packages)
      ensures outcome == FileError <==>
                id in old(packages) && old(packages)[id].state == GENERATED && old(packages)[id].hasIr && !files.present(files.irPath)
      ensures outcome.Updated? ==> id in packages && outcome == Updated(packages[id])
      ensures outcome != PermissionError
    {
      if id !in packages {
        return KeyError;
      }
      if packages[id].state != GENERATED || !packages[id].hasIr {
        return ValueError;
      }
      if !files.present(files.irPath) {
        return FileError;
      }
      if !files.irValid || !files.sourcesUnchanged {
        return ValueError;
      }
      outcome := MoveTo(id, STATIC_VALIDATED, false, [files.irPath], "", false, files);
    }

    /** One pass over the evidence, noting an independent file and a passing report wherever they are. */
    method ValidateConformance(id: string, evidence: seq<string>, files: Files) returns (outcome: Outcome)
      modifies this
      ensures var op := ConformanceValidate(id, evidence, files);
              packages == Apply(old(packages), op) && (outcome.Updated? <==> MoveMade(old(packages), op).Some?)
      ensures outcome == KeyError <==> id !in old(packages)
      ensures outcome == FileError <==>
                && id in old(packages) && old(packages)[id].state == STATIC_VALIDATED
                && exists i :: 0 <= i < |evidence| && !files.present(evidence[i]) && forall j :: 0 <= j < i ==> Usable(files, id, evidence[j])
      ensures outcome.Updated? ==> id in packages && outcome == Updated(packages[id])
      ensures outcome != PermissionError
    {
      if id !in packages {
        return KeyError;
      }
      if packages[id].state != STATIC_VALIDATED || evidence == [] {
        return ValueError;
      }
      var resolved: seq<string> := [];
      var independent, validatedReport := false, false;
      for i := 0 to |evidence|
        invariant packages == old(packages) && resolved == evidence[..i]
        invariant forall j :: 0 <= j < i ==> Usable(files, id, evidence[j])
        invariant independent <==> exists j :: 0 <= j < i && !files.insideModel(evidence[j])
        invariant validatedReport <==> exists j :: 0 <= j < i && Passing(files, evidence[j])
      {
        var item := evidence[i];
        if !files.present(item) {
          return FileError;
        }
        if files.directory(item) {
          return ValueError;
        }
        if !files.insideModel(item) {
          independent := true;
        }
        var report := files.report(item);
        if report.Some? {
          if report.value.modelId != id {
            return ValueError;
          }
          if AllChecks(report.value) {
            validatedReport := true;
          }
        }
        resolved := resolved + [item];
      }
      if !independent || !validatedReport {
        return ValueError;
      }
      assert resolved == evidence;
      outcome := MoveTo(id, CONFORMANCE_VALIDATED, false, resolved, "", true, files);
    }
  }
}

// What the solver is given and what the cache key tells apart: the key sorts the inputs and writes
// their values as JSON, the solver gets one variable per upper-cased name with the value's text.
module SolverInputs {
  import opened Common
  import opened SolverCache

  /** A value with its two spellings: as JSON with sorted keys, and as the text that is handed over. */
  datatype InputValue = InputValue(json: string, text: string)

  datatype Input = Input(name: string, value: InputValue)

  /** A dictionary in insertion order; setting a name again keeps its place. */
  type Dictionary = seq<Input>

  predicate UniqueNames(d: Dictionary)
  {
    forall i, j :: 0 <= i < j < |d| ==> d[i].name != d[j].name
  }

  function UpperChar(c: char): char
  {
    if 'a' <= c <= 'z' then (c as int - 32) as char else c
  }

  function Upper(name: string): (r: string)
    ensures |r| == |name|
  {
    seq(|name|, i requires 0 <= i < |name| => UpperChar(name[i]))
  }

  /** What the key keeps of a dictionary. */
  function KeyInputs(d: Dictionary): Inputs
  {
    if d == [] then map[]
    else
      var last := d[|d| - 1];
      KeyInputs(d[..|d| - 1])[last.name := last.value.json]
  }

  /** What the solver gets of it: of names that differ in case only, the later one. */
  function Environment(d: Dictionary): map<string, string>
  {
    if d == [] then map[]
    else
      var last := d[|d| - 1];
      Environment(d[..|d| - 1])[Upper(last.name) := last.value.text]
  }

  /** Entry i is the last of those that become the variable u. */
  ghost predicate Sets(d: Dictionary, i: int, u: string)
  {
    0 <= i < |d| && Upper(d[i].name) == u && forall j :: i < j < |d| ==> Upper(d[j].name) != u
  }

  lemma {:induction false} EnvironmentIs(d: Dictionary, u: string)
    ensures u in Environment(d) <==> exists i :: Sets(d, i, u)
    ensures forall i :: Sets(d, i, u) ==> u in Environment(d) && Environment(d)[u] == d[i].value.text
  {
    hide Upper;
    if d == [] {
    } else {
      var front, n := d[..|d| - 1], |d| - 1;
      EnvironmentIs(front, u);
      if Upper(d[n].name) == u {
        assert Sets(d, n, u);
      } else {
        forall i
          ensures Sets(d, i, u) <==> Sets(front, i, u)
        {
        }
      }
    }
  }

  lemma {:induction false} KeyInputsAre(d: Dictionary, i: nat)
    requires UniqueNames(d) && i < |d|
    ensures d[i].name in KeyInputs(d) && KeyInputs(d)[d[i].name] == d[i].value.json
  {
    var front := d[..|d| - 1];
    if i < |d| - 1 {
      KeyInputsAre(front, i);
    }
  }

  lemma {:induction false} KeyInputsFrom(d: Dictionary, name: string)
    requires name in KeyInputs(d)
    ensures exists i: nat :: i < |d| && d[i].name == name
  {
    var front := d[..|d| - 1];
    if d[|d| - 1].name != name {
      KeyInputsFrom(front, name);
      var i: nat :| i < |front| && front[i].name == name;
      assert d[i].name == name;
    }
  }

  // ---- When the key tells environments apart -------------------------------------------------------------

  /** Two dictionaries set variable u to the same text, or neither sets it. */
  ghost predicate SameVariable(a: Dictionary, b: Dictionary, u: string)
  {
    && ((exists i :: Sets(a, i, u)) <==> exists j :: Sets(b, j, u))
    && forall i, j :: Sets(a, i, u) && Sets(b, j, u) ==> a[i].value.text == b[j].value.text
  }

  /** The solver is given the same exactly when, for every variable, the last entries that become it have the same text. */
  lemma SameEnvironmentExactly(a: Dictionary, b: Dictionary)
    ensures Environment(a) == Environment(b) <==> forall u :: SameVariable(a, b, u)
  {
    hide Environment, Sets;
    forall u
      ensures SameVariable(a, b, u) <==>
        (u in Environment(a) <==> u in Environment(b)) && (u in Environment(a) && u in Environment(b) ==> Environment(a)[u] == Environment(b)[u])
    {
      EnvironmentIs(a, u);
      EnvironmentIs(b, u);
    }
  }

  /** Names that stay different in upper case, and values whose text follows from their JSON, as that of every scalar does. */
  ghost predicate Plain(d: Dictionary, textOf: string -> string)
  {
    && UniqueNames(d)
    && (forall i, j :: 0 <= i < j < |d| ==> Upper(d[i].name) != Upper(d[j].name))
    && (forall i :: 0 <= i < |d| ==> d[i].value.text == textOf(d[i].value.json))
  }

  /** Entry i of one dictionary is an entry of another one with the same key. */
  lemma EntryElsewhere(a: Dictionary, b: Dictionary, i: nat) returns (j: nat)
    requires UniqueNames(a) && UniqueNames(b) && KeyInputs(a) == KeyInputs(b) && i < |a|
    ensures j < |b| && b[j].name == a[i].name && b[j].value.json == a[i].value.json
  {
    KeyInputsAre(a, i);
    KeyInputsFrom(b, a[i].name);
    j :| j < |b| && b[j].name == a[i].name;
    KeyInputsAre(b, j);
  }

  /** Plain dictionaries with the same key give the solver the same. */
  lemma PlainKeysTellApart(a: Dictionary, b: Dictionary, textOf: string -> string)
    requires Plain(a, textOf) && Plain(b, textOf) && KeyInputs(a) == KeyInputs(b)
    ensures Environment(a) == Environment(b)
  {
    hide Environment, KeyInputs, Upper;
    forall u
      ensures SameVariable(a, b, u)
    {
      PlainVariable(a, b, textOf, u);
      PlainVariable(b, a, textOf, u);
    }
    SameEnvironmentExactly(a, b);
  }

  lemma PlainVariable(a: Dictionary, b: Dictionary, textOf: string -> string, u: string)
    requires Plain(a, textOf) && Plain(b, textOf) && KeyInputs(a) == KeyInputs(b)
    ensures (exists i :: Sets(a, i, u)) ==> exists j :: Sets(b, j, u)
    ensures forall i, j :: Sets(a, i, u) && Sets(b, j, u) ==> a[i].value.text == b[j].value.text
  {
    hide KeyInputs, Upper;
    forall i | Sets(a, i, u)
      ensures exists j :: Sets(b, j, u) && b[j].value.text == a[i].value.text
    {
      var j := EntryElsewhere(a, b, i);
      assert Sets(b, j, u);
    }
    forall i, j | Sets(a, i, u) && Sets(b, j, u)
      ensures a[i].value.text == b[j].value.text
    {
      var k :| Sets(b, k, u) && b[k].value.text == a[i].value.text;
      assert k == j;
    }
  }

  // ---- A cache over dictionaries ---------------------------------------------------------------------------

  /** The solver as it is: a function of the model and of the variables it is given. */
  type Octave = (string, map<string, string>) -> Option<Metrics>

  function DictionaryKey(model: string, d: Dictionary): Key
  {
    Key(model, KeyInputs(d))
  }

  /**
    A step on a dictionary whose key was cached by a step on another one answers with the other one's
    solve: a fresh solve of its own if and only if the solver says the same of both.
   */
  lemma SharedKeyAnswersExactly(octave: Octave, model: string, a: Dictionary, b: Dictionary, solve: Solver,
                                memory: map<Key, Metrics>, disk: map<Key, Metrics>, runs: seq<Key>)
    requires KeyInputs(a) == KeyInputs(b) && DictionaryKey(model, a) in memory
    requires octave(model, Environment(a)) == Some(memory[DictionaryKey(model, a)])
    ensures var reply := LookUp(solve, memory, disk, runs, DictionaryKey(model, b)).reply;
            reply.Solved? && (octave(model, Environment(b)) == Some(reply.metrics) <==> octave(model, Environment(b)) == octave(model, Environment(a)))
  {
  }

  /** The dictionaries a run may use: plain ones, or any others that the solver does not tell apart. */
  ghost predicate KeyDecides(octave: Octave, used: iset<Dictionary>)
  {
    forall model, a, b :: a in used && b in used && KeyInputs(a) == KeyInputs(b)
      ==> octave(model, Environment(a)) == octave(model, Environment(b))
  }

  ghost predicate Answers(octave: Octave, used: iset<Dictionary>, solve: Solver)
  {
    forall model, d :: d in used ==> solve(DictionaryKey(model, d)) == octave(model, Environment(d))
  }

  ghost function SolveByKey(octave: Octave, used: iset<Dictionary>): Solver
  {
    (k: Key) => SolveOne(octave, used, k)
  }

  ghost function SolveOne(octave: Octave, used: iset<Dictionary>, k: Key): Option<Metrics>
  {
    if d :| d in used && KeyInputs(d) == k.inputs then octave(k.model, Environment(d)) else None
  }

  /** There is a solver of keys, as the cache assumes, exactly when the key decides what the solver says. */
  lemma CacheSolverExistsExactly(octave: Octave, used: iset<Dictionary>)
    ensures (exists solve: Solver :: Answers(octave, used, solve)) <==> KeyDecides(octave, used)
  {
    hide KeyInputs, Environment;
    if KeyDecides(octave, used) {
      var solve := SolveByKey(octave, used);
      forall model, d | d in used
        ensures solve(DictionaryKey(model, d)) == octave(model, Environment(d))
      {
        assert d in used && KeyInputs(d) == DictionaryKey(model, d).inputs;
      }
      assert Answers(octave, used, solve);
    }
    if solve: Solver :| Answers(octave, used, solve) {
      forall model, a, b | a in used && b in used && KeyInputs(a) == KeyInputs(b)
        ensures octave(model, Environment(a)) == octave(model, Environment(b))
      {
        assert DictionaryKey(model, a) == DictionaryKey(model, b);
      }
    }
  }

  /** The key decides for plain dictionaries. */
  lemma PlainKeysDecide(octave: Octave, used: iset<Dictionary>, textOf: string -> string)
    requires forall d <- used :: Plain(d, textOf)
    ensures KeyDecides(octave, used)
  {
    hide KeyInputs, Environment, Plain;
    forall model, a, b | a in used && b in used && KeyInputs(a) == KeyInputs(b)
      ensures octave(model, Environment(a)) == octave(model, Environment(b))
    {
      PlainKeysTellApart(a, b, textOf);
    }
  }

  /** Names that differ in case only: set in two orders, they share a key and reach the solver differently. */
  lemma OrderReachesSolver()
    ensures var one, two := Input("a", InputValue("1", "1")), Input("A", InputValue("2", "2"));
            && KeyInputs([one, two]) == KeyInputs([two, one])
            && Environment([one, two]) == map["A" := "2"] && Environment([two, one]) == map["A" := "1"]
  {
    var one, two := Input("a", InputValue("1", "1")), Input("A", InputValue("2", "2"));
    assert Upper("a") == "A" && Upper("A") == "A";
    assert [one, two][..1] == [one] && [two, one][..1] == [two] && [one][..0] == [] && [two][..0] == [];
    assert Environment([one]) == map["A" := "1"] && Environment([two]) == map["A" := "2"];
  }
}

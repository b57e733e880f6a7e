// Small helpers shared by the models: optional values, projections of a log,
// and the total order on text that the databases sort by.
module Common {

  datatype Option<+T> = None | Some(value: T)

  // ---- Projections of a log -------------------------------------------------

  /** What the entries of a log contribute, in log order, when entry a contributes f(a). */
  function Project<A, B>(f: A -> seq<B>, log: seq<A>): seq<B>
  {
    if log == [] then [] else Project(f, log[..|log| - 1]) + f(log[|log| - 1])
  }

  lemma {:induction false} ProjectConcat<A, B>(f: A -> seq<B>, s: seq<A>, t: seq<A>)
    ensures Project(f, s + t) == Project(f, s) + Project(f, t)
  {
    if t == [] {
      assert s + t == s;
    } else {
      var front := t[..|t| - 1];
      assert (s + t)[..|s + t| - 1] == s + front;
      ProjectConcat(f, s, front);
    }
  }

  lemma {:induction false} ProjectNothing<A, B>(f: A -> seq<B>, s: seq<A>)
    requires forall i :: 0 <= i < |s| ==> f(s[i]) == []
    ensures Project(f, s) == []
  {
    if s == [] {
    } else {
      ProjectNothing(f, s[..|s| - 1]);
    }
  }

  lemma ProjectOne<A, B>(f: A -> seq<B>, a: A)
    ensures Project(f, [a]) == f(a)
  {
    assert [a][..0] == [];
  }

  /** What an entry contributes appears in the projection. */
  lemma {:induction false} ProjectMember<A, B>(f: A -> seq<B>, s: seq<A>, i: nat)
    requires i < |s|
    ensures forall b <- f(s[i]) :: b in Project(f, s)
  {
    if i < |s| - 1 {
      ProjectMember(f, s[..|s| - 1], i);
    }
  }

  // ---- Sequences and sets -------------------------------------------------------

  ghost predicate Distinct<T>(s: seq<T>)
  {
    forall i, j :: 0 <= i < j < |s| ==> s[i] != s[j]
  }

  /** The element of a set that comes before all others. */
  ghost predicate IsFirst<T(!new)>(s: set<T>, before: (T, T) -> bool, m: T)
  {
    m in s && forall k <- s :: k == m || before(m, k)
  }

  /** A set that is not empty has a first element in any total order on it. */
  lemma {:induction false} FirstExists<T(!new)>(s: set<T>, before: (T, T) -> bool)
    requires s != {}
    requires forall a <- s, b <- s :: a == b || before(a, b) || before(b, a)
    requires forall a <- s, b <- s, c <- s :: before(a, b) && before(b, c) ==> before(a, c)
    ensures exists m :: IsFirst(s, before, m)
    decreases s
  {
    var x :| x in s;
    var rest := s - {x};
    if rest == {} {
      assert s == {x};
      assert IsFirst(s, before, x);
    } else {
      FirstExists(rest, before);
      var m :| IsFirst(rest, before, m);
      assert IsFirst(s, before, if before(m, x) then m else x);
    }
  }

  // ---- Text order -------------------------------------------------------------

  /** Code-point order on text, the order of a binary collation. */
  predicate TextLess(a: string, b: string)
  {
    b != [] && (a == [] || a[0] < b[0] || (a[0] == b[0] && TextLess(a[1..], b[1..])))
  }

  lemma {:induction false} TextLessTransitive(a: string, b: string, c: string)
    requires TextLess(a, b) && TextLess(b, c)
    ensures TextLess(a, c)
  {
    if a != [] && a[0] == b[0] == c[0] {
      TextLessTransitive(a[1..], b[1..], c[1..]);
    }
  }

  lemma {:induction false} TextLessIrreflexive(a: string)
    ensures !TextLess(a, a)
  {
    if a == [] {
    } else {
      TextLessIrreflexive(a[1..]);
    }
  }

  lemma {:induction false} TextLessTotal(a: string, b: string)
    ensures a == b || TextLess(a, b) || TextLess(b, a)
  {
    if a != [] && b != [] && a[0] == b[0] {
      TextLessTotal(a[1..], b[1..]);
      if a[1..] == b[1..] {
        assert a == [a[0]] + a[1..] && b == [b[0]] + b[1..];
      }
    }
  }
}

// The firmware's ring buffer against a bounded first-in first-out queue.
module RingBuffer {

  type Uint8 = x: int | 0 <= x < 256

  // Eight slots, one of which stays free to tell a full ring from an empty one.
  const SLOTS := 8
  const CAPACITY := 7

  /** What a push does to the queued values, and the code it returns. */
  function PushSpec(faulty: bool, queue: seq<Uint8>, value: Uint8): (seq<Uint8>, int)
  {
    if |queue| < CAPACITY then (queue + [value], 0)
    else if faulty then (queue[1..] + [value], 0)
    else (queue, -1)
  }

  /** The low three bits of an index. */
  function Wrap(x: nat): (r: nat)
    ensures r < SLOTS
    ensures x < SLOTS ==> r == x
    ensures SLOTS <= x < 2 * SLOTS ==> r == x - SLOTS
  {
    x % SLOTS
  }

  /** n slots from tail on, around the end. */
  function Window(slots: seq<Uint8>, tail: nat, n: nat): (r: seq<Uint8>)
    requires |slots| == SLOTS
    ensures |r| == n
    ensures forall i :: 0 <= i < n ==> r[i] == slots[Wrap(tail + i)]
  {
    seq(n, i requires 0 <= i < n => slots[Wrap(tail + i)])
  }

  lemma WindowGrows(slots: seq<Uint8>, tail: nat, n: nat, value: Uint8)
    requires |slots| == SLOTS && tail < SLOTS && n < SLOTS
    ensures Window(slots[Wrap(tail + n) := value], tail, n + 1) == Window(slots, tail, n) + [value]
  {
    hide Wrap;
    var grown := Window(slots[Wrap(tail + n) := value], tail, n + 1);
    forall i | 0 <= i < n
      ensures grown[i] == Window(slots, tail, n)[i]
    {
    }
  }

  lemma WindowDropsOldest(slots: seq<Uint8>, tail: nat, n: nat)
    requires |slots| == SLOTS && tail < SLOTS && n < SLOTS
    ensures Window(slots, Wrap(tail + 1), n) == Window(slots, tail, n + 1)[1..]
  {
    hide Wrap;
    var kept, all := Window(slots, Wrap(tail + 1), n), Window(slots, tail, n + 1);
    forall i | 0 <= i < n
      ensures kept[i] == all[1..][i]
    {
      assert Wrap(Wrap(tail + 1) + i) == Wrap(tail + (i + 1));
    }
  }

  class Ring {
    const faulty: bool
    const buffer: array<Uint8>
    var head: nat
    var tail: nat

    constructor (faulty: bool)
      ensures Valid() && fresh(buffer) && this.faulty == faulty && head == tail == 0 && Contents() == []
    {
      this.faulty := faulty;
      buffer := new Uint8[SLOTS](_ => 0);
      head, tail := 0, 0;
    }

    ghost predicate Valid()
      reads this
    {
      buffer.Length == SLOTS && head < SLOTS && tail < SLOTS
    }

    /** How many slots lie from tail up to head, around the end. */
    function Length(): (n: nat)
      requires Valid()
      reads this
      ensures n <= CAPACITY
    {
      if head >= tail then head - tail else head + SLOTS - tail
    }

    /** The queued values, oldest first. */
    function Contents(): (s: seq<Uint8>)
      requires Valid()
      reads this, buffer
      ensures |s| == Length()
    {
      Window(buffer[..], tail, Length())
    }

    /** From any valid head and tail a push is a push on the bounded queue; a rejected one changes nothing. */
    method Push(value: Uint8) returns (code: int)
      requires Valid()
      modifies this`head, this`tail, buffer
      ensures Valid() && (Contents(), code) == PushSpec(faulty, old(Contents()), value)
      ensures code == if faulty || old(Length()) < 7 then 0 else -1
      ensures code == 0 ==> Contents() == (if old(Length()) < 7 then old(Contents()) else old(Contents())[1..]) + [value]
      ensures code == 0 ==> head == Wrap(old(head) + 1)
      ensures code != 0 ==> head == old(head) && tail == old(tail) && buffer[..] == old(buffer[..])
    {
      hide Window;
      ghost var slots, n, start := buffer[..], Length(), tail;
      var next := Wrap(head + 1);
      if next == tail {
        if !faulty {
          return -1;
        }
        tail := Wrap(tail + 1);
        WindowDropsOldest(slots, start, n - 1);
        n := n - 1;
      }
      assert head == Wrap(tail + n);
      WindowGrows(slots, tail, n, value);
      buffer[head] := value;
      assert buffer[..] == slots[head := value];
      head := next;
      return 0;
    }
  }

  /** The queue after a run of pushes. */
  function PushAll(faulty: bool, queue: seq<Uint8>, values: seq<Uint8>): seq<Uint8>
  {
    if values == [] then queue
    else PushSpec(faulty, PushAll(faulty, queue, values[..|values| - 1]), values[|values| - 1]).0
  }

  function Min(a: nat, b: nat): nat
  {
    if a < b then a else b
  }

  /**
    However many values are pushed: the fixed ring keeps the first seven of what was queued and
    pushed, in order; the faulty ring keeps the last seven.
   */
  lemma {:induction false} KeepsFirstOrLast(faulty: bool, queue: seq<Uint8>, values: seq<Uint8>)
    requires |queue| <= CAPACITY
    ensures var all := queue + values;
            var kept := if |all| < 7 then |all| else 7;
            PushAll(faulty, queue, values) == if faulty then all[|all| - kept..] else all[..kept]
  {
    if values == [] {
      assert queue + values == queue;
    } else {
      var front := values[..|values| - 1];
      KeepsFirstOrLast(faulty, queue, front);
      assert queue + values == (queue + front) + [values[|values| - 1]];
    }
  }

  /** The fixed ring accepts exactly the pushes that find fewer than seven values; the faulty one accepts all. */
  lemma PushAccepted(faulty: bool, queue: seq<Uint8>, values: seq<Uint8>, value: Uint8)
    requires |queue| <= CAPACITY
    ensures PushSpec(faulty, PushAll(faulty, queue, values), value).1 == 0 <==> faulty || |queue| + |values| < 7
  {
    KeepsFirstOrLast(faulty, queue, values);
  }

  /** A run of pushes on one ring. */
  method PushEach(ring: Ring, values: seq<Uint8>)
    requires ring.Valid()
    modifies ring`head, ring`tail, ring.buffer
    ensures ring.Valid() && ring.Contents() == PushAll(ring.faulty, old(ring.Contents()), values)
  {
    for i := 0 to |values|
      invariant ring.Valid() && ring.Contents() == PushAll(ring.faulty, old(ring.Contents()), values[..i])
    {
      assert values[..i + 1][..i] == values[..i];
      var _ := ring.Push(values[i]);
    }
    assert values[..|values|] == values;
  }

  /** The case fails exactly in the faulty build. */
  method RingFailure(faulty: bool) returns (failed: bool)
    ensures failed == faulty
  {
    var ring := new Ring(faulty);
    for value := 0 to 8
      invariant ring.Valid() && fresh(ring) && fresh(ring.buffer) && ring.faulty == faulty
      invariant ring.head == Wrap(value) && |ring.Contents()| == Min(value, CAPACITY)
      invariant value == 8 ==> faulty
    {
      var code := ring.Push(value);
      if code != 0 {
        return false;
      }
    }
    return ring.tail != 0;
  }
}

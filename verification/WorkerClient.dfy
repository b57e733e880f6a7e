// The client half of the lease protocol: what a worker posts while it executes one leased task.
module WorkerClient {
  import opened Common

  /** How the control plane answers a post; Refused is status 422, Broken any other failure. */
  datatype HttpReply = Accepted | Refused | Broken

  datatype Verdict = Succeeded | Failed

  datatype Post = Beat(reply: HttpReply) | Completion(verdict: Verdict)

  /** How execute ends when it does not simply return. */
  datatype Exit = Returned | Raised

  /**
    What a worker cannot foresee: the answer to its n-th heartbeat, how many times it polls before the
    dispatched work is done, whether that work returns normally, and the answer to its completion.
   */
  datatype Outside = Outside(beats: nat -> HttpReply, polls: nat, workOk: bool, completion: HttpReply)

  datatype Polling = Polling(posts: seq<Post>, cancelled: bool, broken: bool)

  /** The heartbeats of the first n polls; a broken one ends the polling, a refused one does not. */
  function PollUpTo(o: Outside, n: nat): Polling
  {
    if n == 0 then Polling([], false, false)
    else
      var before := PollUpTo(o, n - 1);
      if before.broken then before
      else
        var reply := o.beats(n);
        Polling(before.posts + [Beat(reply)], before.cancelled || reply == Refused, reply == Broken)
  }

  function Transcript(hasToken: bool, o: Outside): (seq<Post>, Exit)
  {
    if !hasToken then ([], Raised)
    else if o.beats(0) != Accepted then ([Beat(o.beats(0))], Raised)
    else
      var polling := PollUpTo(o, o.polls);
      var posts := [Beat(Accepted)] + polling.posts;
      if polling.cancelled then (posts, Returned)
      else
        var verdict := if polling.broken || !o.workOk then Failed else Succeeded;
        (posts + [Completion(verdict)], if o.completion == Accepted then Returned else Raised)
  }

  class OutboundWorker {
    var posts: seq<Post>

    method Execute(hasToken: bool, o: Outside) returns (exit: Exit)
      modifies this
      ensures posts == old(posts) + Transcript(hasToken, o).0
      ensures exit == Transcript(hasToken, o).1
    {
      if !hasToken {
        return Raised;
      }
      posts := posts + [Beat(o.beats(0))];
      if o.beats(0) != Accepted {
        return Raised;
      }
      var cancelled, broken := false, false;
      var polled := 0;
      while polled < o.polls && !broken
        invariant 0 <= polled <= o.polls
        invariant PollUpTo(o, polled).cancelled == cancelled && PollUpTo(o, polled).broken == broken
        invariant posts == old(posts) + ([Beat(Accepted)] + PollUpTo(o, polled).posts)
      {
        polled := polled + 1;
        var reply := o.beats(polled);
        posts := posts + [Beat(reply)];
        match reply
        case Accepted =>
        case Refused => cancelled := true;
        case Broken => broken := true;
      }
      BrokenStops(o, polled, o.polls);
      if cancelled {
        return Returned;
      }
      var verdict := if broken || !o.workOk then Failed else Succeeded;
      posts := posts + [Completion(verdict)];
      exit := if o.completion == Accepted then Returned else Raised;
    }
  }

  lemma {:induction false} BrokenStops(o: Outside, i: nat, n: nat)
    requires i <= n && (i < n ==> PollUpTo(o, i).broken)
    ensures PollUpTo(o, n) == PollUpTo(o, i)
  {
    if i == n {
    } else {
      BrokenStops(o, i, n - 1);
    }
  }

  /** What the heartbeats of some polls say: all are heartbeats, and the two flags summarise them. */
  ghost predicate Summarised(p: Polling)
  {
    && (forall i :: 0 <= i < |p.posts| ==> p.posts[i].Beat?)
    && (p.cancelled <==> Beat(Refused) in p.posts)
    && (!p.cancelled && !p.broken <==> forall i :: 0 <= i < |p.posts| ==> p.posts[i] == Beat(Accepted))
  }

  lemma {:induction false} PollingFacts(o: Outside, n: nat)
    ensures Summarised(PollUpTo(o, n))
  {
    if n == 0 {
    } else {
      PollingFacts(o, n - 1);
      var before, after := PollUpTo(o, n - 1), PollUpTo(o, n);
      if !before.broken {
        assert after.posts[|before.posts|] == Beat(o.beats(n));
        assert forall i :: 0 <= i < |before.posts| ==> after.posts[i] == before.posts[i];
      }
    }
  }

  ghost predicate Completed(posts: seq<Post>)
  {
    |posts| > 0 && posts[|posts| - 1].Completion?
  }

  ghost predicate AllAccepted(beats: seq<Post>)
  {
    forall i :: 0 <= i < |beats| ==> beats[i] == Beat(Accepted)
  }

  lemma WithoutCompletion(p: Polling)
    requires Summarised(p) && p.cancelled
    ensures var posts := [Beat(Accepted)] + p.posts;
            (forall i :: 0 <= i < |posts| ==> posts[i].Beat?) && Beat(Refused) in posts
  {
    var posts := [Beat(Accepted)] + p.posts;
    var i :| 0 <= i < |p.posts| && p.posts[i] == Beat(Refused);
    assert posts[i + 1] == Beat(Refused);
  }

  lemma WithCompletion(p: Polling, verdict: Verdict)
    requires Summarised(p) && !p.cancelled
    ensures var posts := [Beat(Accepted)] + p.posts + [Completion(verdict)];
            && (forall i :: 0 <= i < |posts| - 1 ==> posts[i].Beat?) && Beat(Refused) !in posts
            && (AllAccepted(posts[..|posts| - 1]) <==> !p.broken)
  {
    var posts := [Beat(Accepted)] + p.posts + [Completion(verdict)];
    var beats := posts[..|posts| - 1];
    assert beats == [Beat(Accepted)] + p.posts;
    if AllAccepted(beats) {
      assert forall i :: 0 <= i < |p.posts| ==> p.posts[i] == beats[i + 1];
    }
  }

  /**
    A completion is posted exactly when the task had a token, the first heartbeat was accepted and no
    heartbeat was refused; it is posted once, last, and reports success only when the work returned
    and every heartbeat was accepted.
   */
  lemma RefusedNeverCompletes(hasToken: bool, o: Outside)
    ensures var posts := Transcript(hasToken, o).0;
            && (Completed(posts) <==> hasToken && o.beats(0) == Accepted && Beat(Refused) !in posts)
            && (forall i :: 0 <= i < |posts| - 1 ==> posts[i].Beat?)
            && (Completed(posts) ==>
                  (posts[|posts| - 1] == Completion(Succeeded) <==> o.workOk && AllAccepted(posts[..|posts| - 1])))
  {
    hide PollUpTo, Summarised, AllAccepted;
    if hasToken && o.beats(0) == Accepted {
      var p := PollUpTo(o, o.polls);
      PollingFacts(o, o.polls);
      if p.cancelled {
        WithoutCompletion(p);
      } else {
        WithCompletion(p, if p.broken || !o.workOk then Failed else Succeeded);
      }
    }
  }

  // ---- How many heartbeats ------------------------------------------------------------------------------

  /** The poll after which the polling ends: the first whose heartbeat breaks, or else the last. */
  ghost predicate LastPoll(o: Outside, m: nat)
  {
    && m <= o.polls && (forall k :: 1 <= k < m ==> o.beats(k) != Broken)
    && (m == o.polls || (m >= 1 && o.beats(m) == Broken))
  }

  ghost predicate RefusedBy(o: Outside, m: nat)
  {
    exists k :: 1 <= k <= m && o.beats(k) == Refused
  }

  /** The posts are the heartbeat before the work and one for each of the polls 1 to m, with their answers, and then the rest. */
  ghost predicate BeatsThen(posts: seq<Post>, o: Outside, m: nat, rest: seq<Post>)
  {
    && |posts| == m + 1 + |rest| && posts[m + 1..] == rest
    && forall k :: 0 <= k <= m ==> posts[k] == Beat(o.beats(k))
  }

  lemma {:induction false} PollsAre(o: Outside, m: nat)
    requires forall k :: 1 <= k < m ==> o.beats(k) != Broken
    ensures var p := PollUpTo(o, m);
            && |p.posts| == m && (forall k :: 1 <= k <= m ==> p.posts[k - 1] == Beat(o.beats(k)))
            && (p.cancelled <==> RefusedBy(o, m)) && (p.broken <==> m >= 1 && o.beats(m) == Broken)
  {
    if m == 0 {
    } else {
      PollsAre(o, m - 1);
      if RefusedBy(o, m) {
        assert RefusedBy(o, m - 1) || o.beats(m) == Refused;
      }
    }
  }

  lemma {:induction false} LastPollExists(o: Outside, n: nat) returns (m: nat)
    requires n <= o.polls && (forall k :: 1 <= k <= n ==> o.beats(k) != Broken)
    ensures LastPoll(o, m)
    decreases o.polls - n
  {
    if n == o.polls || o.beats(n + 1) == Broken {
      m := if n == o.polls then n else n + 1;
    } else {
      m := LastPollExists(o, n + 1);
    }
  }

  lemma TranscriptAfterPolls(o: Outside, m: nat)
    requires o.beats(0) == Accepted && LastPoll(o, m)
    ensures var p := PollUpTo(o, m);
            var verdict := if p.broken || !o.workOk then Failed else Succeeded;
            Transcript(true, o) ==
            if p.cancelled then ([Beat(Accepted)] + p.posts, Returned)
            else ([Beat(Accepted)] + p.posts + [Completion(verdict)], if o.completion == Accepted then Returned else Raised)
  {
    PollsAre(o, m);
    BrokenStops(o, m, o.polls);
  }

  lemma BeatsAre(o: Outside, m: nat, beats: seq<Post>, rest: seq<Post>)
    requires o.beats(0) == Accepted && |beats| == m && forall k :: 1 <= k <= m ==> beats[k - 1] == Beat(o.beats(k))
    ensures BeatsThen([Beat(Accepted)] + beats + rest, o, m, rest)
  {
    var first := [Beat(Accepted)] + beats;
    assert first[0] == Beat(o.beats(0)) && forall k :: 1 <= k <= m ==> first[k] == beats[k - 1];
    assert (first + rest)[m + 1..] == rest;
  }

  /**
    One heartbeat is posted before the work and one for every poll up to the first that breaks. After a
    refused one nothing is posted and the call returns; otherwise one completion, of a success if the
    work returned and no heartbeat broke, and the call returns if that was accepted.
   */
  lemma HeartbeatsExactly(o: Outside)
    ensures Transcript(false, o) == ([], Raised)
    ensures o.beats(0) != Accepted ==> Transcript(true, o) == ([Beat(o.beats(0))], Raised)
    ensures o.beats(0) == Accepted ==>
              exists m :: LastPoll(o, m)
                          && if RefusedBy(o, m) then BeatsThen(Transcript(true, o).0, o, m, []) && Transcript(true, o).1 == Returned
                             else && BeatsThen(Transcript(true, o).0, o, m,
                                               [Completion(if o.workOk && (m == 0 || o.beats(m) == Accepted) then Succeeded else Failed)])
                                  && (Transcript(true, o).1 == Returned <==> o.completion == Accepted)
  {
    if o.beats(0) == Accepted {
      hide PollUpTo, LastPoll, BeatsThen, RefusedBy;
      var m := LastPollExists(o, 0);
      TranscriptAfterPolls(o, m);
      HeartbeatsUpTo(o, m);
      var beats := [Beat(Accepted)] + PollUpTo(o, m).posts;
      assert beats + [] == beats;
    }
  }

  lemma HeartbeatsUpTo(o: Outside, m: nat)
    requires o.beats(0) == Accepted && LastPoll(o, m)
    ensures var p := PollUpTo(o, m);
            && (p.cancelled <==> RefusedBy(o, m))
            && (!p.cancelled ==> (p.broken <==> !(m == 0 || o.beats(m) == Accepted)))
            && forall rest :: BeatsThen([Beat(Accepted)] + p.posts + rest, o, m, rest)
  {
    hide BeatsThen, PollUpTo;
    PollsAre(o, m);
    assert m >= 1 && o.beats(m) == Refused ==> RefusedBy(o, m);
    forall rest
      ensures BeatsThen([Beat(Accepted)] + PollUpTo(o, m).posts + rest, o, m, rest)
    {
      BeatsAre(o, m, PollUpTo(o, m).posts, rest);
    }
  }
}

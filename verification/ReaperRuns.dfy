/**
  The reaper loop of internal/protocol/handler_batch.go while everybody else keeps working: between
  the pick, the two lock sections of the forced settlement and the next pick, other goroutines take
  any steps on the same server.
*/
module ReaperRuns {
  import M = Manager
  import H = Handler
  import opened ServerRuns

  /** One round: the number picked, what happens around its two lock sections, and what it settles with. */
  datatype Round = Round(n: nat, outcome: M.Outcome, bytes: int,
                         picked: seq<Action>, checked: seq<Action>, settled: seq<Action>)

  ghost function StuckNow(s: Server, cutoff: int): set<nat> { H.Stuck(s.mgr.inflight, cutoff).Keys }

  /** The clock does not run backwards: later admissions are younger than the cutoff. */
  ghost predicate Later(cutoff: int, acts: seq<Action>) {
    forall i :: 0 <= i < |acts| && acts[i].DoAdmit? ==> acts[i].now >= cutoff
  }

  /** The second lock section runs only if the first found the slot and made a grant. */
  ghost function Play(s: Server, r: Round): Server {
    var s1 := Run(s, r.picked);
    var s2 := Run(Apply(s1, DoForceCheck(r.n)), r.checked);
    var s3 := if r.n in s1.mgr.inflight then Apply(s2, DoSettle(|s1.grants|, r.outcome, r.bytes)) else s2;
    Run(s3, r.settled)
  }

  ghost function PlayAll(s: Server, rs: seq<Round>): Server
    decreases |rs|
  {
    if rs == [] then s else PlayAll(Play(s, rs[0]), rs[1..])
  }

  /** A run of the loop: every round picks the smallest number that is stuck at that moment. */
  ghost predicate Reaping(s: Server, cutoff: int, rs: seq<Round>)
    decreases |rs|
  {
    rs == [] ||
    (&& H.Oldest(s.mgr.inflight, cutoff, rs[0].n)
     && Later(cutoff, rs[0].picked) && Later(cutoff, rs[0].checked) && Later(cutoff, rs[0].settled)
     && Reaping(Play(s, rs[0]), cutoff, rs[1..]))
  }

  /** Nothing becomes stuck that was not. */
  lemma StepStuck(s: Server, a: Action, cutoff: int)
    requires a.DoAdmit? ==> a.now >= cutoff
    ensures StuckNow(Apply(s, a), cutoff) <= StuckNow(s, cutoff)
  {
  }

  /** A grant that is done has no stuck slot. */
  ghost predicate DoneIsClear(s: Server, g: nat, cutoff: int) {
    g < |s.grants| && (s.grants[g].done ==> s.grants[g].seqNo !in StuckNow(s, cutoff))
  }

  lemma StepClear(s: Server, a: Action, g: nat, cutoff: int)
    requires DoneIsClear(s, g, cutoff) && (a.DoAdmit? ==> a.now >= cutoff)
    ensures DoneIsClear(Apply(s, a), g, cutoff) && Apply(s, a).grants[g].seqNo == s.grants[g].seqNo
  {
    StepStuck(s, a, cutoff);
  }

  lemma {:induction false} RunStuck(s: Server, acts: seq<Action>, cutoff: int)
    requires Later(cutoff, acts)
    ensures StuckNow(Run(s, acts), cutoff) <= StuckNow(s, cutoff)
    decreases |acts|
  {
    if acts != [] {
      StepStuck(s, acts[0], cutoff);
      RunStuck(Apply(s, acts[0]), acts[1..], cutoff);
    }
  }

  lemma {:induction false} RunClear(s: Server, acts: seq<Action>, g: nat, cutoff: int)
    requires DoneIsClear(s, g, cutoff) && Later(cutoff, acts)
    ensures DoneIsClear(Run(s, acts), g, cutoff) && Run(s, acts).grants[g].seqNo == s.grants[g].seqNo
    decreases |acts|
  {
    if acts != [] {
      StepClear(s, acts[0], g, cutoff);
      RunClear(Apply(s, acts[0]), acts[1..], g, cutoff);
    }
  }

  /** Settling through a grant, or finding it done, leaves its number clear. */
  lemma SettleClears(s: Server, g: nat, o: M.Outcome, y: int, cutoff: int)
    requires DoneIsClear(s, g, cutoff)
    ensures s.grants[g].seqNo !in StuckNow(Apply(s, DoSettle(g, o, y)), cutoff)
  {
  }

  /** A round clears the number it picked, whoever gets to settle it, and makes no other number stuck. */
  lemma RoundClears(s: Server, r: Round, cutoff: int)
    requires Later(cutoff, r.picked) && Later(cutoff, r.checked) && Later(cutoff, r.settled)
    ensures StuckNow(Play(s, r), cutoff) <= StuckNow(s, cutoff) - {r.n}
  {
    var s1 := Run(s, r.picked);
    var c := Apply(s1, DoForceCheck(r.n));
    var s2 := Run(c, r.checked);
    RunStuck(s, r.picked, cutoff);
    StepStuck(s1, DoForceCheck(r.n), cutoff);
    RunStuck(c, r.checked, cutoff);
    if r.n in s1.mgr.inflight {
      var g := |s1.grants|;
      assert c.grants[g] == Grant(r.n, false, false);
      RunClear(c, r.checked, g, cutoff);
      SettleClears(s2, g, r.outcome, r.bytes, cutoff);
      StepStuck(s2, DoSettle(g, r.outcome, r.bytes), cutoff);
      RunStuck(Apply(s2, DoSettle(g, r.outcome, r.bytes)), r.settled, cutoff);
    } else {
      RunStuck(s2, r.settled, cutoff);
    }
  }

  lemma {:induction false} Subset(a: set<nat>, b: set<nat>)
    requires a <= b
    ensures |a| <= |b|
  {
    if a != {} {
      var x :| x in a;
      Subset(a - {x}, b - {x});
    }
  }

  lemma Smaller(a: set<nat>, b: set<nat>, n: nat)
    requires a <= b - {n} && n in b
    ensures |a| + 1 <= |b|
  {
    Subset(a, b - {n});
  }

  /**
    The loop stops under any interference: it picks numbers in ascending order, so none twice, and
    it makes at most as many rounds as there were stuck slots when it began.
  */
  lemma {:induction false} ReaperStops(s: Server, cutoff: int, rs: seq<Round>)
    requires Reaping(s, cutoff, rs)
    ensures |rs| + |StuckNow(PlayAll(s, rs), cutoff)| <= |StuckNow(s, cutoff)|
    ensures StuckNow(PlayAll(s, rs), cutoff) <= StuckNow(s, cutoff)
    ensures forall i :: 0 <= i < |rs| ==> rs[i].n in StuckNow(s, cutoff) && rs[i].n !in StuckNow(PlayAll(s, rs), cutoff)
    ensures forall i, j :: 0 <= i < j < |rs| ==> rs[i].n < rs[j].n
    decreases |rs|
  {
    if rs != [] {
      var r, s' := rs[0], Play(s, rs[0]);
      RoundClears(s, r, cutoff);
      Smaller(StuckNow(s', cutoff), StuckNow(s, cutoff), r.n);
      ReaperStops(s', cutoff, rs[1..]);
      assert forall i :: 1 <= i < |rs| ==> rs[i] == rs[1..][i - 1];
    }
  }
}

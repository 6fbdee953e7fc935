/**
  The one way to refund a number twice, for a ring of any size: the reaper settles number 1, as many
  other numbers as the ring holds are settled, and then the first holder's callback comes in.
*/
module LateGrants {
  import opened Manager
  import opened ServerRuns

  lemma {:induction false} RunConcat(s: Server, xs: seq<Action>, ys: seq<Action>)
    ensures Run(s, xs + ys) == Run(Run(s, xs), ys)
    decreases |xs|
  {
    if xs == [] {
      assert xs + ys == ys;
    } else {
      assert (xs + ys)[1..] == xs[1..] + ys;
      RunConcat(Apply(s, xs[0]), xs[1..], ys);
    }
  }

  lemma RefundsGrow(log: seq<Event>, e: Event, n: nat)
    ensures Refunds(log + [e], n) == Refunds(log, n) + if e.Final? && e.seqNo == n then 1 else 0
  {
    assert (log + [e])[..|log|] == log;
  }

  /** One number through admission, charge and settlement; its grant has the same index as the number. */
  ghost function Whole(n: nat, o: Outcome): seq<Action> {
    [DoAdmit(n, 0), DoConsume(n, 1)] + [DoSettle(n, o, 0)]
  }

  ghost function Flood(n: nat, count: nat, o: Outcome): seq<Action>
    decreases count
  {
    if count == 0 then [] else Whole(n, o) + Flood(n + 1, count - 1, o)
  }

  /** Nothing in flight, every number so far below `n`, and `n` the next grant index too. */
  ghost predicate Idle(s: Server, n: nat) {
    && s.mgr.inflight == map[] && |s.grants| == n >= 2
    && (forall i :: 0 <= i < |s.mgr.history| ==> s.mgr.history[i].seqNo < n)
  }

  lemma RunOne(s: Server, a: Action)
    ensures Run(s, [a]) == Apply(s, a)
  {
    assert [a][1..] == [];
  }

  lemma RunTwo(s: Server, a: Action, b: Action)
    ensures Run(s, [a, b]) == Apply(Apply(s, a), b)
  {
    assert [a, b][1..] == [b];
    RunOne(Apply(s, a), b);
  }

  lemma WholeEffect(s: Server, n: nat, o: Outcome)
    requires Idle(s, n) && Affordable(s.mgr, 1)
    ensures Run(s, Whole(n, o)) ==
            Server(s.mgr.(outB := s.mgr.outB - 1, outY := s.mgr.outY - 1,
                          recB := s.mgr.recB + 1, recY := s.mgr.recY + 1,
                          history := s.mgr.history + [Settlement(n, o)]),
                   s.grants + [Grant(n, true, false)],
                   s.log + [Charged(n, n, 1)] + [Final(n, n, o, 1)])
  {
    assert !Settled(s.mgr.history, n);
    RunConcat(s, [DoAdmit(n, 0), DoConsume(n, 1)], [DoSettle(n, o, 0)]);
    RunTwo(s, DoAdmit(n, 0), DoConsume(n, 1));
    var a := Apply(s, DoAdmit(n, 0));
    assert a.grants == s.grants + [Grant(n, false, false)] && a.mgr.inflight == map[n := Slot(0, "", 0)];
    var b := Apply(a, DoConsume(n, 1));
    assert b.mgr.inflight == map[n := Slot(1, "", 0)];
    var c := Apply(b, DoSettle(n, o, 0));
    RunOne(b, DoSettle(n, o, 0));
    assert c.mgr.inflight == map[];
    assert c.grants == s.grants + [Grant(n, true, false)];
  }

  /** `count` new numbers were settled, credit was conserved, and older grants were left alone. */
  ghost predicate Flooded(s: Server, s': Server, n: nat, count: nat) {
    && Idle(s', n + count) && s'.mgr.ringCap == s.mgr.ringCap
    && s.mgr.history <= s'.mgr.history && |s'.mgr.history| == |s.mgr.history| + count
    && (forall i :: |s.mgr.history| <= i < |s'.mgr.history| ==> s'.mgr.history[i].seqNo >= n)
    && s.grants <= s'.grants && HeldB(s'.mgr) == HeldB(s.mgr)
    && Refunds(s'.log, 1) == Refunds(s.log, 1)
  }

  lemma RefundsElsewhere(log: seq<Event>, n: nat, o: Outcome)
    requires n >= 2
    ensures Refunds(log + [Charged(n, n, 1)] + [Final(n, n, o, 1)], 1) == Refunds(log, 1)
  {
    RefundsGrow(log, Charged(n, n, 1), 1);
    RefundsGrow(log + [Charged(n, n, 1)], Final(n, n, o, 1), 1);
  }

  lemma FloodedOnce(s: Server, n: nat, o: Outcome)
    requires Idle(s, n) && Affordable(s.mgr, 1)
    ensures var s' := Run(s, Whole(n, o));
            Flooded(s, s', n, 1) && s'.mgr.outB == s.mgr.outB - 1 && s'.mgr.outY == s.mgr.outY - 1
  {
    var s' := Run(s, Whole(n, o));
    WholeEffect(s, n, o);
    RefundsElsewhere(s.log, n, o);
    assert s'.grants == s.grants + [Grant(n, true, false)];
    assert s'.mgr.history == s.mgr.history + [Settlement(n, o)];
  }

  lemma FloodedMore(s: Server, s1: Server, s2: Server, n: nat, count: nat)
    requires Flooded(s, s1, n, 1) && Flooded(s1, s2, n + 1, count)
    ensures Flooded(s, s2, n, 1 + count)
  {
  }

  lemma {:induction false} FloodEffect(s: Server, n: nat, count: nat, o: Outcome)
    requires Idle(s, n) && s.mgr.outB >= count && s.mgr.outY >= count
    ensures Flooded(s, Run(s, Flood(n, count, o)), n, count)
    decreases count
  {
    if count > 0 {
      var s1 := Run(s, Whole(n, o));
      var rest := Flood(n + 1, count - 1, o);
      RunConcat(s, Whole(n, o), rest);
      FloodedOnce(s, n, o);
      FloodEffect(s1, n + 1, count - 1, o);
      FloodedMore(s, s1, Run(s1, rest), n, count - 1);
    }
  }

  /** Number 1 is admitted, charged with five bytes and settled by the reaper. */
  ghost function Reaped(o: Outcome): seq<Action> {
    [DoAdmit(1, 0), DoConsume(0, 5)] + [DoForceCheck(1), DoSettle(1, o, 0)]
  }

  lemma ReapedEffect(initB: int, initY: int, ringCap: nat, o: Outcome)
    requires initB >= 1 && initY >= 5
    ensures var s := Run(Init(initB, initY, ringCap), Reaped(o));
            && s.mgr == Manager(initB - 1, initY - 5, 1, 5, map[], [Settlement(1, o)], ringCap)
            && s.grants == [Grant(1, false, false), Grant(1, true, false)]
            && Refunds(s.log, 1) == 1
  {
    var s0 := Init(initB, initY, ringCap);
    RunConcat(s0, [DoAdmit(1, 0), DoConsume(0, 5)], [DoForceCheck(1), DoSettle(1, o, 0)]);
    var s1 := Apply(Apply(s0, DoAdmit(1, 0)), DoConsume(0, 5));
    RunTwo(s0, DoAdmit(1, 0), DoConsume(0, 5));
    assert s1.grants == [Grant(1, false, false)] && s1.log == [] + [Charged(0, 1, 5)];
    var s2 := Apply(Apply(s1, DoForceCheck(1)), DoSettle(1, o, 0));
    RunTwo(s1, DoForceCheck(1), DoSettle(1, o, 0));
    assert s2.log == s1.log + [Final(1, 1, o, 5)];
    RefundsGrow([], Charged(0, 1, 5), 1);
    RefundsGrow(s1.log, Final(1, 1, o, 5), 1);
  }

  lemma LateEffect(s: Server, o: Outcome, late: nat)
    requires s.mgr.inflight == map[] && s.mgr.history != [] && |s.mgr.history| == s.mgr.ringCap + 1
    requires forall i :: 1 <= i < |s.mgr.history| ==> s.mgr.history[i].seqNo >= 2
    requires s.grants != [] && s.grants[0] == Grant(1, false, false)
    ensures var s' := Apply(s, DoSettle(0, o, late));
            && Refunds(s'.log, 1) == Refunds(s.log, 1) + 1 && HeldB(s'.mgr) == HeldB(s.mgr) + 1
  {
    RecallForgotten(s.mgr.history, s.mgr.ringCap, 1);
    RefundsGrow(s.log, Final(0, 1, o, late), 1);
  }

  /**
    Whatever the ring's capacity, the late callback refunds number 1 a second time: the run is not
    timely, and the server ends with one batch more than the initial credit.
  */
  lemma LateGrantRefundsTwice(ringCap: nat, o: Outcome, late: nat)
    requires ringCap >= 1
    ensures var s0 := Init(ringCap + 1, ringCap + 5, ringCap);
            var acts := Reaped(o) + Flood(2, ringCap, o) + [DoSettle(0, o, late)];
            && !TimelyRun(s0, acts)
            && Refunds(Run(s0, acts).log, 1) == 2
            && HeldB(Run(s0, acts).mgr) == ringCap + 2
  {
    var s0 := Init(ringCap + 1, ringCap + 5, ringCap);
    var acts := Reaped(o) + Flood(2, ringCap, o) + [DoSettle(0, o, late)];
    ReapedEffect(ringCap + 1, ringCap + 5, ringCap, o);
    var s1 := Run(s0, Reaped(o));
    FloodEffect(s1, 2, ringCap, o);
    var s2 := Run(s1, Flood(2, ringCap, o));
    RunConcat(s0, Reaped(o), Flood(2, ringCap, o));
    RunConcat(s0, Reaped(o) + Flood(2, ringCap, o), [DoSettle(0, o, late)]);
    LateEffect(s2, o, late);
    RunOne(s2, DoSettle(0, o, late));
    assert Run(s0, acts) == Apply(s2, DoSettle(0, o, late));
    SingleSettlement(acts, ringCap + 1, ringCap + 5, ringCap);
  }
}

/**
  Every interleaving of grant holders, sink callbacks and the reaper on one server connection.
  Each lock section of core/credit.go is one atomic action; a ghost log records the decisions.
*/
module ServerRuns {
  import opened Basics
  import opened Manager

  datatype Grant = Grant(seqNo: nat, done: bool, accepted: bool)

  datatype Event =
    | Charged(grant: nat, seqNo: nat, bytes: nat)
    | Interim(grant: nat, seqNo: nat)
    | Final(grant: nat, seqNo: nat, outcome: Outcome, bytes: nat)

  datatype Server = Server(mgr: Manager, grants: seq<Grant>, log: seq<Event>)

  datatype Action =
    | DoAdmit(n: nat, now: int)
    | DoConsume(g: nat, bytes: nat)
    | DoBackfill(g: nat, correlation: string)
    | DoAccept(g: nat)
    | DoSettle(g: nat, outcome: Outcome, frameBytes: int)
    | DoRelease(g: nat)
    | DoForceCheck(n: nat)    // the reaper's first lock section; its settlement is a later DoSettle
    | DoTake

  ghost function Init(initB: int, initY: int, ringCap: nat): Server {
    Server(Manager(initB, initY, 0, 0, map[], [], ringCap), [], [])
  }

  ghost function MarkDone(s: Server, g: nat): Server
    requires g < |s.grants|
  {
    s.(grants := s.grants[g := s.grants[g].(done := true)])
  }

  ghost function ApplyConsume(s: Server, g: nat, bytes: nat): Server
    requires g < |s.grants|
  {
    var n := s.grants[g].seqNo;
    var s' := s.(mgr := Consume(s.mgr, n, bytes));
    if Affordable(s.mgr, bytes) then s'.(log := s.log + [Charged(g, n, bytes)]) else MarkDone(s', g)
  }

  ghost function ApplySettle(s: Server, g: nat, o: Outcome, y: int): Server
    requires g < |s.grants|
  {
    var n := s.grants[g].seqNo;
    var s' := MarkDone(s.(mgr := Settle(s.mgr, n, o, y)), g);
    if Overtaken(s.mgr, n) then s' else s'.(log := s.log + [Final(g, n, o, Refund(s.mgr, n, y))])
  }

  ghost function ApplyAccept(s: Server, g: nat): Server
    requires g < |s.grants|
  {
    var s' := s.(grants := s.grants[g := s.grants[g].(accepted := true)]);
    if s.grants[g].accepted || s.grants[g].done then s' else s'.(log := s.log + [Interim(g, s.grants[g].seqNo)])
  }

  ghost function ApplyBackfill(s: Server, g: nat, c: string): Server
    requires g < |s.grants|
  {
    var n := s.grants[g].seqNo;
    if n !in s.mgr.inflight then s
    else s.(mgr := s.mgr.(inflight := s.mgr.inflight[n := s.mgr.inflight[n].(correlation := c)]))
  }

  /** An action on a grant that nobody holds changes nothing, as does any settlement of a done grant. */
  ghost function Apply(s: Server, a: Action): Server {
    match a
    case DoAdmit(n, now) =>
      if Decide(s.mgr, n).Accept?
      then s.(mgr := Admit(s.mgr, n, now), grants := s.grants + [Grant(n, false, false)])
      else s
    case DoForceCheck(n) =>
      if n in s.mgr.inflight then s.(grants := s.grants + [Grant(n, false, false)]) else s
    case DoTake => s.(mgr := Take(s.mgr))
    case DoConsume(g, bytes) => if g < |s.grants| && !s.grants[g].done then ApplyConsume(s, g, bytes) else s
    case DoSettle(g, o, y) => if g < |s.grants| && !s.grants[g].done then ApplySettle(s, g, o, y) else s
    case DoAccept(g) => if g < |s.grants| then ApplyAccept(s, g) else s
    case DoBackfill(g, c) => if g < |s.grants| then ApplyBackfill(s, g, c) else s
    case DoRelease(g) =>
      if g < |s.grants| && !s.grants[g].done
      then MarkDone(s, g).(mgr := s.mgr.(inflight := s.mgr.inflight - {s.grants[g].seqNo}))
      else s
  }

  ghost function Run(s: Server, acts: seq<Action>): Server
    decreases |acts|
  {
    if acts == [] then s else Run(Apply(s, acts[0]), acts[1..])
  }

  // ---------------------------------------------------------------- what every run keeps

  ghost function Finals(log: seq<Event>): seq<Settlement> {
    if log == [] then []
    else
      var e := log[|log| - 1];
      Finals(log[..|log| - 1]) + if e.Final? then [Settlement(e.seqNo, e.outcome)] else []
  }

  ghost function NetB(log: seq<Event>): int {
    if log == [] then 0
    else
      NetB(log[..|log| - 1]) + match log[|log| - 1]
        case Charged(_, _, _) => -1
        case Interim(_, _) => 0
        case Final(_, _, _, _) => 1
  }

  ghost function NetY(log: seq<Event>): int {
    if log == [] then 0
    else
      NetY(log[..|log| - 1]) + match log[|log| - 1]
        case Charged(_, _, y) => 0 - y
        case Interim(_, _) => 0
        case Final(_, _, _, y) => y
  }

  /** The decisions one grant made itself, in order: false for an interim ACCEPTED, true for a terminal. */
  ghost function Own(log: seq<Event>, g: nat): seq<bool> {
    if log == [] then []
    else
      var e := log[|log| - 1];
      Own(log[..|log| - 1], g) + if e.Charged? || e.grant != g then [] else [e.Final?]
  }

  /** Nothing, an interim, a terminal, or an interim then a terminal, as the grant's flags record. */
  ghost predicate Shape(own: seq<bool>, accepted: bool, done: bool) {
    && (own == [] || own == [false] || own == [true] || own == [false, true])
    && (own != [] && own[0] == false ==> accepted)
    && (own != [] && own[|own| - 1] ==> done)
  }

  ghost predicate OwnShape(s: Server, g: nat) {
    if g >= |s.grants| then Own(s.log, g) == []
    else Shape(Own(s.log, g), s.grants[g].accepted, s.grants[g].done)
  }

  ghost predicate Inv(s: Server, initB: int, initY: int) {
    && WellFormed(s.mgr)
    && s.mgr.history == Finals(s.log)
    && HeldB(s.mgr) == initB + NetB(s.log)
    && HeldY(s.mgr) == initY + NetY(s.log)
    && (forall g: nat :: OwnShape(s, g))
    && (forall g: nat :: g < |s.grants| ==> s.grants[g].seqNo >= 1)
  }

  lemma LogGrows(log: seq<Event>, e: Event, g: nat)
    ensures Finals(log + [e]) == Finals(log) + if e.Final? then [Settlement(e.seqNo, e.outcome)] else []
    ensures NetB(log + [e]) == NetB(log) + if e.Charged? then -1 else if e.Final? then 1 else 0
    ensures NetY(log + [e]) == NetY(log) + if e.Charged? then 0 - e.bytes else if e.Final? then e.bytes else 0
    ensures Own(log + [e], g) == Own(log, g) + if e.Charged? || e.grant != g then [] else [e.Final?]
  {
    assert (log + [e])[..|log|] == log;
  }

  lemma ShapeGrows(own: seq<bool>, accepted: bool)
    ensures Shape(own, accepted, false) ==> Shape(own + [true], accepted, true) && Shape(own, accepted, true)
    ensures Shape(own, false, false) ==> Shape(own + [false], true, false)
  {
  }

  /** One logged decision by grant `g`, matched by its flags, keeps every grant's shape. */
  lemma ShapeStep(s: Server, s': Server, e: Event, k: nat)
    requires OwnShape(s, k) && e.grant < |s.grants| == |s'.grants| && s'.log == s.log + [e]
    requires k < |s.grants| && k != e.grant ==> s'.grants[k] == s.grants[k]
    requires var was, now := s.grants[e.grant], s'.grants[e.grant];
             match e
             case Charged(_, _, _) => now == was
             case Interim(_, _) => !was.accepted && !was.done && now == was.(accepted := true)
             case Final(_, _, _, _) => !was.done && now == was.(done := true)
    ensures OwnShape(s', k)
  {
    LogGrows(s.log, e, k);
    if k == e.grant {
      ShapeGrows(Own(s.log, k), s.grants[k].accepted);
    }
  }

  /** The rest of the invariant after one logged decision, given what it did to the manager. */
  lemma BooksStep(s: Server, s': Server, e: Event, initB: int, initY: int)
    requires Inv(s, initB, initY) && s'.log == s.log + [e] && WellFormed(s'.mgr)
    requires (forall g: nat :: OwnShape(s', g)) && (forall g: nat :: g < |s'.grants| ==> s'.grants[g].seqNo >= 1)
    requires s'.mgr.history == s.mgr.history + if e.Final? then [Settlement(e.seqNo, e.outcome)] else []
    requires HeldB(s'.mgr) == HeldB(s.mgr) + if e.Charged? then -1 else if e.Final? then 1 else 0
    requires HeldY(s'.mgr) == HeldY(s.mgr) + if e.Charged? then 0 - e.bytes else if e.Final? then e.bytes else 0
    ensures Inv(s', initB, initY)
  {
    LogGrows(s.log, e, 0);
  }

  lemma ConsumeKeeps(s: Server, g: nat, bytes: nat, initB: int, initY: int)
    requires Inv(s, initB, initY) && g < |s.grants| && !s.grants[g].done
    ensures Inv(ApplyConsume(s, g, bytes), initB, initY)
  {
    var s', e := ApplyConsume(s, g, bytes), Charged(g, s.grants[g].seqNo, bytes);
    if Affordable(s.mgr, bytes) {
      forall k: nat
        ensures OwnShape(s', k)
      {
        ShapeStep(s, s', e, k);
      }
      BooksStep(s, s', e, initB, initY);
    } else {
      forall k: nat
        ensures OwnShape(s', k)
      {
        assert OwnShape(s, k);
      }
    }
  }

  lemma SettleKeeps(s: Server, g: nat, o: Outcome, y: int, initB: int, initY: int)
    requires Inv(s, initB, initY) && g < |s.grants| && !s.grants[g].done
    ensures Inv(ApplySettle(s, g, o, y), initB, initY)
  {
    var s', n := ApplySettle(s, g, o, y), s.grants[g].seqNo;
    if Overtaken(s.mgr, n) {
      forall k: nat
        ensures OwnShape(s', k)
      {
        assert OwnShape(s, k);
      }
    } else {
      var e := Final(g, n, o, Refund(s.mgr, n, y));
      forall k: nat
        ensures OwnShape(s', k)
      {
        ShapeStep(s, s', e, k);
      }
      SettledAppend(s.mgr.history, Settlement(n, o));
      BooksStep(s, s', e, initB, initY);
    }
  }

  lemma AcceptKeeps(s: Server, g: nat, initB: int, initY: int)
    requires Inv(s, initB, initY) && g < |s.grants|
    ensures Inv(ApplyAccept(s, g), initB, initY)
  {
    var s' := ApplyAccept(s, g);
    if s.grants[g].accepted || s.grants[g].done {
      forall k: nat
        ensures OwnShape(s', k)
      {
        assert OwnShape(s, k);
      }
    } else {
      var e := Interim(g, s.grants[g].seqNo);
      forall k: nat
        ensures OwnShape(s', k)
      {
        ShapeStep(s, s', e, k);
      }
      BooksStep(s, s', e, initB, initY);
    }
  }

  /** Actions that decide nothing. */
  lemma QuietKeeps(s: Server, a: Action, initB: int, initY: int)
    requires Inv(s, initB, initY) && !a.DoConsume? && !a.DoSettle? && !a.DoAccept?
    ensures Inv(Apply(s, a), initB, initY)
  {
    assert forall k: nat :: OwnShape(s, k) ==> OwnShape(Apply(s, a), k);
  }

  lemma ApplyKeeps(s: Server, a: Action, initB: int, initY: int)
    requires Inv(s, initB, initY)
    ensures Inv(Apply(s, a), initB, initY)
  {
    match a
    case DoConsume(g, bytes) => if g < |s.grants| && !s.grants[g].done { ConsumeKeeps(s, g, bytes, initB, initY); }
    case DoSettle(g, o, y) => if g < |s.grants| && !s.grants[g].done { SettleKeeps(s, g, o, y, initB, initY); }
    case DoAccept(g) => if g < |s.grants| { AcceptKeeps(s, g, initB, initY); }
    case _ => QuietKeeps(s, a, initB, initY);
  }

  lemma {:induction false} RunKeeps(s: Server, acts: seq<Action>, initB: int, initY: int)
    requires Inv(s, initB, initY)
    ensures Inv(Run(s, acts), initB, initY)
    decreases |acts|
  {
    if acts != [] {
      ApplyKeeps(s, acts[0], initB, initY);
      RunKeeps(Apply(s, acts[0]), acts[1..], initB, initY);
    }
  }

  // ---------------------------------------------------------------- main results

  lemma InitInv(initB: int, initY: int, ringCap: nat)
    requires ringCap >= 1
    ensures Inv(Init(initB, initY, ringCap), initB, initY)
  {
  }

  /**
    Server conservation over every run: issued plus recovered credit is the initial credit
    minus what was charged plus what settlements refunded, in both dimensions.
  */
  lemma Conservation(acts: seq<Action>, initB: int, initY: int, ringCap: nat)
    requires ringCap >= 1
    ensures var s := Run(Init(initB, initY, ringCap), acts);
            && s.mgr.outB + s.mgr.recB == initB + NetB(s.log)
            && s.mgr.outY + s.mgr.recY == initY + NetY(s.log)
  {
    InitInv(initB, initY, ringCap);
    RunKeeps(Init(initB, initY, ringCap), acts, initB, initY);
  }

  /** No counter is negative. */
  ghost predicate Unsigned(m: Manager) { m.outB >= 0 && m.outY >= 0 && m.recB >= 0 && m.recY >= 0 }

  lemma {:induction false} RunKeepsUnsigned(s: Server, acts: seq<Action>)
    requires Unsigned(s.mgr)
    ensures Unsigned(Run(s, acts).mgr)
    decreases |acts|
  {
    if acts != [] {
      assert Unsigned(Apply(s, acts[0]).mgr);
      RunKeepsUnsigned(Apply(s, acts[0]), acts[1..]);
    }
  }

  /** A charge succeeds exactly when the issued credit covers it in both dimensions. */
  lemma ChargedIff(s: Server, g: nat, bytes: nat)
    requires g < |s.grants| && !s.grants[g].done
    ensures var s' := Apply(s, DoConsume(g, bytes));
            && (s'.log == s.log + [Charged(g, s.grants[g].seqNo, bytes)] <==> s.mgr.outB >= 1 && s.mgr.outY >= bytes)
            && (s'.log == s.log <==> s.mgr.outB < 1 || s.mgr.outY < bytes)
            && (s'.log == s.log ==> s'.mgr == s.mgr.(inflight := s.mgr.inflight - {s.grants[g].seqNo}))
  {
  }

  /**
    The defence against over-sending, for every run from initial credit that is not negative and any
    frames a client sends: no counter is ever negative, so what was charged and not refunded never
    exceeds the initial credit in either dimension, and what is issued never exceeds what is left.
  */
  lemma NeverOverspent(acts: seq<Action>, initB: nat, initY: nat, ringCap: nat)
    requires ringCap >= 1
    ensures var s := Run(Init(initB, initY, ringCap), acts);
            && s.mgr.outB >= 0 && s.mgr.outY >= 0 && s.mgr.recB >= 0 && s.mgr.recY >= 0
            && initB + NetB(s.log) >= 0 && initY + NetY(s.log) >= 0
            && s.mgr.outB <= initB + NetB(s.log) && s.mgr.outY <= initY + NetY(s.log)
  {
    RunKeepsUnsigned(Init(initB, initY, ringCap), acts);
    Conservation(acts, initB, initY, ringCap);
  }

  /**
    Decision order over every run: a grant decides nothing, one interim ACCEPTED, one terminal,
    or one interim ACCEPTED followed by one terminal, and nothing else.
  */
  lemma DecisionOrder(acts: seq<Action>, g: nat, initB: int, initY: int, ringCap: nat)
    requires ringCap >= 1
    ensures var own := Own(Run(Init(initB, initY, ringCap), acts).log, g);
            own == [] || own == [false] || own == [true] || own == [false, true]
  {
    InitInv(initB, initY, ringCap);
    RunKeeps(Init(initB, initY, ringCap), acts, initB, initY);
    assert OwnShape(Run(Init(initB, initY, ringCap), acts), g);
  }

  // ---- decision order per number

  /** No interim ACCEPTED of a number follows a terminal of that number. */
  ghost predicate NumberOrder(log: seq<Event>) {
    forall i, j :: 0 <= i < j < |log| && log[i].Final? && log[j].Interim? ==> log[i].seqNo != log[j].seqNo
  }

  /** An Accept through a grant that has decided nothing, for a number another grant has settled. */
  ghost predicate AcceptsSettled(s: Server, a: Action) {
    && a.DoAccept? && a.g < |s.grants| && !s.grants[a.g].accepted && !s.grants[a.g].done
    && Settled(s.mgr.history, s.grants[a.g].seqNo)
  }

  ghost predicate Terminated(log: seq<Event>, n: nat) {
    exists i :: 0 <= i < |log| && log[i].Final? && log[i].seqNo == n
  }

  lemma TerminatedAppend(log: seq<Event>, e: Event, n: nat)
    ensures Terminated(log + [e], n) <==> Terminated(log, n) || (e.Final? && e.seqNo == n)
  {
    if Terminated(log, n) {
      var i :| 0 <= i < |log| && log[i].Final? && log[i].seqNo == n;
      assert (log + [e])[i] == log[i];
    }
    assert (log + [e])[|log|] == e;
  }

  lemma {:induction false} SettledLogged(log: seq<Event>, n: nat)
    ensures Settled(Finals(log), n) <==> Terminated(log, n)
  {
    if log != [] {
      var p, e := log[..|log| - 1], log[|log| - 1];
      SettledLogged(p, n);
      assert log == p + [e];
      TerminatedAppend(p, e, n);
      if e.Final? {
        SettledAppend(Finals(p), Settlement(e.seqNo, e.outcome));
      } else {
        assert Finals(log) == Finals(p);
      }
    }
  }

  /** The exact condition, for one step. */
  lemma KeepsNumberOrderIff(s: Server, a: Action, initB: int, initY: int)
    requires Inv(s, initB, initY) && NumberOrder(s.log)
    ensures NumberOrder(Apply(s, a).log) <==> !AcceptsSettled(s, a)
  {
    var log, log' := s.log, Apply(s, a).log;
    assert log <= log';
    if log' != log && log'[|log|].Interim? {
      var n := log'[|log|].seqNo;
      SettledLogged(log, n);
      if AcceptsSettled(s, a) {
        var i :| 0 <= i < |log| && log[i].Final? && log[i].seqNo == n;
        assert log'[i] == log[i] && log'[|log|].Interim?;
      }
    }
  }

  ghost predicate OrderlyRun(s: Server, acts: seq<Action>)
    decreases |acts|
  {
    acts == [] || (!AcceptsSettled(s, acts[0]) && OrderlyRun(Apply(s, acts[0]), acts[1..]))
  }

  lemma {:induction false} LogOnlyGrows(s: Server, acts: seq<Action>)
    ensures s.log <= Run(s, acts).log
    decreases |acts|
  {
    if acts != [] {
      assert s.log <= Apply(s, acts[0]).log;
      LogOnlyGrows(Apply(s, acts[0]), acts[1..]);
    }
  }

  lemma {:induction false} NumberOrderFrom(s: Server, acts: seq<Action>, initB: int, initY: int)
    requires Inv(s, initB, initY) && NumberOrder(s.log)
    ensures NumberOrder(Run(s, acts).log) <==> OrderlyRun(s, acts)
    decreases |acts|
  {
    if acts != [] {
      var s' := Apply(s, acts[0]);
      KeepsNumberOrderIff(s, acts[0], initB, initY);
      ApplyKeeps(s, acts[0], initB, initY);
      if NumberOrder(s'.log) {
        NumberOrderFrom(s', acts[1..], initB, initY);
      } else {
        LogOnlyGrows(s', acts[1..]);
        var log := Run(s', acts[1..]).log;
        assert forall i :: 0 <= i < |s'.log| ==> log[i] == s'.log[i];
      }
    }
  }

  /**
    Decision order per number, over every run: no interim ACCEPTED follows a terminal of the same
    number if and only if no undecided grant is accepted after another grant settled its number.
  */
  lemma NumberOrderIff(acts: seq<Action>, initB: int, initY: int, ringCap: nat)
    requires ringCap >= 1
    ensures var s0 := Init(initB, initY, ringCap);
            NumberOrder(Run(s0, acts).log) <==> OrderlyRun(s0, acts)
  {
    InitInv(initB, initY, ringCap);
    NumberOrderFrom(Init(initB, initY, ringCap), acts, initB, initY);
  }

  /**
    The condition can fail: after the reaper has settled a slot, the original holder's Accept still
    decides an interim ACCEPTED for a number whose terminal is out.
  */
  lemma AcceptedAfterForcedTerminal(o: Outcome)
    ensures var s1 := Apply(Apply(Init(1, 9, 1), DoAdmit(1, 0)), DoConsume(0, 5));
            var s2 := Apply(s1, DoForceCheck(1));
            var s3 := Apply(s2, DoSettle(1, o, 0));
            && AcceptsSettled(s3, DoAccept(0))
            && Apply(s3, DoAccept(0)).log == [Charged(0, 1, 5), Final(1, 1, o, 5), Interim(0, 1)]
  {
    assert Recall([], 1, 1) == None;
    var s1 := Apply(Apply(Init(1, 9, 1), DoAdmit(1, 0)), DoConsume(0, 5));
    assert s1.grants == [Grant(1, false, false)] && s1.log == [Charged(0, 1, 5)];
    var s3 := Apply(Apply(s1, DoForceCheck(1)), DoSettle(1, o, 0));
    assert s3.mgr.history[0].seqNo == 1;
  }

  // ---- replay

  lemma {:induction false} HistoryGrows(s: Server, acts: seq<Action>)
    ensures s.mgr.history <= Run(s, acts).mgr.history
    ensures Run(s, acts).mgr.ringCap == s.mgr.ringCap
    decreases |acts|
  {
    if acts != [] {
      HistoryGrows(Apply(s, acts[0]), acts[1..]);
    }
  }

  /** What the ring holds, the newest `cap` settlements, never repeats a number that follows later. */
  ghost predicate RingDistinct(h: seq<Settlement>, cap: nat) {
    forall i, j :: 0 <= i < j < |h| && |h| - i <= cap ==> h[i].seqNo != h[j].seqNo
  }

  /** A settlement of a number still in the ring is overtaken, timely or not. */
  lemma ApplyKeepsRingDistinct(s: Server, a: Action)
    requires WellFormed(s.mgr) && RingDistinct(s.mgr.history, s.mgr.ringCap)
    ensures RingDistinct(Apply(s, a).mgr.history, s.mgr.ringCap)
  {
    var h, h' := s.mgr.history, Apply(s, a).mgr.history;
    if h' != h {
      var n := s.grants[a.g].seqNo;
      assert h' == h + [Settlement(n, a.outcome)];
      RecallForgotten(h, s.mgr.ringCap, n);
      assert n in s.mgr.inflight ==> !Settled(h, n);
    }
  }

  lemma {:induction false} RunKeepsRingDistinct(s: Server, acts: seq<Action>, initB: int, initY: int)
    requires Inv(s, initB, initY) && RingDistinct(s.mgr.history, s.mgr.ringCap)
    ensures RingDistinct(Run(s, acts).mgr.history, s.mgr.ringCap)
    decreases |acts|
  {
    if acts != [] {
      ApplyKeepsRingDistinct(s, acts[0]);
      ApplyKeeps(s, acts[0], initB, initY);
      HistoryGrows(s, [acts[0]]);
      RunKeepsRingDistinct(Apply(s, acts[0]), acts[1..], initB, initY);
    }
  }

  /** The newest settlement of a number is recalled for `cap` settlements, if the ring is distinct. */
  lemma RingRecall(h: seq<Settlement>, cap: nat, i: nat)
    requires RingDistinct(h, cap) && i < |h|
    ensures |h| - i <= cap ==> Recall(h, cap, h[i].seqNo) == Some(h[i].outcome)
  {
    if |h| - i <= cap {
      RecallNewest(h, cap, i);
    }
  }

  ghost predicate Distinct(h: seq<Settlement>) {
    forall i, j :: 0 <= i < j < |h| ==> h[i].seqNo != h[j].seqNo
  }

  /**
    Idempotent replay, for any actions before and after a settlement at position `i`. Admitting its
    number again returns exactly that outcome until `ringCap` settlements followed. Afterwards it is
    "below, unknown" if and only if no later settlement of the number is in the ring, which is always
    so in a history without repetitions. It is never Accept.
  */
  lemma Replay(before: seq<Action>, after: seq<Action>, i: nat, initB: int, initY: int, ringCap: nat)
    requires ringCap >= 1
    requires i < |Run(Init(initB, initY, ringCap), before).mgr.history|
    ensures var s := Run(Init(initB, initY, ringCap), before);
            var m := Run(s, after).mgr;
            var d := Decide(m, s.mgr.history[i].seqNo);
            && s.mgr.history <= m.history
            && (|m.history| - i <= ringCap ==> d == TerminalHit(s.mgr.history[i].outcome))
            && (d == BelowUnknown <==>
                forall j :: 0 <= j < |m.history| && |m.history| - j <= ringCap
                            ==> m.history[j].seqNo != s.mgr.history[i].seqNo)
            && (d.TerminalHit? || d == BelowUnknown)
            && (Distinct(m.history) && |m.history| - i > ringCap ==> d == BelowUnknown)
  {
    var s0 := Init(initB, initY, ringCap);
    var s := Run(s0, before);
    InitInv(initB, initY, ringCap);
    RunKeeps(s0, before, initB, initY);
    RunKeeps(s, after, initB, initY);
    HistoryGrows(s0, before);
    HistoryGrows(s, after);
    RunKeepsRingDistinct(s0, before, initB, initY);
    RunKeepsRingDistinct(s, after, initB, initY);
    var m := Run(s, after).mgr;
    var n := s.mgr.history[i].seqNo;
    assert m.history[i] == s.mgr.history[i];
    assert Settled(m.history, n);
    RingRecall(m.history, ringCap, i);
    RecallForgotten(m.history, ringCap, n);
  }

  /** Once settled, a number is never accepted again, by any continuation whatsoever. */
  lemma NeverReaccepted(s: Server, acts: seq<Action>, n: nat)
    requires Settled(s.mgr.history, n)
    ensures !Decide(Run(s, acts).mgr, n).Accept?
  {
    HistoryGrows(s, acts);
    var i :| 0 <= i < |s.mgr.history| && s.mgr.history[i].seqNo == n;
    assert Run(s, acts).mgr.history[i].seqNo == n;
  }

  // ---- single settlement

  /** A grant whose number somebody else settled is used again only while the ring remembers the number. */
  ghost predicate Timely(s: Server, a: Action) {
    a.DoSettle? && a.g < |s.grants| && !s.grants[a.g].done && Settled(s.mgr.history, s.grants[a.g].seqNo)
    ==> Recall(s.mgr.history, s.mgr.ringCap, s.grants[a.g].seqNo).Some?
  }

  ghost predicate TimelyRun(s: Server, acts: seq<Action>)
    decreases |acts|
  {
    acts == [] || (Timely(s, acts[0]) && TimelyRun(Apply(s, acts[0]), acts[1..]))
  }

  /** The exact condition: an action settles a number twice if and only if it is not timely. */
  lemma SettlesTwiceIffLate(s: Server, a: Action)
    requires WellFormed(s.mgr) && Distinct(s.mgr.history)
    ensures Distinct(Apply(s, a).mgr.history) <==> Timely(s, a)
  {
    var h, h' := s.mgr.history, Apply(s, a).mgr.history;
    if h' != h {
      var n := s.grants[a.g].seqNo;
      assert h' == h + [Settlement(n, a.outcome)];
      if Settled(h, n) {
        var i :| 0 <= i < |h| && h[i].seqNo == n;
        assert h'[i].seqNo == h'[|h|].seqNo;
      }
    }
  }

  /** ... and for every run. */
  lemma {:induction false} DistinctIffTimely(s: Server, acts: seq<Action>, initB: int, initY: int)
    requires Inv(s, initB, initY) && Distinct(s.mgr.history)
    ensures Distinct(Run(s, acts).mgr.history) <==> TimelyRun(s, acts)
    decreases |acts|
  {
    if acts != [] {
      var s' := Apply(s, acts[0]);
      SettlesTwiceIffLate(s, acts[0]);
      ApplyKeeps(s, acts[0], initB, initY);
      if Distinct(s'.mgr.history) {
        DistinctIffTimely(s', acts[1..], initB, initY);
      } else {
        HistoryGrows(s', acts[1..]);
        var h := Run(s', acts[1..]).mgr.history;
        assert forall i :: 0 <= i < |s'.mgr.history| ==> h[i] == s'.mgr.history[i];
      }
    }
  }

  /** How many terminal decisions, hence refunds, the log holds for one number. */
  ghost function Refunds(log: seq<Event>, n: nat): nat {
    if log == [] then 0
    else Refunds(log[..|log| - 1], n) + if log[|log| - 1].Final? && log[|log| - 1].seqNo == n then 1 else 0
  }

  lemma {:induction false} RefundsSettled(log: seq<Event>, n: nat)
    requires Distinct(Finals(log))
    ensures Refunds(log, n) == if Settled(Finals(log), n) then 1 else 0
  {
    if log != [] {
      var p, e := log[..|log| - 1], log[|log| - 1];
      assert forall i :: 0 <= i < |Finals(p)| ==> Finals(log)[i] == Finals(p)[i];
      RefundsSettled(p, n);
      if e.Final? {
        SettledAppend(Finals(p), Settlement(e.seqNo, e.outcome));
        assert Finals(log)[|Finals(p)|].seqNo == e.seqNo;
      }
    }
  }

  lemma {:induction false} SettledRefunds(log: seq<Event>, n: nat)
    requires Settled(Finals(log), n)
    ensures Refunds(log, n) >= 1
  {
    var p, e := log[..|log| - 1], log[|log| - 1];
    if !(e.Final? && e.seqNo == n) {
      if e.Final? {
        SettledAppend(Finals(p), Settlement(e.seqNo, e.outcome));
      }
      SettledRefunds(p, n);
    }
  }

  /** A number that was settled twice was refunded twice. */
  lemma {:induction false} RepeatedRefunds(log: seq<Event>, i: nat, j: nat)
    requires i < j < |Finals(log)| && Finals(log)[i].seqNo == Finals(log)[j].seqNo
    ensures Refunds(log, Finals(log)[j].seqNo) >= 2
  {
    var p := log[..|log| - 1];
    var h := Finals(p);
    assert forall k :: 0 <= k < |h| ==> Finals(log)[k] == h[k];
    if j < |h| {
      RepeatedRefunds(p, i, j);
    } else {
      assert h[i].seqNo == Finals(log)[j].seqNo;
      SettledRefunds(p, Finals(log)[j].seqNo);
    }
  }

  /** Every number is refunded exactly once if it was settled, and never otherwise. */
  ghost predicate RefundedOnce(s: Server) {
    forall n: nat :: Refunds(s.log, n) == if Settled(s.mgr.history, n) then 1 else 0
  }

  /**
    Single settlement: under any interleaving of Settle, repeated Settle, two-step forced
    settlement, late callbacks and re-admission, every number's terminal is decided and its credit
    refunded exactly once if it was settled, if and only if no settlement in the run was late.
  */
  lemma SingleSettlement(acts: seq<Action>, initB: int, initY: int, ringCap: nat)
    requires ringCap >= 1
    ensures RefundedOnce(Run(Init(initB, initY, ringCap), acts))
            <==> TimelyRun(Init(initB, initY, ringCap), acts)
  {
    var s0 := Init(initB, initY, ringCap);
    var s := Run(s0, acts);
    InitInv(initB, initY, ringCap);
    DistinctIffTimely(s0, acts, initB, initY);
    RunKeeps(s0, acts, initB, initY);
    if Distinct(s.mgr.history) {
      forall n: nat
        ensures Refunds(s.log, n) == if Settled(s.mgr.history, n) then 1 else 0
      {
        RefundsSettled(s.log, n);
      }
    } else {
      var i, j :| 0 <= i < j < |s.mgr.history| && s.mgr.history[i].seqNo == s.mgr.history[j].seqNo;
      RepeatedRefunds(s.log, i, j);
      assert Refunds(s.log, s.mgr.history[j].seqNo) >= 2;
    }
  }
}

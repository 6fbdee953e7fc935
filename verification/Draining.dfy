/**
  RESULT frames and the client's slots, in every run of a connection: a slot is kept exactly for what
  is still under way, so a drained connection leaves an empty ledger.
*/
module Draining {
  import opened Connection
  import opened EndToEnd
  import opened Solvency
  import M = Manager
  import S = ServerRuns
  import L = Ledger

  /** The slot of a settled number waits only for a RESULT in transit; any other belongs to a frame under way. */
  ghost predicate Awaited(c: Conn) {
    && (forall n :: n in c.ledger.slots && M.Settled(c.server.mgr.history, n) ==> n in c.results)
    && (forall n :: n in c.ledger.slots ==> n in c.writing || n in c.wire || Known(c.server.mgr, n))
  }

  /** No slot is new, nothing is forgotten, no RESULT is taken away. */
  lemma AwaitedTouch(c: Conn, c': Conn)
    requires Awaited(c) && c'.writing == c.writing && c'.wire == c.wire
    requires forall n :: n in c'.ledger.slots ==> n in c.ledger.slots
    requires c'.server.mgr.history == c.server.mgr.history
    requires forall n: nat :: Known(c.server.mgr, n) ==> Known(c'.server.mgr, n)
    requires forall n :: n in c.results ==> n in c'.results
    ensures Awaited(c')
  {
  }

  lemma SendAwaited(c: Conn, bytes: nat, deadline: int)
    requires Awaited(c) && Fresh(c)
    ensures Awaited(DoSend(c, bytes, deadline))
  {
    assert !Known(c.server.mgr, c.lastSeq + 1);
  }

  lemma WriteOkAwaited(c: Conn, n: nat)
    requires Awaited(c) && n in c.writing
    ensures Awaited(Next(c, WriteOk(n)))
  {
  }

  lemma WriteFailAwaited(c: Conn, n: nat)
    requires Awaited(c) && n in c.writing
    ensures Awaited(DoWriteFail(c, n))
  {
  }

  lemma ArriveAwaited(c: Conn, n: nat, now: int)
    requires Awaited(c) && Fresh(c) && n in c.wire
    ensures Awaited(DoArrive(c, n, now))
  {
    ArriveEffect(c, n, now);
  }

  lemma ChargeAwaited(c: Conn, n: nat)
    requires Awaited(c) && n in c.admitted && Charges(c, c.admitted[n])
    ensures Awaited(DoCharge(c, n))
  {
    AnyCharge(c, n);
    assert DoCharge(c, n).server.mgr.history == c.server.mgr.history;
    AwaitedTouch(c, DoCharge(c, n));
  }

  /** A settlement that is recorded is also sent. */
  lemma SettledIsSent(c: Conn, g: nat, o: M.Outcome, y: int)
    requires g < |c.server.grants|
    ensures var c', n := DoSettle(c, g, o, y), c.server.grants[g].seqNo;
            || (c'.server.mgr.history == c.server.mgr.history && c'.results == c.results)
            || (c'.server.mgr.history == c.server.mgr.history + [M.Settlement(n, o)]
                && c'.results == c.results + multiset{n})
  {
  }

  lemma SettleAwaited(c: Conn, g: nat, o: M.Outcome, y: int)
    requires Awaited(c) && g < |c.server.grants| && Known(c.server.mgr, c.server.grants[g].seqNo)
    ensures Awaited(DoSettle(c, g, o, y))
  {
    AnySettlement(c, g, o, y);
    SettledIsSent(c, g, o, y);
    M.SettledAppend(c.server.mgr.history, M.Settlement(c.server.grants[g].seqNo, o));
  }

  lemma ResultAwaited(c: Conn, n: nat)
    requires Awaited(c) && n in c.results
    ensures Awaited(Next(c, ResultArrives(n)))
  {
  }

  lemma TakeAwaited(c: Conn, c': Conn)
    requires Awaited(c)
    requires c' == c.(server := c.server.(mgr := M.Take(c.server.mgr)), credits := c'.credits,
                      lostB := c'.lostB, lostY := c'.lostY)
    ensures Awaited(c')
  {
    assert forall k: nat :: Known(M.Take(c.server.mgr), k) <==> Known(c.server.mgr, k);
    AwaitedTouch(c, c');
  }

  /** An interim ACCEPTED goes out exactly when it is decided. */
  lemma AcceptSends(c: Conn, g: nat)
    requires g < |c.server.grants|
    ensures var c', t := Next(c, AcceptInterim(g)), c.server.grants[g];
            c'.results == if t.accepted || t.done then c.results else c.results + multiset{t.seqNo}
  {
  }

  lemma ForceCheckAwaited(c: Conn, n: nat)
    requires Awaited(c)
    ensures Awaited(Next(c, ForceCheck(n)))
  {
    AwaitedTouch(c, Next(c, ForceCheck(n)));
  }

  lemma HolderAwaited(c: Conn, a: Action)
    requires Awaited(c) && Held(c) && Enabled(c, a)
    requires a.AcceptInterim? || a.Backfill? || a.Settle? || a.ForceCheck? || a.Redeliver?
    ensures Awaited(Next(c, a))
  {
    match a
    case AcceptInterim(g) =>
      AcceptEffect(c, g);
      AcceptSends(c, g);
      AwaitedTouch(c, Next(c, a));
    case Backfill(g, corr) =>
      BackfillStep(c, g, corr);
      AwaitedTouch(c, Next(c, a));
    case Settle(g, o, y) => SettleAwaited(c, g, o, y);
    case ForceCheck(n) => ForceCheckAwaited(c, n);
    case Redeliver(n) =>
      RedeliverEffect(c, n);
      AwaitedTouch(c, Next(c, a));
  }

  lemma ClientAwaited(c: Conn, a: Action)
    requires Awaited(c) && Fresh(c) && Enabled(c, a)
    requires a.Send? || a.Skip? || a.WriteOk? || a.WriteFail? || a.CreditArrives? || a.ResultArrives? || a.ClientReap?
    ensures Awaited(Next(c, a))
  {
    match a
    case Send(bytes, deadline) => SendAwaited(c, bytes, deadline);
    case WriteOk(n) => WriteOkAwaited(c, n);
    case WriteFail(n) => WriteFailAwaited(c, n);
    case CreditArrives(i) =>
      CreditEffect(c, i);
      AwaitedTouch(c, Next(c, a));
    case ResultArrives(n) => ResultAwaited(c, n);
    case Skip => AwaitedTouch(c, Next(c, a));
    case ClientReap(_) => AwaitedTouch(c, Next(c, a));
  }

  lemma StepAwaited(c: Conn, a: Action, initB: nat, initY: nat)
    requires Awaited(c) && Solvent(c, initB, initY) && Enabled(c, a)
    ensures Awaited(Next(c, a))
  {
    if a.AcceptInterim? || a.Backfill? || a.Settle? || a.ForceCheck? || a.Redeliver? {
      HolderAwaited(c, a);
    } else if a.Arrive? {
      ArriveAwaited(c, a.n, a.now);
    } else if a.Charge? {
      CoveredAffords(c, a.n, initB, initY);
      ChargeAwaited(c, a.n);
    } else if a.Flush? || a.FlushLost? {
      TakeAwaited(c, Next(c, a));
    } else {
      ClientAwaited(c, a);
    }
  }

  lemma {:induction false} RunAwaited(c: Conn, acts: seq<Action>, initB: nat, initY: nat)
    requires Awaited(c) && Solvent(c, initB, initY) && Possible(c, acts)
    ensures Awaited(Run(c, acts))
    decreases |acts|
  {
    if acts != [] {
      StepAwaited(c, acts[0], initB, initY);
      StepSolvent(c, acts[0], initB, initY);
      RunAwaited(Next(c, acts[0]), acts[1..], initB, initY);
    }
  }

  /**
    In every run, the slot of a settled number is there only while a RESULT for it is in transit. So
    once nothing is being written, in transit or in flight on the server, the client's ledger is empty.
  */
  lemma LedgerDrains(initB: nat, initY: nat, clampB: int, clampY: int, ringCap: nat, acts: seq<Action>)
    requires Possible(Init(initB, initY, clampB, clampY, ringCap), acts)
    ensures var c := Run(Init(initB, initY, clampB, clampY, ringCap), acts);
            && (forall n :: n in c.ledger.slots && M.Settled(c.server.mgr.history, n) ==> n in c.results)
            && (c.writing == map[] && c.wire == map[] && c.server.mgr.inflight == map[] && c.results == multiset{} ==>
                  c.ledger.slots == map[])
  {
    RunAwaited(Init(initB, initY, clampB, clampY, ringCap), acts, initB, initY);
  }
}

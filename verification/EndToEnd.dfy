/** What every run of a connection keeps, and exactly when the two timing assumptions matter. */
module EndToEnd {
  import opened Connection
  import M = Manager
  import S = ServerRuns
  import L = Ledger

  ghost predicate Possible(c: Conn, acts: seq<Action>)
    decreases |acts|
  {
    acts == [] || (Enabled(c, acts[0]) && Possible(Next(c, acts[0]), acts[1..]))
  }

  ghost function Run(c: Conn, acts: seq<Action>): Conn
    requires Possible(c, acts)
    decreases |acts|
  {
    if acts == [] then c else Run(Next(c, acts[0]), acts[1..])
  }

  ghost predicate PromptRun(c: Conn, acts: seq<Action>)
    requires Possible(c, acts)
    decreases |acts|
  {
    acts == [] || (Prompt(c, acts[0]) && PromptRun(Next(c, acts[0]), acts[1..]))
  }

  lemma InitInv(initB: nat, initY: nat, clampB: int, clampY: int, ringCap: nat)
    requires ringCap >= 1
    ensures Inv(Init(initB, initY, clampB, clampY, ringCap), initB, initY)
  {
  }

  lemma {:induction false} RunKeeps(c: Conn, acts: seq<Action>, initB: nat, initY: nat)
    requires Inv(c, initB, initY) && Possible(c, acts) && PromptRun(c, acts)
    ensures Inv(Run(c, acts), initB, initY)
    decreases |acts|
  {
    if acts != [] {
      StepKeeps(c, acts[0], initB, initY);
      RunKeeps(Next(c, acts[0]), acts[1..], initB, initY);
    }
  }

  /** Credit beyond the client's own clamp: issued by the server, never usable by the client. */
  ghost function SlackB(c: Conn, initB: nat): int { initB - c.ledger.grantedB }
  ghost function SlackY(c: Conn, initY: nat): int { initY - c.ledger.grantedY }

  /**
    No false abort. In every prompt run the server's issued credit is the client's available credit, plus
    BATCH and CREDIT frames in transit, plus the clamp slack and the losses, in both dimensions.
    So no admitted frame can fail its charge, no CREDIT frame is malformed or exceeds what the
    client is owed, and neither side ever tears the session down or counts a violation.
  */
  lemma NoFalseAbort(initB: nat, initY: nat, clampB: int, clampY: int, ringCap: nat, acts: seq<Action>)
    requires ringCap >= 1 && Possible(Init(initB, initY, clampB, clampY, ringCap), acts)
    requires PromptRun(Init(initB, initY, clampB, clampY, ringCap), acts)
    ensures var c := Run(Init(initB, initY, clampB, clampY, ringCap), acts);
            && c.server.mgr.outB == c.ledger.AvailB() + UnchargedB(c) + CreditB(c.credits) + SlackB(c, initB) + c.lostB
            && c.server.mgr.outY == c.ledger.AvailY() + UnchargedY(c) + CreditY(c.credits) + SlackY(c, initY) + c.lostY
            && SlackB(c, initB) >= 0 && SlackY(c, initY) >= 0
            && (forall n :: n in c.admitted ==> M.Affordable(c.server.mgr, c.admitted[n].bytes))
            && (forall i :: 0 <= i < |c.credits| ==>
                  1 <= c.credits[i].b <= c.ledger.OwedB() && 1 <= c.credits[i].y <= c.ledger.OwedY())
            && !c.aborted && !c.torn && c.ledger.violations == 0
  {
    var c0 := Init(initB, initY, clampB, clampY, ringCap);
    var c := Run(c0, acts);
    InitInv(initB, initY, clampB, clampY, ringCap);
    RunKeeps(c0, acts, initB, initY);
    forall n | n in c.admitted
      ensures M.Affordable(c.server.mgr, c.admitted[n].bytes)
    {
      ChargeAffordable(c, n, initB, initY);
    }
    forall i: nat | i < |c.credits|
      ensures 1 <= c.credits[i].b <= c.ledger.OwedB() && 1 <= c.credits[i].y <= c.ledger.OwedY()
    {
      CreditKeeps(c, i, initB, initY);
    }
  }

  /**
    The books of both sides in every run. Client: what is owed is uncharged, charged in flight,
    recovered, on its way back, or lost. Server: issued plus recovered credit is the initial credit
    minus the charges of the slots in flight. Recovered batches are zero exactly when bytes are.
  */
  lemma BooksBalance(initB: nat, initY: nat, clampB: int, clampY: int, ringCap: nat, acts: seq<Action>)
    requires ringCap >= 1 && Possible(Init(initB, initY, clampB, clampY, ringCap), acts)
    requires PromptRun(Init(initB, initY, clampB, clampY, ringCap), acts)
    ensures var c := Run(Init(initB, initY, clampB, clampY, ringCap), acts);
            var m, l := c.server.mgr, c.ledger;
            && l.OwedB() == UnchargedB(c) + ChargedB(c) + m.recB + CreditB(c.credits) + c.lostB
            && l.OwedY() == UnchargedY(c) + ChargedY(c) + m.recY + CreditY(c.credits) + c.lostY
            && M.HeldB(m) == initB - ChargedB(c) && M.HeldY(m) == initY - ChargedY(c)
            && m.recB >= 0 && (m.recB == 0 <==> m.recY == 0)
  {
    InitInv(initB, initY, clampB, clampY, ringCap);
    RunKeeps(Init(initB, initY, clampB, clampY, ringCap), acts, initB, initY);
  }

  // ---------------------------------------------------------------- full return

  ghost predicate Quiescent(c: Conn) {
    && c.writing == map[] && c.wire == map[] && c.admitted == map[] && c.server.mgr.inflight == map[]
    && c.server.mgr.recB == 0 && c.server.mgr.recY == 0 && c.credits == []
  }

  /**
    The two writes whose failure nothing compensates: a BATCH whose slot is already gone, so that
    Rollback finds nothing, and a CREDIT frame that carries recovered credit.
  */
  ghost predicate Leaks(c: Conn, a: Action) {
    || (a.WriteFail? && a.n !in c.ledger.slots)
    || (a.FlushLost? && c.server.mgr.recB > 0)
  }

  ghost predicate LeakFree(c: Conn, acts: seq<Action>)
    requires Possible(c, acts)
    decreases |acts|
  {
    acts == [] || (!Leaks(c, acts[0]) && LeakFree(Next(c, acts[0]), acts[1..]))
  }

  lemma HolderStepKeepsLedger(c: Conn, a: Action)
    requires Enabled(c, a) && (a.AcceptInterim? || a.Settle? || a.Backfill? || a.ForceCheck?)
    ensures Next(c, a).writing == c.writing && Next(c, a).ledger == c.ledger
    ensures Next(c, a).lostB == c.lostB && Next(c, a).lostY == c.lostY
  {
    match a
    case AcceptInterim(_) =>
    case Settle(_, _, _) =>
    case Backfill(_, _) =>
    case ForceCheck(_) =>
  }

  lemma ArriveKeepsLedger(c: Conn, n: nat, now: int)
    requires n in c.wire
    ensures var c' := DoArrive(c, n, now);
            c'.writing == c.writing && c'.ledger == c.ledger && c'.lostB == c.lostB && c'.lostY == c.lostY
  {
  }

  /** Steps of the server leave the client's side alone. */
  lemma ServerStepKeepsLedger(c: Conn, a: Action)
    requires Enabled(c, a)
    requires !a.Send? && !a.WriteOk? && !a.WriteFail? && !a.CreditArrives? && !a.ResultArrives? && !a.ClientReap?
    ensures Next(c, a).writing == c.writing && Next(c, a).ledger == c.ledger
    ensures !a.FlushLost? ==> Next(c, a).lostB == c.lostB && Next(c, a).lostY == c.lostY
  {
    match a
    case Arrive(n, now) => ArriveKeepsLedger(c, n, now);
    case Charge(_) =>
    case Redeliver(_) =>
    case AcceptInterim(_) => HolderStepKeepsLedger(c, a);
    case Settle(_, _, _) => HolderStepKeepsLedger(c, a);
    case Backfill(_, _) => HolderStepKeepsLedger(c, a);
    case ForceCheck(_) => HolderStepKeepsLedger(c, a);
    case _ =>
  }

  lemma CreditLossless(c: Conn, i: nat)
    requires i < |c.credits|
    ensures var c' := DoCreditArrives(c, i);
            && c'.lostB == c.lostB && c'.lostY == c.lostY
            && c'.ledger.grantedB == c.ledger.grantedB && c'.ledger.grantedY == c.ledger.grantedY
  {
  }

  lemma ClientLossless(c: Conn, a: Action)
    requires Enabled(c, a) && (a.Send? || a.WriteOk? || a.CreditArrives? || a.ResultArrives? || a.ClientReap?)
    ensures Next(c, a).lostB == c.lostB && Next(c, a).lostY == c.lostY
    ensures Next(c, a).ledger.grantedB == c.ledger.grantedB && Next(c, a).ledger.grantedY == c.ledger.grantedY
  {
    match a
    case Send(_, _) =>
    case WriteOk(_) =>
    case CreditArrives(i) => CreditLossless(c, i);
    case ResultArrives(_) =>
    case ClientReap(_) =>
  }

  lemma OtherwiseLossless(c: Conn, a: Action)
    requires Enabled(c, a) && !a.WriteFail? && !a.FlushLost?
    ensures Next(c, a).lostB == c.lostB && Next(c, a).lostY == c.lostY
    ensures Next(c, a).ledger.grantedB == c.ledger.grantedB && Next(c, a).ledger.grantedY == c.ledger.grantedY
  {
    if a.Send? || a.WriteOk? || a.CreditArrives? || a.ResultArrives? || a.ClientReap? {
      ClientLossless(c, a);
    } else {
      ServerStepKeepsLedger(c, a);
    }
  }

  lemma LossOf(c: Conn, a: Action)
    requires Enabled(c, a) && (a.WriteFail? ==> c.writing[a.n] >= 1)
    requires var m := c.server.mgr; (m.recB == 0 && m.recY == 0) || (m.recB >= 1 && m.recY >= 1)
    ensures Leaks(c, a) ==> Next(c, a).lostB > c.lostB && Next(c, a).lostY > c.lostY
    ensures !Leaks(c, a) ==> Next(c, a).lostB == c.lostB && Next(c, a).lostY == c.lostY
    ensures Next(c, a).ledger.grantedB == c.ledger.grantedB && Next(c, a).ledger.grantedY == c.ledger.grantedY
  {
    if a.FlushLost? {
      ServerStepKeepsLedger(c, a);
    } else if a.WriteFail? {
    } else {
      OtherwiseLossless(c, a);
    }
  }

  lemma StepLoss(c: Conn, a: Action, initB: nat, initY: nat)
    requires Inv(c, initB, initY) && Enabled(c, a)
    ensures Leaks(c, a) ==> Next(c, a).lostB > c.lostB && Next(c, a).lostY > c.lostY
    ensures !Leaks(c, a) ==> Next(c, a).lostB == c.lostB && Next(c, a).lostY == c.lostY
    ensures Next(c, a).ledger.grantedB == c.ledger.grantedB && Next(c, a).ledger.grantedY == c.ledger.grantedY
  {
    LossOf(c, a);
  }

  lemma {:induction false} LossesOnlyGrow(c: Conn, acts: seq<Action>, initB: nat, initY: nat)
    requires Inv(c, initB, initY) && Possible(c, acts) && PromptRun(c, acts)
    ensures Run(c, acts).lostB >= c.lostB && Run(c, acts).lostY >= c.lostY
    ensures Run(c, acts).ledger.grantedB == c.ledger.grantedB && Run(c, acts).ledger.grantedY == c.ledger.grantedY
    decreases |acts|
  {
    if acts != [] {
      StepKeeps(c, acts[0], initB, initY);
      StepLoss(c, acts[0], initB, initY);
      LossesOnlyGrow(Next(c, acts[0]), acts[1..], initB, initY);
    }
  }

  lemma {:induction false} LeakFreeIffNoLoss(c: Conn, acts: seq<Action>, initB: nat, initY: nat)
    requires Inv(c, initB, initY) && Possible(c, acts) && PromptRun(c, acts)
    ensures LeakFree(c, acts) ==> Run(c, acts).lostB == c.lostB && Run(c, acts).lostY == c.lostY
    ensures !LeakFree(c, acts) ==> Run(c, acts).lostB > c.lostB && Run(c, acts).lostY > c.lostY
    decreases |acts|
  {
    if acts != [] {
      var c1 := Next(c, acts[0]);
      StepKeeps(c, acts[0], initB, initY);
      StepLoss(c, acts[0], initB, initY);
      LeakFreeIffNoLoss(c1, acts[1..], initB, initY);
      LossesOnlyGrow(c1, acts[1..], initB, initY);
    }
  }

  /**
    Full return. Once nothing is in transit, in flight or waiting, the client has its whole original
    grant back in both dimensions if and only if no BATCH write failed after its slot had been
    dropped and no CREDIT write failed while it carried recovered credit.
  */
  lemma FullReturnIffLeakFree(initB: nat, initY: nat, clampB: int, clampY: int, ringCap: nat, acts: seq<Action>)
    requires ringCap >= 1 && Possible(Init(initB, initY, clampB, clampY, ringCap), acts)
    requires PromptRun(Init(initB, initY, clampB, clampY, ringCap), acts)
    requires Quiescent(Run(Init(initB, initY, clampB, clampY, ringCap), acts))
    ensures var c0 := Init(initB, initY, clampB, clampY, ringCap);
            var c := Run(c0, acts);
            && (LeakFree(c0, acts) <==> c.ledger.AvailB() == c0.ledger.grantedB)
            && (LeakFree(c0, acts) <==> c.ledger.AvailY() == c0.ledger.grantedY)
            && c.server.mgr.outB == initB && c.server.mgr.outY == initY
  {
    var c0 := Init(initB, initY, clampB, clampY, ringCap);
    InitInv(initB, initY, clampB, clampY, ringCap);
    RunKeeps(c0, acts, initB, initY);
    LeakFreeIffNoLoss(c0, acts, initB, initY);
    LossesOnlyGrow(c0, acts, initB, initY);
  }

  /** The client reaper never drops the slot of a frame being written, and CREDIT writes succeed. */
  ghost predicate Patient(c: Conn, acts: seq<Action>)
    requires Possible(c, acts)
    decreases |acts|
  {
    acts == [] ||
    (&& !acts[0].FlushLost?
     && (acts[0].ClientReap? ==>
           forall n :: n in c.writing && n in c.ledger.slots ==> acts[0].now <= c.ledger.slots[n].deadline)
     && Patient(Next(c, acts[0]), acts[1..]))
  }

  ghost predicate SlotsForWrites(c: Conn) { forall n :: n in c.writing ==> n in c.ledger.slots }

  /** A well-formed CREDIT frame drops no slot. */
  lemma CreditKeepsSlots(c: Conn, i: nat)
    requires i < |c.credits| && c.credits[i].b >= 1 && c.credits[i].y >= 1
    ensures DoCreditArrives(c, i).ledger.slots == c.ledger.slots && DoCreditArrives(c, i).writing == c.writing
  {
  }

  lemma SlotsStep(c: Conn, a: Action)
    requires Enabled(c, a) && SlotsForWrites(c)
    requires a.ClientReap? ==> forall n :: n in c.writing ==> a.now <= c.ledger.slots[n].deadline
    requires a.ResultArrives? ==> a.n !in c.writing
    requires a.CreditArrives? ==> c.credits[a.i].b >= 1 && c.credits[a.i].y >= 1
    ensures SlotsForWrites(Next(c, a))
  {
    match a
    case Send(_, _) =>
    case WriteOk(_) =>
    case WriteFail(_) =>
    case CreditArrives(i) => CreditKeepsSlots(c, i);
    case ResultArrives(_) =>
    case ClientReap(_) =>
    case _ => ServerStepKeepsLedger(c, a);
  }

  /** Only the client reaper can drop such a slot: a RESULT never refers to an unsent frame. */
  lemma StepKeepsSlots(c: Conn, a: Action)
    requires Places(c) && GoodCredits(c.credits) && Enabled(c, a) && SlotsForWrites(c)
    requires a.ClientReap? ==> forall n :: n in c.writing ==> a.now <= c.ledger.slots[n].deadline
    ensures SlotsForWrites(Next(c, a))
  {
    if a.ResultArrives? {
      assert Known(c.server.mgr, a.n);
    }
    SlotsStep(c, a);
  }

  /** A patient reaper makes every run leak-free, so the grant always comes back in full. */
  lemma {:induction false} PatientIsLeakFree(c: Conn, acts: seq<Action>, initB: nat, initY: nat)
    requires Inv(c, initB, initY) && SlotsForWrites(c) && Possible(c, acts) && PromptRun(c, acts) && Patient(c, acts)
    ensures LeakFree(c, acts)
    decreases |acts|
  {
    if acts != [] {
      StepKeeps(c, acts[0], initB, initY);
      StepKeepsSlots(c, acts[0]);
      PatientIsLeakFree(Next(c, acts[0]), acts[1..], initB, initY);
    }
  }

  /** Full return, from a condition on the reaper's clock alone. */
  lemma FullReturn(initB: nat, initY: nat, clampB: int, clampY: int, ringCap: nat, acts: seq<Action>)
    requires ringCap >= 1 && Possible(Init(initB, initY, clampB, clampY, ringCap), acts)
    requires PromptRun(Init(initB, initY, clampB, clampY, ringCap), acts)
    requires Patient(Init(initB, initY, clampB, clampY, ringCap), acts)
    requires Quiescent(Run(Init(initB, initY, clampB, clampY, ringCap), acts))
    ensures var c0 := Init(initB, initY, clampB, clampY, ringCap);
            var c := Run(c0, acts);
            c.ledger.AvailB() == c0.ledger.grantedB && c.ledger.AvailY() == c0.ledger.grantedY
  {
    var c0 := Init(initB, initY, clampB, clampY, ringCap);
    InitInv(initB, initY, clampB, clampY, ringCap);
    PatientIsLeakFree(c0, acts, initB, initY);
    FullReturnIffLeakFree(initB, initY, clampB, clampY, ringCap, acts);
  }

  /** A concrete leak: the reaper times a slow write out, the write then fails, one batch is gone for good. */
  lemma SlowWriteLeaks(initB: nat, initY: nat, bytes: nat, deadline: int)
    requires 1 <= initB <= L.DEFAULT_CLAMP_BATCHES && 1 <= bytes <= initY <= L.DEFAULT_CLAMP_BYTES
    ensures var c1 := Next(Init(initB, initY, 0, 0, 256), Send(bytes, deadline));
            var c2 := Next(c1, ClientReap(deadline + 1));
            && Enabled(c2, WriteFail(1))
            && var c3 := Next(c2, WriteFail(1));
               Quiescent(c3) && c3.ledger.AvailB() == initB - 1 && c3.ledger.AvailY() == initY - bytes
  {
    var c1 := Next(Init(initB, initY, 0, 0, 256), Send(bytes, deadline));
    assert c1.writing == map[1 := bytes];
    var c2 := Next(c1, ClientReap(deadline + 1));
    assert 1 !in c2.ledger.slots;
    assert c2.writing - {1} == map[];
  }

  // ---------------------------------------------------------------- the timing assumptions are exact

  lemma UnchargedEffect(c: Conn, g: nat, o: M.Outcome, y: int)
    requires g < |c.server.grants| && !c.server.grants[g].done
    requires var n := c.server.grants[g].seqNo;
             n in c.server.mgr.inflight && c.server.mgr.inflight[n].bytes == 0
    ensures var c', m, n := DoSettle(c, g, o, y), c.server.mgr, c.server.grants[g].seqNo;
            && c' == c.(server := c'.server, results := c'.results)
            && c'.server.mgr == m.(inflight := m.inflight - {n}, history := m.history + [M.Settlement(n, o)],
                                   recB := m.recB + 1, recY := m.recY + if y > 0 then y else 0)
  {
  }

  /** Settling an uncharged slot, by any holder, recovers a batch nobody was charged for. */
  lemma UnchargedSettlement(c: Conn, g: nat, o: M.Outcome, y: int, initB: nat, initY: nat)
    requires Inv(c, initB, initY) && g < |c.server.grants| && !c.server.grants[g].done
    requires c.server.grants[g].seqNo in c.admitted
    ensures var c' := DoSettle(c, g, o, y);
            && c'.server.mgr.recB == c.server.mgr.recB + 1 && c'.credits == c.credits
            && c'.server.mgr.recY == c.server.mgr.recY + (if y > 0 then y else 0)
            && !Books(c', initB, initY)
  {
    var n, m := c.server.grants[g].seqNo, c.server.mgr;
    assert n in m.inflight && m.inflight[n].bytes == 0;
    UnchargedEffect(c, g, o, y);
    SlotSums(m.inflight, n, m.inflight[n]);
  }

  /** A late settlement refunds a batch that was already refunded. */
  lemma LateSettlement(c: Conn, g: nat, o: M.Outcome, y: int, initB: nat, initY: nat)
    requires Inv(c, initB, initY) && g < |c.server.grants| && !S.Timely(c.server, S.DoSettle(g, o, y))
    ensures !Books(DoSettle(c, g, o, y), initB, initY)
  {
    var n, m := c.server.grants[g].seqNo, c.server.mgr;
    assert n !in m.inflight;
    assert m.inflight - {n} == m.inflight;
    assert DoSettle(c, g, o, y).server.mgr.recB == m.recB + 1;
  }

  /**
    From any state with the invariant, the lock section that settles, entered by whichever holder and with
    whatever byte figure, keeps the books if and only if it is timely and the slot is charged.
  */
  lemma SettlementKeepsBooksIff(c: Conn, g: nat, o: M.Outcome, y: int, initB: nat, initY: nat)
    requires Inv(c, initB, initY) && g < |c.server.grants|
    ensures Books(DoSettle(c, g, o, y), initB, initY)
            <==> S.Timely(c.server, S.DoSettle(g, o, y))
                 && (!c.server.grants[g].done ==> c.server.grants[g].seqNo !in c.admitted)
  {
    if Prompt(c, Settle(g, o, y)) {
      SettleKeeps(c, g, o, y, initB, initY);
    } else if !S.Timely(c.server, S.DoSettle(g, o, y)) {
      LateSettlement(c, g, o, y, initB, initY);
    } else {
      UnchargedSettlement(c, g, o, y, initB, initY);
    }
  }

  ghost predicate BooksThroughout(c: Conn, acts: seq<Action>, initB: nat, initY: nat)
    requires Possible(c, acts)
    decreases |acts|
  {
    Books(c, initB, initY) && (acts == [] || BooksThroughout(Next(c, acts[0]), acts[1..], initB, initY))
  }

  /** So the assumption is exact for whole runs: the books hold after every step iff the run is prompt. */
  lemma {:induction false} BooksThroughoutIffPrompt(c: Conn, acts: seq<Action>, initB: nat, initY: nat)
    requires Inv(c, initB, initY) && Possible(c, acts)
    ensures BooksThroughout(c, acts, initB, initY) <==> PromptRun(c, acts)
    decreases |acts|
  {
    if acts != [] {
      if Prompt(c, acts[0]) {
        StepKeeps(c, acts[0], initB, initY);
        BooksThroughoutIffPrompt(Next(c, acts[0]), acts[1..], initB, initY);
      } else {
        SettlementKeepsBooksIff(c, acts[0].g, acts[0].outcome, acts[0].frameBytes, initB, initY);
      }
    }
  }

  lemma ChargeThenSettle(c: Conn, n: nat, g: nat, o: M.Outcome, y: int, initB: nat, initY: nat)
    requires Inv(c, initB, initY) && n in c.admitted
    requires g < |c.server.grants| && c.server.grants[g] == S.Grant(n, false, false)
    ensures var c' := Next(c, Charge(n));
            && Enabled(c', Settle(g, o, y)) && Inv(Next(c', Settle(g, o, y)), initB, initY)
  {
    ChargeAffordable(c, n, initB, initY);
    ChargeEffect(c, n);
    ChargeKeeps(c, n, initB, initY);
    SettleKeeps(Next(c, Charge(n)), g, o, y, initB, initY);
  }

  /**
    A charge that comes between the two lock sections saves a forced settlement of a slot that was
    uncharged at the check.
  */
  lemma ChargedBetweenKeepsBooks(c: Conn, n: nat, o: M.Outcome, y: int, initB: nat, initY: nat)
    requires Inv(c, initB, initY) && n in c.admitted
    ensures var c1 := Next(c, ForceCheck(n));
            && Enabled(c1, Charge(n))
            && var c2 := Next(c1, Charge(n));
               && Enabled(c2, Settle(|c.server.grants|, o, y))
               && Inv(Next(c2, Settle(|c.server.grants|, o, y)), initB, initY)
  {
    ForceCheckKeeps(c, n, initB, initY);
    ChargeThenSettle(Next(c, ForceCheck(n)), n, |c.server.grants|, o, y, initB, initY);
  }

  lemma MalformedFlush(c: Conn)
    requires c.server.mgr.recB == 1 && c.server.mgr.recY == 0
    ensures DoFlush(c).credits == c.credits + [Credit(1, 0)]
    ensures DoCreditArrives(DoFlush(c), |c.credits|).torn
  {
  }

  /**
    Without it, when nothing else was waiting, the next flush sends CREDIT(1, 0), on which a correct
    client tears its session down.
  */
  lemma ForcedUnchargedTearsDown(c: Conn, n: nat, o: M.Outcome, initB: nat, initY: nat)
    requires Inv(c, initB, initY) && n in c.admitted && c.server.mgr.recB == 0
    ensures var c1 := Next(c, ForceCheck(n));
            var y := c.server.mgr.inflight[n].bytes;          // what the reaper passes
            && Enabled(c1, Settle(|c.server.grants|, o, y))
            && var c2 := DoFlush(Next(c1, Settle(|c.server.grants|, o, y)));
               && c2.credits == c.credits + [Credit(1, 0)]
               && DoCreditArrives(c2, |c.credits|).torn
  {
    var c1, g := Next(c, ForceCheck(n)), |c.server.grants|;
    ForceCheckKeeps(c, n, initB, initY);
    assert c1.server.grants[g] == S.Grant(n, false, false);
    UnchargedSettlement(c1, g, o, 0, initB, initY);
    MalformedFlush(Next(c1, Settle(g, o, 0)));
  }

  /** Such a state is three steps away: send, write, arrive. */
  lemma UnchargedIsReachable(initB: nat, initY: nat, bytes: nat)
    requires 1 <= initB <= L.DEFAULT_CLAMP_BATCHES && 1 <= bytes <= initY <= L.DEFAULT_CLAMP_BYTES
    ensures var c1 := Next(Init(initB, initY, 0, 0, 256), Send(bytes, 0));
            && Enabled(c1, WriteOk(1))
            && var c2 := Next(c1, WriteOk(1));
            && Enabled(c2, Arrive(1, 0))
            && var c3 := Next(c2, Arrive(1, 0));
               Inv(c3, initB, initY) && 1 in c3.admitted && c3.server.mgr.recB == 0
  {
    var c0 := Init(initB, initY, 0, 0, 256);
    InitInv(initB, initY, 0, 0, 256);
    SendKeeps(c0, bytes, 0, initB, initY);
    var c1 := Next(c0, Send(bytes, 0));
    assert c1.writing == map[1 := bytes];
    WriteOkKeeps(c1, 1, initB, initY);
    var c2 := Next(c1, WriteOk(1));
    assert c2.wire == map[1 := bytes];
    ArriveKeeps(c2, 1, 0, initB, initY);
    ArriveEffect(c2, 1, 0);
  }
}

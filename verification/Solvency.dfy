/**
  What holds in every run of a connection, whatever the timing: late settlements and forced settlements
  of uncharged slots included. The server's issued credit covers everything the client may still spend,
  so no charge ever fails.
*/
module Solvency {
  import opened Basics
  import opened Connection
  import opened EndToEnd
  import M = Manager
  import S = ServerRuns
  import L = Ledger

  /** Frames under way are new to the server, and a slot holds what its pending write costs. */
  ghost predicate Fresh(c: Conn) {
    && (forall n :: n in c.writing ==> 1 <= n <= c.lastSeq && n !in c.wire && !Known(c.server.mgr, n))
    && (forall n :: n in c.wire ==> 1 <= n <= c.lastSeq && !Known(c.server.mgr, n))
    && (forall n: nat :: Known(c.server.mgr, n) ==> 1 <= n <= c.lastSeq)
    && (forall n :: n in c.writing && n in c.ledger.slots ==> c.ledger.slots[n].bytes == c.writing[n])
  }

  /** Every admitted frame has its own unfinished grant, even if its slot has been settled by force. */
  ghost predicate Held(c: Conn) {
    && (forall n :: n in c.admitted ==>
          && Known(c.server.mgr, n) && c.admitted[n].grant < |c.server.grants|
          && c.server.grants[c.admitted[n].grant].seqNo == n && !c.server.grants[c.admitted[n].grant].done)
    && (forall g: nat :: g < |c.server.grants| ==> Known(c.server.mgr, c.server.grants[g].seqNo))
  }

  /** Credits under way are never negative; a zero is possible and makes the client tear down. */
  ghost predicate Unsigned(cs: seq<Credit>) { forall i :: 0 <= i < |cs| ==> cs[i].b >= 0 && cs[i].y >= 0 }

  /** Issued credit covers what the client has, what is under way in both directions, slack and losses. */
  ghost predicate Covered(c: Conn, initB: nat, initY: nat) {
    var m, l := c.server.mgr, c.ledger;
    && m.outB >= l.AvailB() + UnchargedB(c) + CreditB(c.credits) + SlackB(c, initB) + c.lostB
    && m.outY >= l.AvailY() + UnchargedY(c) + CreditY(c.credits) + SlackY(c, initY) + c.lostY
    && L.Safe(l) && SlackB(c, initB) >= 0 && SlackY(c, initY) >= 0
    && m.recB >= 0 && m.recY >= 0 && c.lostB >= 0 && c.lostY >= 0 && Unsigned(c.credits)
  }

  ghost predicate Solvent(c: Conn, initB: nat, initY: nat) {
    Fresh(c) && Held(c) && Covered(c, initB, initY) && !c.aborted
  }

  // ---------------------------------------------------------------- steps that move no credit

  /** The same numbers are known, the same frames under way, and no slot is new. */
  lemma FreshTouch(c: Conn, c': Conn)
    requires Fresh(c) && c'.wire == c.wire && c'.lastSeq >= c.lastSeq
    requires forall n :: n in c'.writing ==> n in c.writing && c'.writing[n] == c.writing[n]
    requires forall n :: n in c'.ledger.slots ==> n in c.ledger.slots && c'.ledger.slots[n] == c.ledger.slots[n]
    requires forall n: nat :: Known(c'.server.mgr, n) <==> Known(c.server.mgr, n)
    ensures Fresh(c')
  {
  }

  lemma HeldTouch(c: Conn, c': Conn)
    requires Held(c) && c'.admitted == c.admitted && |c'.server.grants| == |c.server.grants|
    requires forall n: nat :: Known(c.server.mgr, n) ==> Known(c'.server.mgr, n)
    requires forall g :: 0 <= g < |c.server.grants| ==> c'.server.grants[g].seqNo == c.server.grants[g].seqNo
    requires forall n :: n in c.admitted && c.admitted[n].grant < |c.server.grants| ==>
                           c'.server.grants[c.admitted[n].grant].done == c.server.grants[c.admitted[n].grant].done
    ensures Held(c')
  {
  }

  /** Only the slots, the results, the grants and the recovered credit differ. */
  lemma CoveredTouch(c: Conn, c': Conn, initB: nat, initY: nat)
    requires Covered(c, initB, initY)
    requires c' == c.(server := c'.server, results := c'.results, lastSeq := c'.lastSeq,
                      ledger := c.ledger.(slots := c'.ledger.slots))
    requires var m, m' := c.server.mgr, c'.server.mgr;
             m'.outB == m.outB && m'.outY == m.outY && m'.recB >= m.recB && m'.recY >= m.recY
    ensures Covered(c', initB, initY)
  {
  }

  lemma QuietSolvent(c: Conn, a: Action, initB: nat, initY: nat)
    requires Solvent(c, initB, initY) && Enabled(c, a) && (a.Skip? || a.ResultArrives? || a.ClientReap?)
    ensures Solvent(Next(c, a), initB, initY)
  {
    QuietEffect(c, a);
    FreshTouch(c, Next(c, a));
    HeldTouch(c, Next(c, a));
    CoveredTouch(c, Next(c, a), initB, initY);
  }

  lemma RedeliverSolvent(c: Conn, n: nat, initB: nat, initY: nat)
    requires Solvent(c, initB, initY) && Known(c.server.mgr, n)
    ensures Solvent(Next(c, Redeliver(n)), initB, initY)
  {
    RedeliverEffect(c, n);
    FreshTouch(c, Next(c, Redeliver(n)));
    HeldTouch(c, Next(c, Redeliver(n)));
    CoveredTouch(c, Next(c, Redeliver(n)), initB, initY);
  }

  /** What any settlement does to the server, late, forced, uncharged or repeated. */
  lemma AnySettlement(c: Conn, g: nat, o: M.Outcome, y: int)
    requires g < |c.server.grants| && Known(c.server.mgr, c.server.grants[g].seqNo)
    ensures var c', m := DoSettle(c, g, o, y), c.server.mgr;
            && c' == c.(server := c'.server, results := c'.results)
            && c'.server.mgr.outB == m.outB && c'.server.mgr.outY == m.outY
            && c'.server.mgr.recB >= m.recB && c'.server.mgr.recY >= m.recY
            && c'.server.grants == c.server.grants[g := c.server.grants[g].(done := true)]
            && forall k: nat :: Known(c'.server.mgr, k) <==> Known(m, k)
  {
    var n, m := c.server.grants[g].seqNo, c.server.mgr;
    M.SettledAppend(m.history, M.Settlement(n, o));
  }

  lemma SettleSolvent(c: Conn, g: nat, o: M.Outcome, y: int, initB: nat, initY: nat)
    requires Solvent(c, initB, initY) && Enabled(c, Settle(g, o, y))
    ensures Solvent(DoSettle(c, g, o, y), initB, initY)
  {
    AnySettlement(c, g, o, y);
    FreshTouch(c, DoSettle(c, g, o, y));
    HeldTouch(c, DoSettle(c, g, o, y));
    CoveredTouch(c, DoSettle(c, g, o, y), initB, initY);
  }

  lemma AcceptSolvent(c: Conn, g: nat, initB: nat, initY: nat)
    requires Solvent(c, initB, initY) && g < |c.server.grants|
    ensures Solvent(Next(c, AcceptInterim(g)), initB, initY)
  {
    AcceptEffect(c, g);
    FreshTouch(c, Next(c, AcceptInterim(g)));
    HeldTouch(c, Next(c, AcceptInterim(g)));
    CoveredTouch(c, Next(c, AcceptInterim(g)), initB, initY);
  }

  lemma BackfillSolvent(c: Conn, g: nat, corr: string, initB: nat, initY: nat)
    requires Solvent(c, initB, initY) && g < |c.server.grants|
    ensures Solvent(Next(c, Backfill(g, corr)), initB, initY)
  {
    var c' := Next(c, Backfill(g, corr));
    BackfillEffect(c, g, corr);
    assert forall k: nat :: Known(c'.server.mgr, k) <==> Known(c.server.mgr, k);
    FreshTouch(c, c');
    HeldTouch(c, c');
    CoveredTouch(c, c', initB, initY);
  }

  lemma OneMoreHolder(c: Conn, c': Conn, n: nat)
    requires Held(c) && Known(c.server.mgr, n)
    requires c' == c.(server := c.server.(grants := c.server.grants + [S.Grant(n, false, false)]))
    ensures Held(c')
  {
  }

  lemma ForceCheckSolvent(c: Conn, n: nat, initB: nat, initY: nat)
    requires Solvent(c, initB, initY)
    ensures Solvent(Next(c, ForceCheck(n)), initB, initY)
  {
    var c' := Next(c, ForceCheck(n));
    if n in c.server.mgr.inflight {
      OneMoreHolder(c, c', n);
      FreshTouch(c, c');
      CoveredTouch(c, c', initB, initY);
    } else {
      assert c' == c;
    }
  }

  // ---------------------------------------------------------------- steps that move credit

  lemma SendFresh(c: Conn, c': Conn, bytes: nat, deadline: int)
    requires Fresh(c)
    requires var n := c.lastSeq + 1;
             && c' == c.(lastSeq := n, ledger := c'.ledger, writing := c.writing[n := bytes])
             && c'.ledger.slots == c.ledger.slots[n := L.OutSlot(bytes, "", deadline, false)]
    ensures Fresh(c')
  {
    assert !Known(c.server.mgr, c.lastSeq + 1);
  }

  lemma SendCovered(c: Conn, bytes: nat, deadline: int, initB: nat, initY: nat)
    requires Covered(c, initB, initY) && L.CanSend(c.ledger, bytes) && c.lastSeq + 1 !in c.writing
    ensures Covered(DoSend(c, bytes, deadline), initB, initY)
  {
    TotalInsert(c.writing, One, c.lastSeq + 1, bytes);
    TotalInsert(c.writing, Bytes, c.lastSeq + 1, bytes);
  }

  lemma SentSolvent(c: Conn, bytes: nat, deadline: int, initB: nat, initY: nat)
    requires Solvent(c, initB, initY) && L.CanSend(c.ledger, bytes)
    ensures Solvent(DoSend(c, bytes, deadline), initB, initY)
  {
    var c' := DoSend(c, bytes, deadline);
    assert c.lastSeq + 1 !in c.writing;
    SendFresh(c, c', bytes, deadline);
    SendCovered(c, bytes, deadline, initB, initY);
    HeldTouch(c, c');
  }

  lemma UnsentSolvent(c: Conn, initB: nat, initY: nat)
    requires Solvent(c, initB, initY)
    ensures Solvent(c.(lastSeq := c.lastSeq + 1), initB, initY)
  {
    var c' := c.(lastSeq := c.lastSeq + 1);
    FreshTouch(c, c');
    HeldTouch(c, c');
    CoveredTouch(c, c', initB, initY);
  }

  lemma SendSolvent(c: Conn, bytes: nat, deadline: int, initB: nat, initY: nat)
    requires Solvent(c, initB, initY)
    ensures Solvent(DoSend(c, bytes, deadline), initB, initY)
  {
    if L.CanSend(c.ledger, bytes) {
      SentSolvent(c, bytes, deadline, initB, initY);
    } else {
      UnsentSolvent(c, initB, initY);
    }
  }

  lemma WriteOkFresh(c: Conn, n: nat)
    requires Fresh(c) && n in c.writing
    ensures Fresh(Next(c, WriteOk(n)))
  {
  }

  lemma WriteOkCovered(c: Conn, n: nat, initB: nat, initY: nat)
    requires Covered(c, initB, initY) && n in c.writing && n !in c.wire
    ensures Covered(Next(c, WriteOk(n)), initB, initY)
  {
    TotalRemove(c.writing, One, n);
    TotalRemove(c.writing, Bytes, n);
    TotalInsert(c.wire, One, n, c.writing[n]);
    TotalInsert(c.wire, Bytes, n, c.writing[n]);
  }

  lemma WriteOkSolvent(c: Conn, n: nat, initB: nat, initY: nat)
    requires Solvent(c, initB, initY) && n in c.writing
    ensures Solvent(Next(c, WriteOk(n)), initB, initY)
  {
    WriteOkFresh(c, n);
    WriteOkCovered(c, n, initB, initY);
    HeldTouch(c, Next(c, WriteOk(n)));
  }

  /** Rollback gives back at most what the write had cost. */
  lemma WriteFailCovered(c: Conn, n: nat, initB: nat, initY: nat)
    requires Covered(c, initB, initY) && n in c.writing
    requires n in c.ledger.slots ==> c.ledger.slots[n].bytes == c.writing[n]
    ensures Covered(DoWriteFail(c, n), initB, initY)
  {
    TotalRemove(c.writing, One, n);
    TotalRemove(c.writing, Bytes, n);
  }

  lemma WriteFailSolvent(c: Conn, n: nat, initB: nat, initY: nat)
    requires Solvent(c, initB, initY) && n in c.writing
    ensures Solvent(DoWriteFail(c, n), initB, initY)
  {
    WriteFailCovered(c, n, initB, initY);
    FreshTouch(c, DoWriteFail(c, n));
    HeldTouch(c, DoWriteFail(c, n));
  }

  lemma ArriveFresh(c: Conn, n: nat, now: int)
    requires Fresh(c) && n in c.wire
    ensures Fresh(DoArrive(c, n, now))
  {
    ArriveEffect(c, n, now);
  }

  lemma ArriveHeld(c: Conn, c': Conn, n: nat, w: Worker)
    requires Held(c) && !Known(c.server.mgr, n) && w.grant == |c.server.grants|
    requires c'.admitted == c.admitted[n := w]
    requires c'.server.grants == c.server.grants + [S.Grant(n, false, false)]
    requires forall k: nat :: Known(c'.server.mgr, k) <==> Known(c.server.mgr, k) || k == n
    ensures Held(c')
  {
  }

  lemma ArriveCovered(c: Conn, c': Conn, n: nat, initB: nat, initY: nat)
    requires Covered(c, initB, initY) && n in c.wire && n !in c.admitted
    requires c' == c.(wire := c.wire - {n}, admitted := c'.admitted, server := c'.server)
    requires c'.admitted == c.admitted[n := Worker(|c.server.grants|, c.wire[n])]
    requires c'.server.mgr == c.server.mgr.(inflight := c'.server.mgr.inflight)
    ensures Covered(c', initB, initY)
  {
    TotalRemove(c.wire, One, n);
    TotalRemove(c.wire, Bytes, n);
    TotalInsert(c.admitted, WorkerOne, n, Worker(|c.server.grants|, c.wire[n]));
    TotalInsert(c.admitted, WorkerBytes, n, Worker(|c.server.grants|, c.wire[n]));
  }

  lemma ArriveSolvent(c: Conn, n: nat, now: int, initB: nat, initY: nat)
    requires Solvent(c, initB, initY) && n in c.wire
    ensures Solvent(DoArrive(c, n, now), initB, initY)
  {
    ArriveEffect(c, n, now);
    ArriveFresh(c, n, now);
    ArriveHeld(c, DoArrive(c, n, now), n, Worker(|c.server.grants|, c.wire[n]));
    ArriveCovered(c, DoArrive(c, n, now), n, initB, initY);
  }

  lemma {:induction false} UnsignedSum(cs: seq<Credit>)
    requires Unsigned(cs)
    ensures CreditB(cs) >= 0 && CreditY(cs) >= 0
  {
    if cs != [] {
      UnsignedSum(cs[..|cs| - 1]);
    }
  }

  /** The heart of it: an admitted frame is one of the things the issued credit covers. */
  lemma CoveredAffords(c: Conn, n: nat, initB: nat, initY: nat)
    requires Covered(c, initB, initY) && n in c.admitted
    ensures M.Affordable(c.server.mgr, c.admitted[n].bytes)
  {
    SumsNonNegative(c);
    UnsignedSum(c.credits);
    TotalBounds(c.admitted, WorkerOne, n);
    TotalBounds(c.admitted, WorkerBytes, n);
  }

  /** A charge that succeeds, whether or not the slot is still there. */
  lemma AnyCharge(c: Conn, n: nat)
    requires n in c.admitted && Charges(c, c.admitted[n])
    ensures var c', w, m := DoCharge(c, n), c.admitted[n], c.server.mgr;
            && c' == c.(admitted := c.admitted - {n}, server := c'.server)
            && c'.server.grants == c.server.grants
            && c'.server.mgr == m.(outB := m.outB - 1, outY := m.outY - w.bytes, inflight := c'.server.mgr.inflight)
            && forall k: nat :: Known(c'.server.mgr, k) <==> Known(m, k)
  {
  }

  lemma ChargeHeld(c: Conn, c': Conn, n: nat)
    requires Held(c) && c'.admitted == c.admitted - {n} && c'.server.grants == c.server.grants
    requires forall k: nat :: Known(c'.server.mgr, k) <==> Known(c.server.mgr, k)
    ensures Held(c')
  {
  }

  lemma ChargeCovered(c: Conn, c': Conn, n: nat, initB: nat, initY: nat)
    requires Covered(c, initB, initY) && n in c.admitted
    requires c' == c.(admitted := c.admitted - {n}, server := c'.server)
    requires var w, m := c.admitted[n], c.server.mgr;
             c'.server.mgr == m.(outB := m.outB - 1, outY := m.outY - w.bytes, inflight := c'.server.mgr.inflight)
    ensures Covered(c', initB, initY)
  {
    TotalRemove(c.admitted, WorkerOne, n);
    TotalRemove(c.admitted, WorkerBytes, n);
  }

  lemma ChargeSolvent(c: Conn, n: nat, initB: nat, initY: nat)
    requires Solvent(c, initB, initY) && n in c.admitted
    ensures Solvent(DoCharge(c, n), initB, initY)
  {
    CoveredAffords(c, n, initB, initY);
    AnyCharge(c, n);
    FreshTouch(c, DoCharge(c, n));
    ChargeHeld(c, DoCharge(c, n), n);
    ChargeCovered(c, DoCharge(c, n), n, initB, initY);
  }

  lemma FlushedCovered(c: Conn, c': Conn, cr: Credit, initB: nat, initY: nat)
    requires Covered(c, initB, initY) && cr == Credit(c.server.mgr.recB, c.server.mgr.recY)
    requires c' == c.(server := c'.server, credits := c.credits + [cr])
    requires var m := c.server.mgr;
             c'.server.mgr == m.(outB := m.outB + m.recB, outY := m.outY + m.recY, recB := 0, recY := 0)
    requires CreditB(c'.credits) == CreditB(c.credits) + cr.b && CreditY(c'.credits) == CreditY(c.credits) + cr.y
    ensures Covered(c', initB, initY)
  {
  }

  lemma FlushCovered(c: Conn, initB: nat, initY: nat)
    requires Covered(c, initB, initY)
    ensures Covered(DoFlush(c), initB, initY)
  {
    var m := c.server.mgr;
    if m.recB > 0 || m.recY > 0 {
      CreditAppend(c.credits, Credit(m.recB, m.recY));
      FlushedCovered(c, DoFlush(c), Credit(m.recB, m.recY), initB, initY);
    }
  }

  lemma FlushLostCovered(c: Conn, initB: nat, initY: nat)
    requires Covered(c, initB, initY)
    ensures Covered(DoFlushLost(c), initB, initY)
  {
  }

  /** Issuing recovered credit changes neither slots nor history. */
  lemma TakeSolvent(c: Conn, c': Conn, initB: nat, initY: nat)
    requires Solvent(c, initB, initY) && Covered(c', initB, initY)
    requires c' == c.(server := c.server.(mgr := M.Take(c.server.mgr)), credits := c'.credits,
                      lostB := c'.lostB, lostY := c'.lostY)
    ensures Solvent(c', initB, initY)
  {
    assert forall k: nat :: Known(M.Take(c.server.mgr), k) <==> Known(c.server.mgr, k);
    FreshTouch(c, c');
    HeldTouch(c, c');
  }

  lemma FlushSolvent(c: Conn, initB: nat, initY: nat)
    requires Solvent(c, initB, initY)
    ensures Solvent(DoFlush(c), initB, initY)
  {
    FlushCovered(c, initB, initY);
    TakeSolvent(c, DoFlush(c), initB, initY);
  }

  lemma FlushLostSolvent(c: Conn, initB: nat, initY: nat)
    requires Solvent(c, initB, initY)
    ensures Solvent(DoFlushLost(c), initB, initY)
  {
    FlushLostCovered(c, initB, initY);
    TakeSolvent(c, DoFlushLost(c), initB, initY);
  }

  lemma CreditGain(l: L.Ledger, b: int, y: int)
    requires L.Safe(l) && b >= 0 && y >= 0
    ensures var l' := L.OnCredit(l, b, y);
            && L.Safe(l') && l'.grantedB == l.grantedB && l'.grantedY == l.grantedY
            && l'.AvailB() <= l.AvailB() + b && l'.AvailY() <= l.AvailY() + y
  {
  }

  lemma ArrivedCovered(c: Conn, c': Conn, cr: Credit, initB: nat, initY: nat)
    requires Covered(c, initB, initY) && cr.b >= 0 && cr.y >= 0
    requires c' == c.(credits := c'.credits, ledger := c'.ledger, torn := c'.torn)
    requires Unsigned(c'.credits)
    requires CreditB(c'.credits) == CreditB(c.credits) - cr.b && CreditY(c'.credits) == CreditY(c.credits) - cr.y
    requires var l, l' := c.ledger, c'.ledger;
             && L.Safe(l') && l'.grantedB == l.grantedB && l'.grantedY == l.grantedY
             && l'.AvailB() <= l.AvailB() + cr.b && l'.AvailY() <= l.AvailY() + cr.y
    ensures Covered(c', initB, initY)
  {
  }

  /** A CREDIT frame gives the client at most what it carries; a malformed one gives nothing. */
  lemma CreditCovered(c: Conn, i: nat, initB: nat, initY: nat)
    requires Covered(c, initB, initY) && i < |c.credits|
    ensures Covered(DoCreditArrives(c, i), initB, initY)
  {
    var rest := c.credits[..i] + c.credits[i + 1..];
    CreditRemove(c.credits, i);
    assert Unsigned(rest);
    CreditGain(c.ledger, c.credits[i].b, c.credits[i].y);
    ArrivedCovered(c, DoCreditArrives(c, i), c.credits[i], initB, initY);
  }

  lemma CreditEffect(c: Conn, i: nat)
    requires i < |c.credits|
    ensures var c' := DoCreditArrives(c, i);
            && c' == c.(credits := c'.credits, ledger := c'.ledger, torn := c'.torn)
            && (c'.ledger.slots == map[] || c'.ledger.slots == c.ledger.slots)
  {
  }

  lemma CreditSolvent(c: Conn, i: nat, initB: nat, initY: nat)
    requires Solvent(c, initB, initY) && i < |c.credits|
    ensures Solvent(DoCreditArrives(c, i), initB, initY)
  {
    CreditCovered(c, i, initB, initY);
    CreditEffect(c, i);
    FreshTouch(c, DoCreditArrives(c, i));
    HeldTouch(c, DoCreditArrives(c, i));
  }

  // ---------------------------------------------------------------- every run

  lemma ClientSolvent(c: Conn, a: Action, initB: nat, initY: nat)
    requires Solvent(c, initB, initY) && Enabled(c, a)
    requires a.Send? || a.WriteOk? || a.WriteFail? || a.CreditArrives?
    ensures Solvent(Next(c, a), initB, initY)
  {
    match a
    case Send(bytes, deadline) => SendSolvent(c, bytes, deadline, initB, initY);
    case WriteOk(n) => WriteOkSolvent(c, n, initB, initY);
    case WriteFail(n) => WriteFailSolvent(c, n, initB, initY);
    case CreditArrives(i) => CreditSolvent(c, i, initB, initY);
  }

  lemma HolderSolvent(c: Conn, a: Action, initB: nat, initY: nat)
    requires Solvent(c, initB, initY) && Enabled(c, a)
    requires a.AcceptInterim? || a.Backfill? || a.Settle? || a.ForceCheck?
    ensures Solvent(Next(c, a), initB, initY)
  {
    match a
    case AcceptInterim(g) => AcceptSolvent(c, g, initB, initY);
    case Backfill(g, corr) => BackfillSolvent(c, g, corr, initB, initY);
    case Settle(g, o, y) => SettleSolvent(c, g, o, y, initB, initY);
    case ForceCheck(n) => ForceCheckSolvent(c, n, initB, initY);
  }

  lemma StepSolvent(c: Conn, a: Action, initB: nat, initY: nat)
    requires Solvent(c, initB, initY) && Enabled(c, a)
    ensures Solvent(Next(c, a), initB, initY)
  {
    if a.Send? || a.WriteOk? || a.WriteFail? || a.CreditArrives? {
      ClientSolvent(c, a, initB, initY);
    } else if a.Skip? || a.ResultArrives? || a.ClientReap? {
      QuietSolvent(c, a, initB, initY);
    } else if a.AcceptInterim? || a.Backfill? || a.Settle? || a.ForceCheck? {
      HolderSolvent(c, a, initB, initY);
    } else if a.Arrive? {
      ArriveSolvent(c, a.n, a.now, initB, initY);
    } else if a.Charge? {
      ChargeSolvent(c, a.n, initB, initY);
    } else if a.Redeliver? {
      RedeliverSolvent(c, a.n, initB, initY);
    } else if a.Flush? {
      FlushSolvent(c, initB, initY);
    } else {
      FlushLostSolvent(c, initB, initY);
    }
  }

  lemma {:induction false} RunSolvent(c: Conn, acts: seq<Action>, initB: nat, initY: nat)
    requires Solvent(c, initB, initY) && Possible(c, acts)
    ensures Solvent(Run(c, acts), initB, initY)
    decreases |acts|
  {
    if acts != [] {
      StepSolvent(c, acts[0], initB, initY);
      RunSolvent(Next(c, acts[0]), acts[1..], initB, initY);
    }
  }

  /**
    In every run whatsoever, the server's issued credit is at least the client's available credit
    plus BATCH and CREDIT frames in transit, the clamp slack and the losses, in both dimensions. So
    every admitted frame is affordable, every charge succeeds, and the server never aborts. The races
    that unbalance the books can only leave the server with more credit than it should have.
  */
  lemma ServerNeverAborts(initB: nat, initY: nat, clampB: int, clampY: int, ringCap: nat, acts: seq<Action>)
    requires Possible(Init(initB, initY, clampB, clampY, ringCap), acts)
    ensures var c := Run(Init(initB, initY, clampB, clampY, ringCap), acts);
            && c.server.mgr.outB >= c.ledger.AvailB() + UnchargedB(c) + CreditB(c.credits) + SlackB(c, initB) + c.lostB
            && c.server.mgr.outY >= c.ledger.AvailY() + UnchargedY(c) + CreditY(c.credits) + SlackY(c, initY) + c.lostY
            && SlackB(c, initB) >= 0 && SlackY(c, initY) >= 0
            && (forall n :: n in c.admitted ==> Charges(c, c.admitted[n]))
            && !c.aborted
  {
    var c := Run(Init(initB, initY, clampB, clampY, ringCap), acts);
    RunSolvent(Init(initB, initY, clampB, clampY, ringCap), acts, initB, initY);
    forall n | n in c.admitted
      ensures Charges(c, c.admitted[n])
    {
      CoveredAffords(c, n, initB, initY);
    }
  }
}

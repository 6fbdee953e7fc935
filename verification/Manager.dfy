/**
  The plain specification of the server's credit manager (core/credit.go): a map of
  in-flight slots, the full history of settlements, and two credit counters per dimension.
  There is no low-water mark, no accepted set and no ring here; `Credit` refines this.
*/
module Manager {
  import opened Basics

  datatype Level = Accepted | Durable | Rejected | Released

  datatype Outcome = Outcome(level: Level, code: nat)

  datatype Slot = Slot(bytes: nat, correlation: string, addedAt: int)

  /** The correlation a RESULT for `n` carries: that of its slot, if it still has one. */
  ghost function Correlation(slots: map<nat, Slot>, n: nat): string {
    if n in slots then slots[n].correlation else ""
  }

  /** What a slot was charged; zero until it is. */
  ghost function Charge(s: Slot): int { s.bytes }

  datatype Settlement = Settlement(seqNo: nat, outcome: Outcome)

  datatype Manager = Manager(
    outB: int, outY: int,                // issued credit, in batches and bytes
    recB: int, recY: int,                // recovered credit waiting for a CREDIT frame
    inflight: map<nat, Slot>,
    history: seq<Settlement>,            // every settlement, oldest first
    ringCap: nat)

  datatype Decision =
    | Accept
    | Duplicate(slot: Slot)
    | TerminalHit(outcome: Outcome)
    | BelowUnknown
    | Violation

  ghost predicate Settled(h: seq<Settlement>, n: nat) {
    exists i :: 0 <= i < |h| && h[i].seqNo == n
  }

  /** The outcome of the newest settlement of `n` among the last `cap` ones. */
  ghost function Recall(h: seq<Settlement>, cap: nat, n: nat): Option<Outcome> {
    if h == [] || cap == 0 then None
    else if h[|h| - 1].seqNo == n then Some(h[|h| - 1].outcome)
    else Recall(h[..|h| - 1], cap - 1, n)
  }

  /** Admission as the plain "settled set plus in-flight set" rule decides it. */
  ghost function Decide(m: Manager, n: nat): Decision {
    if n == 0 then Violation
    else if n in m.inflight then Duplicate(m.inflight[n])
    else if Settled(m.history, n) then
      match Recall(m.history, m.ringCap, n)
      case Some(o) => TerminalHit(o)
      case None => BelowUnknown
    else Accept
  }

  ghost function Admit(m: Manager, n: nat, now: int): Manager {
    if Decide(m, n).Accept? then m.(inflight := m.inflight[n := Slot(0, "", now)]) else m
  }

  /** Credit the server holds, issued or recovered. */
  ghost function HeldB(m: Manager): int { m.outB + m.recB }
  ghost function HeldY(m: Manager): int { m.outY + m.recY }

  ghost predicate Affordable(m: Manager, bytes: nat) {
    m.outB >= 1 && m.outY >= bytes
  }

  /** Charge an admitted frame, or drop its slot when the credit does not suffice. */
  ghost function Consume(m: Manager, n: nat, bytes: nat): Manager {
    if !Affordable(m, bytes) then m.(inflight := m.inflight - {n})
    else m.(outB := m.outB - 1, outY := m.outY - bytes,
            inflight := if n in m.inflight then m.inflight[n := m.inflight[n].(bytes := bytes)] else m.inflight)
  }

  /** A settlement attempt on a slot somebody else settled, while the ring still remembers it. */
  ghost predicate Overtaken(m: Manager, n: nat) {
    n !in m.inflight && Recall(m.history, m.ringCap, n).Some?
  }

  /** The bytes a settlement returns: the registered charge wins over the caller's figure. */
  ghost function Refund(m: Manager, n: nat, frameBytes: int): nat {
    if n in m.inflight && m.inflight[n].bytes > 0 then m.inflight[n].bytes
    else if frameBytes < 0 then 0 else frameBytes
  }

  ghost function Settle(m: Manager, n: nat, o: Outcome, frameBytes: int): Manager {
    if Overtaken(m, n) then m
    else m.(inflight := m.inflight - {n},
            history := m.history + [Settlement(n, o)],
            recB := m.recB + 1,
            recY := m.recY + Refund(m, n, frameBytes))
  }

  ghost function Take(m: Manager): Manager {
    if m.recB <= 0 && m.recY <= 0 then m
    else m.(outB := m.outB + m.recB, outY := m.outY + m.recY, recB := 0, recY := 0)
  }

  /** What every manager state satisfies: a settled sequence number is never in flight. */
  ghost predicate WellFormed(m: Manager) {
    && m.ringCap >= 1
    && 0 !in m.inflight
    && !Settled(m.history, 0)
    && (forall n :: n in m.inflight ==> !Settled(m.history, n))
  }

  lemma SettledAppend(h: seq<Settlement>, e: Settlement)
    ensures forall n :: Settled(h + [e], n) <==> Settled(h, n) || n == e.seqNo
  {
    forall n
      ensures Settled(h + [e], n) <==> Settled(h, n) || n == e.seqNo
    {
      if Settled(h, n) {
        var i :| 0 <= i < |h| && h[i].seqNo == n;
        assert (h + [e])[i].seqNo == n;
      }
      assert (h + [e])[|h|] == e;
    }
  }

  /** Settling one number keeps the others unsettled. */
  lemma SettleOne(slots: map<nat, Slot>, h: seq<Settlement>, e: Settlement)
    requires forall n :: n in slots ==> !Settled(h, n)
    ensures forall n :: n in slots - {e.seqNo} ==> !Settled(h + [e], n)
  {
    SettledAppend(h, e);
  }

  /** Nothing is recalled exactly when none of the last `cap` settlements concerns `n`. */
  lemma {:induction false} RecallForgotten(h: seq<Settlement>, cap: nat, n: nat)
    ensures Recall(h, cap, n) == None <==> forall j :: 0 <= j < |h| && |h| - j <= cap ==> h[j].seqNo != n
  {
    if h != [] && cap != 0 {
      var p := h[..|h| - 1];
      RecallForgotten(p, cap - 1, n);
      assert forall j :: 0 <= j < |p| ==> h[j] == p[j];
    }
  }

  /** The newest settlement of a number is recalled exactly while fewer than `cap` followed it. */
  lemma {:induction false} RecallNewest(h: seq<Settlement>, cap: nat, i: nat)
    requires i < |h|
    requires forall j :: i < j < |h| ==> h[j].seqNo != h[i].seqNo
    ensures Recall(h, cap, h[i].seqNo) == if |h| - i <= cap then Some(h[i].outcome) else None
  {
    if cap == 0 || i == |h| - 1 {
    } else {
      var p := h[..|h| - 1];
      assert p[i] == h[i];
      RecallNewest(p, cap - 1, i);
    }
  }

  /** Recalling implies having been settled. */
  lemma {:induction false} RecallSettled(h: seq<Settlement>, cap: nat, n: nat)
    requires Recall(h, cap, n).Some?
    ensures Settled(h, n)
  {
    if h[|h| - 1].seqNo != n {
      var p := h[..|h| - 1];
      RecallSettled(p, cap - 1, n);
      var i :| 0 <= i < |p| && p[i].seqNo == n;
      assert h[i].seqNo == n;
    }
  }
}

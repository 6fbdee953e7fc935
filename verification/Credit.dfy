/**
  The credit manager as core/credit.go keeps it: a low-water mark plus an accepted set
  instead of the settled set, and a bounded ring plus a terminal map instead of the history.
  Every method is proved to act on the ghost history exactly as `Manager` specifies.
*/
module Credit {
  import opened Basics
  import M = Manager

  datatype Result = Result(refSeq: nat, level: M.Level, code: nat, retryMs: nat, correlation: string)

  /** [1, low) together with `accepted` is exactly the set of settled sequence numbers. */
  ghost predicate IndexMatches(h: seq<M.Settlement>, low: nat, accepted: set<nat>) {
    && low >= 1
    && forall n: nat :: M.Settled(h, n) <==> 1 <= n < low || n in accepted
  }

  /** `ring` lists the newest settlements without duplicates and `terminal` holds their outcomes. */
  ghost predicate RingHolds(h: seq<M.Settlement>, ring: seq<nat>, terminal: map<nat, M.Outcome>) {
    && |ring| <= |h|
    && (forall i :: 0 <= i < |ring| ==> ring[i] == h[|h| - |ring| + i].seqNo)
    && (forall i, j :: 0 <= i < j < |ring| ==> ring[i] != ring[j])
    && (forall n :: n in terminal <==> n in ring)
    && (forall i :: 0 <= i < |ring| ==> terminal[ring[i]] == h[|h| - |ring| + i].outcome)
  }

  /** ... and it is as long as the capacity and the history allow. */
  ghost predicate RingMatches(h: seq<M.Settlement>, cap: nat, ring: seq<nat>, terminal: map<nat, M.Outcome>) {
    && RingHolds(h, ring, terminal)
    && |ring| == if |h| <= cap then |h| else cap
  }

  /** The terminal map answers exactly what the history recalls. */
  lemma TerminalIsRecall(h: seq<M.Settlement>, cap: nat, ring: seq<nat>, terminal: map<nat, M.Outcome>, n: nat)
    requires RingMatches(h, cap, ring, terminal)
    ensures M.Recall(h, cap, n) == if n in terminal then Some(terminal[n]) else None
  {
    var off := |h| - |ring|;
    if n in terminal {
      var i :| 0 <= i < |ring| && ring[i] == n;
      forall j | off + i < j < |h|
        ensures h[j].seqNo != h[off + i].seqNo
      {
        assert ring[j - off] == h[j].seqNo;
      }
      M.RecallNewest(h, cap, off + i);
    } else {
      forall j | 0 <= j < |h| && |h| - j <= cap
        ensures h[j].seqNo != n
      {
        assert ring[j - off] == h[j].seqNo;
      }
      M.RecallForgotten(h, cap, n);
    }
  }

  lemma RingPush(h: seq<M.Settlement>, ring: seq<nat>, terminal: map<nat, M.Outcome>, e: M.Settlement)
    requires RingHolds(h, ring, terminal) && e.seqNo !in terminal
    ensures RingHolds(h + [e], ring + [e.seqNo], terminal[e.seqNo := e.outcome])
  {
  }

  lemma RingEvict(h: seq<M.Settlement>, ring: seq<nat>, terminal: map<nat, M.Outcome>)
    requires RingHolds(h, ring, terminal) && ring != []
    ensures RingHolds(h, ring[1..], terminal - {ring[0]})
  {
    forall n
      ensures n in terminal - {ring[0]} <==> n in ring[1..]
    {
      if n in ring && n != ring[0] {
        var i :| 0 <= i < |ring| && ring[i] == n;
        assert ring[1..][i - 1] == n;
      }
    }
  }

  class CreditManager {
    var outstandingB: int
    var outstandingY: int
    var recoveredB: int
    var recoveredY: int
    var low: nat
    var accepted: set<nat>
    var seen: map<nat, M.Slot>
    var terminal: map<nat, M.Outcome>
    var ringOrd: seq<nat>
    const ringCap: nat
    ghost var history: seq<M.Settlement>

    ghost predicate Valid()
      reads this
    {
      && ringCap >= 1
      && IndexMatches(history, low, accepted)
      && low !in accepted
      && RingMatches(history, ringCap, ringOrd, terminal)
      && 0 !in seen
      && (forall n :: n in seen ==> !(n < low) && n !in accepted)
    }

    ghost function View(): M.Manager
      reads this
    {
      M.Manager(outstandingB, outstandingY, recoveredB, recoveredY, seen, history, ringCap)
    }

    constructor (initialB: int, initialY: int, cap: int)
      ensures Valid()
      ensures View() == M.Manager(initialB, initialY, 0, 0, map[], [], if cap <= 0 then 256 else cap)
    {
      outstandingB, outstandingY, recoveredB, recoveredY := initialB, initialY, 0, 0;
      low, accepted, seen, terminal, ringOrd := 1, {}, map[], map[], [];
      ringCap := if cap <= 0 then 256 else cap;
      history := [];
    }

    /** One lock section. The index decides as the plain specification does, for any arrival order. */
    method Admit(n: nat, now: int) returns (d: M.Decision, g: SettleGrant?)
      requires Valid()
      modifies this
      ensures Valid() && d == M.Decide(old(View()), n) && View() == M.Admit(old(View()), n, now)
      ensures (g != null) == d.Accept?
      ensures d.Accept? <==> n >= 1 && n !in old(seen) && !M.Settled(old(history), n)
      ensures d.Accept? ==> seen == old(seen)[n := M.Slot(0, "", now)]
      ensures n in old(seen) ==> d == M.Duplicate(old(seen)[n])
      ensures d.Violation? <==> n == 0
      ensures g != null ==> fresh(g) && g.m == this && g.seqNo == n && !g.done && !g.accepted && !g.consumed
    {
      g := null;
      if n == 0 { return M.Violation, null; }
      if n in seen { return M.Duplicate(seen[n]), null; }
      TerminalIsRecall(history, ringCap, ringOrd, terminal, n);
      if n in accepted || n < low {
        if n in terminal { return M.TerminalHit(terminal[n]), null; }
        return M.BelowUnknown, null;
      }
      seen := seen[n := M.Slot(0, "", now)];
      d := M.Accept;
      g := new SettleGrant(this, n, false);
    }

    /**
      The first lock section of a forced settlement. A slot still in flight yields a fresh grant
      and the bytes to settle with; a remembered outcome is repeated; anything else is ignored.
    */
    method ForceCheck(n: nat, frameBytes: int) returns (g: SettleGrant?, bytes: int, resend: Option<Result>)
      requires Valid()
      ensures (g != null) == (n in seen)
      ensures g != null ==> fresh(g) && g.m == this && g.seqNo == n && !g.done && !g.accepted
      ensures g != null ==> resend == None && bytes == if seen[n].bytes > 0 then seen[n].bytes else frameBytes
      ensures resend == (if n in seen then None else
                         match M.Recall(history, ringCap, n)
                         case Some(o) => Some(Result(n, o.level, o.code, 0, ""))
                         case None => None)
    {
      g, bytes, resend := null, frameBytes, None;
      TerminalIsRecall(history, ringCap, ringOrd, terminal, n);
      if n !in seen {
        if n in terminal { M.RecallSettled(history, ringCap, n); }
        if n in accepted || n < low {
          if n in terminal {
            resend := Some(Result(n, terminal[n].level, terminal[n].code, 0, ""));
          }
        }
        return;
      }
      if seen[n].bytes > 0 { bytes := seen[n].bytes; }
      g := new SettleGrant(this, n, true);
    }

    /** Both lock sections of a forced settlement, run without interference. */
    method ForceSettle(n: nat, level: M.Level, code: nat, retryMs: nat, frameBytes: int) returns (sent: Option<Result>)
      requires Valid()
      modifies this
      ensures Valid()
      ensures n in old(seen) ==> View() == M.Settle(old(View()), n, M.Outcome(level, code), frameBytes)
      ensures n !in old(seen) ==> View() == old(View())
      ensures n in old(seen) ==> sent == Some(Result(n, level, code, retryMs, old(seen)[n].correlation))
      ensures n !in old(seen) ==> sent == match M.Recall(old(history), ringCap, n)
                                          case Some(o) => Some(Result(n, o.level, o.code, 0, ""))
                                          case None => None
    {
      var g, bytes, resend := ForceCheck(n, frameBytes);
      sent := resend;
      if g != null {
        sent := g.Settle(level, code, retryMs, bytes);
      }
    }

    /** Frees a number without settling it. */
    method Drop(n: nat)
      requires Valid()
      modifies this`seen
      ensures Valid() && seen == old(seen) - {n}
    {
      seen := seen - {n};
    }

    /** Spends issued credit and notes it in the slot, if the number still has one. */
    method Register(n: nat, bytes: nat)
      requires Valid() && M.Affordable(View(), bytes)
      modifies this`seen, this`outstandingB, this`outstandingY
      ensures Valid() && View() == M.Consume(old(View()), n, bytes)
    {
      outstandingB, outstandingY := outstandingB - 1, outstandingY - bytes;
      if n in seen { seen := seen[n := seen[n].(bytes := bytes)]; }
    }

    method TakeRecovered() returns (b: int, y: int)
      requires Valid()
      modifies this
      ensures Valid() && View() == M.Take(old(View()))
      ensures b == View().outB - old(View()).outB && y == View().outY - old(View()).outY
      ensures old(recoveredB) > 0 || old(recoveredY) > 0 ==>
                b == old(recoveredB) && y == old(recoveredY) && recoveredB == recoveredY == 0
    {
      if recoveredB <= 0 && recoveredY <= 0 { return 0, 0; }
      b, y := recoveredB, recoveredY;
      recoveredB, recoveredY := 0, 0;
      outstandingB, outstandingY := outstandingB + b, outstandingY + y;
    }

    /** The smallest in-flight number added before `cutoff`, whatever order the map is walked in. */
    method OldestBefore(cutoff: int) returns (best: Option<nat>)
      requires Valid()
      ensures best.None? ==> forall n :: n in seen ==> seen[n].addedAt >= cutoff
      ensures best.Some? ==> best.value in seen && seen[best.value].addedAt < cutoff
      ensures best.Some? ==> forall n :: n in seen && seen[n].addedAt < cutoff ==> best.value <= n
    {
      best := None;
      var todo := seen.Keys;
      while todo != {}
        invariant todo <= seen.Keys
        invariant best.None? ==> forall n :: n in seen.Keys - todo ==> seen[n].addedAt >= cutoff
        invariant best.Some? ==> best.value in seen && seen[best.value].addedAt < cutoff
        invariant best.Some? ==> forall n :: n in seen.Keys - todo && seen[n].addedAt < cutoff ==> best.value <= n
        decreases todo
      {
        var n :| n in todo;
        todo := todo - {n};
        if seen[n].addedAt < cutoff && (best.None? || n < best.value) { best := Some(n); }
      }
    }

    /** Appends a forgotten number to the ring, evicting the oldest entry when over capacity. */
    method PushRing(n: nat, o: M.Outcome)
      requires ringCap >= 1 && RingMatches(history, ringCap, ringOrd, terminal) && n !in terminal
      modifies this`ringOrd, this`terminal
      ensures RingMatches(history + [M.Settlement(n, o)], ringCap, ringOrd, terminal)
    {
      ghost var e := M.Settlement(n, o);
      ghost var t := terminal[n := o];
      RingPush(history, ringOrd, terminal, e);
      ringOrd := ringOrd + [n];
      if |ringOrd| > ringCap {
        RingEvict(history + [e], ringOrd, t);
        assert (terminal - {ringOrd[0]})[n := o] == t - {ringOrd[0]};
        terminal := terminal - {ringOrd[0]};
        ringOrd := ringOrd[1..];
      }
      terminal := terminal[n := o];
    }

    /** Moves `low` over the contiguous accepted prefix; the settled set it denotes stays the same. */
    method AdvanceLow()
      requires IndexMatches(history, low, accepted)
      modifies this`low, this`accepted
      ensures IndexMatches(history, low, accepted) && low !in accepted
    {
      while low in accepted
        invariant IndexMatches(history, low, accepted)
        decreases accepted
      {
        accepted := accepted - {low};
        low := low + 1;
      }
    }

    /** Puts a number into the settled set. */
    method Index(n: nat, o: M.Outcome)
      requires IndexMatches(history, low, accepted) && n >= 1
      modifies this`history, this`low, this`accepted
      ensures history == old(history) + [M.Settlement(n, o)]
      ensures IndexMatches(history, low, accepted) && low !in accepted
    {
      M.SettledAppend(history, M.Settlement(n, o));
      accepted := accepted + {n};
      history := history + [M.Settlement(n, o)];
      AdvanceLow();
    }

    /** Seen to accepted, ring entry, refund and prefix advance, all inside the caller's lock section. */
    method Migrate(n: nat, o: M.Outcome, bytes: nat)
      requires Valid() && n >= 1 && n !in terminal
      modifies this
      ensures Valid()
      ensures View() == old(View()).(inflight := old(seen) - {n}, history := old(history) + [M.Settlement(n, o)],
                                     recB := old(recoveredB) + 1, recY := old(recoveredY) + bytes)
    {
      M.SettleOne(seen, history, M.Settlement(n, o));
      PushRing(n, o);
      seen := seen - {n};
      Index(n, o);
      recoveredB, recoveredY := recoveredB + 1, recoveredY + bytes;
    }
  }

  class SettleGrant {
    const m: CreditManager
    const seqNo: nat
    var consumed: bool
    var done: bool
    var accepted: bool

    constructor (m: CreditManager, n: nat, consumed: bool)
      ensures this.m == m && seqNo == n && !done && !accepted && this.consumed == consumed
    {
      this.m, this.seqNo, this.consumed, this.done, this.accepted := m, n, consumed, false, false;
    }

    method Consume(bytes: nat) returns (ok: bool)
      requires m.Valid()
      modifies this, m
      ensures m.Valid() && accepted == old(accepted) && consumed == (old(consumed) || ok)
      ensures old(done) ==> !ok && done && m.View() == old(m.View())
      ensures !old(done) ==> ok == M.Affordable(old(m.View()), bytes) && done == !ok
      ensures !old(done) ==> m.View() == M.Consume(old(m.View()), seqNo, bytes)
      ensures ok <==> !old(done) && old(m.outstandingB) >= 1 && old(m.outstandingY) >= bytes
      ensures ok ==> m.outstandingB == old(m.outstandingB) - 1 && m.outstandingY == old(m.outstandingY) - bytes
      ensures ok && seqNo in old(m.seen) ==> seqNo in m.seen && m.seen[seqNo].bytes == bytes
      ensures !ok ==> m.outstandingB == old(m.outstandingB) && m.outstandingY == old(m.outstandingY)
      ensures !ok && !old(done) ==> m.seen == old(m.seen) - {seqNo}
    {
      if done { return false; }
      if m.outstandingB < 1 || m.outstandingY < bytes {
        m.Drop(seqNo);
        done := true;
        return false;
      }
      m.Register(seqNo, bytes);
      consumed := true;
      return true;
    }

    method Backfill(correlation: string)
      requires m.Valid()
      modifies m`seen
      ensures m.Valid()
      ensures m.seen.Keys == old(m.seen).Keys
      ensures forall n :: n in m.seen ==>
                m.seen[n] == if n == seqNo then old(m.seen)[n].(correlation := correlation) else old(m.seen)[n]
    {
      if seqNo in m.seen { m.seen := m.seen[seqNo := m.seen[seqNo].(correlation := correlation)]; }
    }

    /** The intermediate ACCEPTED is produced at most once, and never after this grant's own terminal. */
    method Accept() returns (sent: Option<Result>)
      modifies this`accepted
      ensures accepted && (sent.Some? <==> !old(accepted) && !done)
      ensures sent.Some? ==> sent.value == Result(seqNo, M.Accepted, 0, 0, M.Correlation(m.seen, seqNo))
    {
      var corr := if seqNo in m.seen then m.seen[seqNo].correlation else "";
      sent := if !accepted && !done then Some(Result(seqNo, M.Accepted, 0, 0, corr)) else None;
      accepted := true;
    }

    /** The terminal decision: one lock section for the outcome, the ring, the index and the refund. */
    method Settle(level: M.Level, code: nat, retryMs: nat, frameBytes: int) returns (sent: Option<Result>)
      requires m.Valid() && seqNo >= 1
      modifies this, m
      ensures m.Valid() && done && accepted == old(accepted) && consumed == old(consumed)
      ensures old(done) ==> sent == None && m.View() == old(m.View())
      ensures !old(done) && seqNo in old(m.seen) ==>
                && m.recoveredB == old(m.recoveredB) + 1 && m.seen == old(m.seen) - {seqNo}
                && (old(m.seen)[seqNo].bytes > 0 ==> m.recoveredY == old(m.recoveredY) + old(m.seen)[seqNo].bytes)
      ensures !old(done) ==> m.View() == M.Settle(old(m.View()), seqNo, M.Outcome(level, code), frameBytes)
      ensures !old(done) ==> sent == if M.Overtaken(old(m.View()), seqNo) then None
                                     else Some(Result(seqNo, level, code, retryMs, M.Correlation(old(m.seen), seqNo)))
    {
      if done { return None; }
      done := true;
      var corr, bytes := "", frameBytes;
      if seqNo in m.seen {
        corr := m.seen[seqNo].correlation;
        if m.seen[seqNo].bytes > 0 { bytes := m.seen[seqNo].bytes; }
      }
      if bytes < 0 { bytes := 0; }
      TerminalIsRecall(m.history, m.ringCap, m.ringOrd, m.terminal, seqNo);
      if seqNo in m.terminal {
        M.RecallSettled(m.history, m.ringCap, seqNo);
        if seqNo !in m.seen { return None; }
        assert false;
      }
      m.Migrate(seqNo, M.Outcome(level, code), bytes);
      return Some(Result(seqNo, level, code, retryMs, corr));
    }

    method Release()
      requires m.Valid()
      modifies this`done, m`seen
      ensures m.Valid() && done
      ensures m.seen == if old(done) then old(m.seen) else old(m.seen) - {seqNo}
    {
      if done { return; }
      done := true;
      m.Drop(seqNo);
    }
  }
}

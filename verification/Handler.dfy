/** The server handler's batch pipeline, reaper and flush (internal/protocol/handler_batch.go). */
module Handler {
  import opened Basics
  import opened Credit
  import M = Manager

  const CODE_INTERNAL := 40
  const CODE_SERVER_DRAINING := 32
  const RETRY_MS := 1000

  /**
    What a sink may report; accepted counts as durable, and a failure without a code is internal.
    A level that is none of the four settles nothing.
  */
  datatype SinkOutcome = SinkDurable | SinkAccepted | SinkReleased(code: nat) | SinkRejected(code: nat) | SinkUnknown

  /**
    How the delivery went: no sink, refused by the sink queue, or taken by it in either ack mode. A
    synchronous or very fast durable sink has already called back when the queue returns.
  */
  datatype Mode = NoSink | Refused | AcceptedOnly | DurableMode | DurableDone(outcome: SinkOutcome)

  /** What decoding and validating an admitted frame says; `Expired` aborts the connection. */
  datatype Verdict =
    | NoKeys
    | Expired
    | Invalid(code: nat)
    | Deliver(correlation: string, mode: Mode)

  datatype Reply = Sent(result: Result) | Silent | Abort

  ghost function Stuck(slots: map<nat, M.Slot>, cutoff: int): map<nat, M.Slot> {
    map n | n in slots && slots[n].addedAt < cutoff :: slots[n]
  }

  ghost predicate Ascending(s: seq<nat>) { forall i, j :: 0 <= i < j < |s| ==> s[i] < s[j] }

  ghost function Entries(order: seq<nat>, o: M.Outcome): seq<M.Settlement> {
    seq(|order|, i requires 0 <= i < |order| => M.Settlement(order[i], o))
  }

  ghost predicate Oldest(slots: map<nat, M.Slot>, cutoff: int, n: nat) {
    n in Stuck(slots, cutoff) && forall k :: k in Stuck(slots, cutoff) ==> n <= k
  }

  /** How far the reaper has come: `released` are settled and refunded, everything older waits. */
  ghost predicate Reaped(m0: M.Manager, m: M.Manager, cutoff: int, released: seq<nat>, o: M.Outcome) {
    && Ascending(released)
    && (forall n :: n in released ==> n in Stuck(m0.inflight, cutoff))
    && m.inflight == m0.inflight - (set n | n in released)
    && (forall n, k :: n in released && k in Stuck(m.inflight, cutoff) ==> n < k)
    && m.history == m0.history + Entries(released, o)
    && m.recB == m0.recB + |released|
    && m.recY + Total(Stuck(m.inflight, cutoff), M.Charge) == m0.recY + Total(Stuck(m0.inflight, cutoff), M.Charge)
    && m.outB == m0.outB && m.outY == m0.outY
  }

  /** Every released number got its RESULT, with the correlation its slot held. */
  ghost predicate Announced(slots: map<nat, M.Slot>, released: seq<nat>, code: nat, sent: seq<Result>) {
    && |sent| == |released|
    && forall i :: 0 <= i < |sent| ==>
         && released[i] in slots
         && sent[i] == Result(released[i], M.Released, code, RETRY_MS, slots[released[i]].correlation)
  }

  lemma ReapStart(m0: M.Manager, cutoff: int, o: M.Outcome)
    ensures Reaped(m0, m0, cutoff, [], o)
  {
    assert m0.inflight - (set n: nat | n in []) == m0.inflight;
    assert Entries([], o) == [];
  }

  lemma StepsDown(slots: map<nat, M.Slot>, cutoff: int, n: nat)
    requires n in Stuck(slots, cutoff)
    ensures Stuck(slots - {n}, cutoff) == Stuck(slots, cutoff) - {n}
    ensures Total(Stuck(slots, cutoff), M.Charge) == slots[n].bytes + Total(Stuck(slots - {n}, cutoff), M.Charge)
  {
    assert Stuck(slots - {n}, cutoff) == Stuck(slots, cutoff) - {n};
    TotalRemove(Stuck(slots, cutoff), M.Charge, n);
  }

  lemma EntriesGrow(order: seq<nat>, n: nat, o: M.Outcome)
    ensures Entries(order + [n], o) == Entries(order, o) + [M.Settlement(n, o)]
  {
  }

  lemma ReapStep(m0: M.Manager, m: M.Manager, cutoff: int, released: seq<nat>, o: M.Outcome, n: nat)
    requires Reaped(m0, m, cutoff, released, o) && Oldest(m.inflight, cutoff, n)
    ensures Reaped(m0, M.Settle(m, n, o, m.inflight[n].bytes), cutoff, released + [n], o)
    ensures Stuck(m.inflight - {n}, cutoff).Keys < Stuck(m.inflight, cutoff).Keys
  {
    StepsDown(m.inflight, cutoff, n);
    EntriesGrow(released, n, o);
    forall i | 0 <= i < |released|
      ensures released[i] < n
    {
      assert released[i] in released && n in Stuck(m.inflight, cutoff);
    }
    assert m.inflight - {n} == m0.inflight - (set k | k in released + [n]);
  }

  lemma AnnounceStep(m0: M.Manager, m: M.Manager, cutoff: int, released: seq<nat>, o: M.Outcome,
                     sent: seq<Result>, n: nat)
    requires Reaped(m0, m, cutoff, released, o) && n in m.inflight && Announced(m0.inflight, released, o.code, sent)
    ensures Announced(m0.inflight, released + [n], o.code,
                      sent + [Result(n, M.Released, o.code, RETRY_MS, m.inflight[n].correlation)])
  {
  }

  /** When nothing old is left, exactly the originally stuck slots were released. */
  lemma ReapedAll(m0: M.Manager, m: M.Manager, cutoff: int, released: seq<nat>, o: M.Outcome)
    requires Reaped(m0, m, cutoff, released, o) && Stuck(m.inflight, cutoff) == map[]
    ensures forall n :: n in released <==> n in Stuck(m0.inflight, cutoff)
    ensures m.inflight == m0.inflight - Stuck(m0.inflight, cutoff).Keys
  {
    forall n | n in Stuck(m0.inflight, cutoff)
      ensures n in released
    {
      assert n !in Stuck(m.inflight, cutoff);
    }
  }

  function Answered(r: Option<Result>): Reply { if r.Some? then Sent(r.value) else Silent }

  ghost function Backfilled(m: M.Manager, n: nat, correlation: string): M.Manager {
    if n in m.inflight then m.(inflight := m.inflight[n := m.inflight[n].(correlation := correlation)]) else m
  }

  function SinkTerminal(o: SinkOutcome): Option<M.Outcome> {
    match o
    case SinkDurable => Some(M.Outcome(M.Durable, 0))
    case SinkAccepted => Some(M.Outcome(M.Durable, 0))
    case SinkReleased(c) => Some(M.Outcome(M.Released, if c == 0 then CODE_INTERNAL else c))
    case SinkRejected(c) => Some(M.Outcome(M.Rejected, if c == 0 then CODE_INTERNAL else c))
    case SinkUnknown => None
  }

  /** The terminal a delivery decides, if it decides one. */
  function ModeOutcome(mode: Mode): Option<M.Outcome> {
    match mode
    case Refused => Some(M.Outcome(M.Released, CODE_SERVER_DRAINING))
    case DurableMode => None
    case DurableDone(o) => SinkTerminal(o)
    case _ => Some(M.Outcome(M.Accepted, 0))
  }

  /** Only a refusal by the queue or the workers, or a released outcome, suggests when to try again. */
  ghost function ModeRetry(mode: Mode): nat {
    if mode.Refused? || (mode.DurableDone? && mode.outcome.SinkReleased?) then RETRY_MS else 0
  }

  /** From `m` to `m'`, through a grant whose flags were `done` and `accepted`. */
  ghost predicate Delivery(m: M.Manager, m': M.Manager, n: nat, done: bool, accepted: bool,
                           mode: Mode, bytes: nat, reply: Reply)
  {
    var corr := M.Correlation(m.inflight, n);
    match ModeOutcome(mode)
    case None =>
      m' == m && reply == if done || accepted then Silent else Sent(Result(n, M.Accepted, 0, 0, corr))
    case Some(o) =>
      && m' == (if done then m else M.Settle(m, n, o, if mode.DurableDone? then 0 else bytes))
      && reply == if done || M.Overtaken(m, n) then Silent else Sent(Result(n, o.level, o.code, ModeRetry(mode), corr))
  }

  /** What the pipeline does after the charge, whatever state it finds the slot and the grant in. */
  ghost predicate AfterCharge(m: M.Manager, m': M.Manager, n: nat, done: bool, accepted: bool,
                              v: Verdict, bytes: nat, reply: Reply)
  {
    match v
    case NoKeys => m' == (if done then m else m.(inflight := m.inflight - {n})) && reply == Silent
    case Expired => m' == m && reply == Abort
    case Invalid(code) =>
      && m' == (if done then m else M.Settle(m, n, M.Outcome(M.Rejected, code), bytes))
      && reply == if done || M.Overtaken(m, n) then Silent
                  else Sent(Result(n, M.Rejected, code, 0, M.Correlation(m.inflight, n)))
    case Deliver(corr, mode) => Delivery(Backfilled(m, n, corr), m', n, done, accepted, mode, bytes, reply)
  }

  /** The slot stays in flight: the sink's callback or the reaper settles it, or the session ended. */
  ghost predicate Pending(v: Verdict) { v.Expired? || (v.Deliver? && ModeOutcome(v.mode).None?) }

  ghost function Retry(v: Verdict): nat { if v.Deliver? then ModeRetry(v.mode) else 0 }

  ghost function Terminal(v: Verdict): M.Outcome
    requires !v.NoKeys? && !Pending(v)
  {
    if v.Invalid? then M.Outcome(M.Rejected, v.code) else ModeOutcome(v.mode).value
  }

  /**
    From the state before admission: the frame is left in flight charged with exactly its bytes, or
    settled with its whole charge refunded and the matching RESULT sent. Only the defensive branch
    without session keys drops the slot and keeps the charge.
  */
  ghost predicate Concluded(m: M.Manager, m': M.Manager, n: nat, bytes: nat, v: Verdict, reply: Reply) {
    if v.NoKeys? then
      && m'.inflight == m.inflight && m'.history == m.history && reply == Silent
      && M.HeldB(m') == M.HeldB(m) - 1 && M.HeldY(m') == M.HeldY(m) - bytes
    else if Pending(v) then
      && m'.inflight.Keys == m.inflight.Keys + {n} && m'.inflight[n].bytes == bytes
      && m'.inflight - {n} == m.inflight - {n} && m'.history == m.history
      && M.HeldB(m') == M.HeldB(m) - 1 && M.HeldY(m') == M.HeldY(m) - bytes
      && (v.Expired? ==> reply == Abort)
      && (v.Deliver? ==> reply == Sent(Result(n, M.Accepted, 0, 0, v.correlation)))
    else
      && m'.inflight == m.inflight && m'.history == m.history + [M.Settlement(n, Terminal(v))]
      && M.HeldB(m') == M.HeldB(m) && M.HeldY(m') == M.HeldY(m)
      && reply == Sent(Result(n, Terminal(v).level, Terminal(v).code, Retry(v),
                              if v.Deliver? then v.correlation else ""))
  }

  /** On a slot just admitted and charged, that amounts to `Concluded`. */
  lemma ConcludedAlone(m: M.Manager, charged: M.Manager, m': M.Manager, n: nat, bytes: nat, v: Verdict, reply: Reply)
    requires AfterCharge(charged, m', n, false, false, v, bytes, reply) && bytes >= 1
    requires n !in m.inflight && n in charged.inflight && charged.inflight - {n} == m.inflight
    requires charged.inflight[n].bytes == bytes && charged.inflight[n].correlation == ""
    requires charged.history == m.history
    requires M.HeldB(charged) == M.HeldB(m) - 1 && M.HeldY(charged) == M.HeldY(m) - bytes
    ensures Concluded(m, m', n, bytes, v, reply)
  {
    if v.Deliver? {
      assert Backfilled(charged, n, v.correlation).inflight - {n} == m.inflight;
    }
  }

  /**
    What a RESULT for a batch with this verdict says. Durable only what the sink has stored, rejected
    only what validation or the sink refused for good, released what may be sent again; a failure
    carries the sink's own code if there is one.
  */
  ghost predicate Reports(v: Verdict, r: Result) {
    var sink := v.Deliver? && v.mode.DurableDone?;
    && (r.level == M.Durable <==> sink && (v.mode.outcome.SinkDurable? || v.mode.outcome.SinkAccepted?))
    && (r.level == M.Rejected <==> v.Invalid? || (sink && v.mode.outcome.SinkRejected?))
    && (r.level == M.Released <==> v.Deliver? && (v.mode.Refused? || (sink && v.mode.outcome.SinkReleased?)))
    && (r.level == M.Durable || r.level == M.Accepted ==> r.code == 0)
    && (v.Invalid? ==> r.code == v.code)
    && (v.Deliver? && v.mode.Refused? ==> r.code == 32)
    && (sink && (v.mode.outcome.SinkReleased? || v.mode.outcome.SinkRejected?) ==>
          r.code == if v.mode.outcome.code == 0 then 40 else v.mode.outcome.code)
    && r.retryMs == (if r.level == M.Released then 1000 else 0)
    && r.correlation == (if v.Deliver? then v.correlation else "")
  }

  /** What is sent is what is recorded, and both say what the verdict means. */
  lemma ConcludedReports(m: M.Manager, m': M.Manager, n: nat, bytes: nat, v: Verdict, reply: Reply)
    requires Concluded(m, m', n, bytes, v, reply)
    ensures reply.Sent? <==> !v.NoKeys? && !v.Expired?
    ensures v.Expired? ==> reply == Abort
    ensures v.NoKeys? ==> reply == Silent && m'.inflight == m.inflight && M.HeldB(m') == M.HeldB(m) - 1
    ensures m'.history != m.history ==>
              m'.inflight == m.inflight && M.HeldB(m') == M.HeldB(m) && M.HeldY(m') == M.HeldY(m)
    ensures m'.history == m.history && !v.NoKeys? ==>
              n in m'.inflight && m'.inflight[n].bytes == bytes && M.HeldY(m') == M.HeldY(m) - bytes
    ensures reply.Sent? ==> reply.result.refSeq == n && Reports(v, reply.result)
    ensures reply.Sent? ==>
              m'.history == m.history ||
              m'.history == m.history + [M.Settlement(n, M.Outcome(reply.result.level, reply.result.code))]
    ensures m'.history == m.history <==>
              || v.NoKeys? || v.Expired?
              || (v.Deliver? && (v.mode.DurableMode? || (v.mode.DurableDone? && v.mode.outcome.SinkUnknown?)))
  {
  }

  /** The callback handed to the sink: its first call alone has an effect, and only in durable mode. */
  class DoneCallback {
    const grant: SettleGrant
    const durable: bool
    var fired: bool

    constructor (grant: SettleGrant, durable: bool)
      ensures this.grant == grant && this.durable == durable && !fired
    {
      this.grant, this.durable, fired := grant, durable, false;
    }

    /** Refunds the registered charge although the callback itself passes no byte count. */
    method Call(o: SinkOutcome) returns (sent: Option<Result>)
      requires grant.m.Valid() && grant.seqNo >= 1
      modifies this`fired, grant, grant.m
      ensures fired && grant.m.Valid() && grant.accepted == old(grant.accepted)
      ensures old(fired) || !durable || old(grant.done) || o.SinkUnknown? ==>
                sent == None && grant.m.View() == old(grant.m.View()) && grant.done == old(grant.done)
      ensures !old(fired) && durable && !old(grant.done) && !o.SinkUnknown? ==>
                && grant.done && grant.m.View() == M.Settle(old(grant.m.View()), grant.seqNo, SinkTerminal(o).value, 0)
                && sent == if M.Overtaken(old(grant.m.View()), grant.seqNo) then None
                           else Some(Result(grant.seqNo, SinkTerminal(o).value.level, SinkTerminal(o).value.code,
                                            if o.SinkReleased? then RETRY_MS else 0,
                                            M.Correlation(old(grant.m.seen), grant.seqNo)))
      ensures sent.Some? ==>
                && (sent.value.level == M.Durable <==> o.SinkDurable? || o.SinkAccepted?)
                && (sent.value.level == M.Rejected <==> o.SinkRejected?)
                && (sent.value.level == M.Released <==> o.SinkReleased?)
                && (o.SinkDurable? || o.SinkAccepted? ==> sent.value.code == 0)
                && (o.SinkReleased? || o.SinkRejected? ==> sent.value.code == if o.code == 0 then 40 else o.code)
                && sent.value.retryMs == (if o.SinkReleased? then 1000 else 0)
                && grant.m.history == old(grant.m.history)
                                      + [M.Settlement(grant.seqNo, M.Outcome(sent.value.level, sent.value.code))]
    {
      if fired { return None; }
      fired := true;
      if !durable || o.SinkUnknown? { return None; }
      var t := SinkTerminal(o).value;
      sent := grant.Settle(t.level, t.code, if o.SinkReleased? then RETRY_MS else 0, 0);
    }
  }

  /** The read-only reply to a number that is not admitted. */
  function Answer(n: nat, d: M.Decision): Reply
    requires !d.Accept?
  {
    match d
    case Violation => Abort
    case TerminalHit(o) => Sent(Result(n, o.level, o.code, 0, ""))
    case BelowUnknown => Sent(Result(n, M.Released, CODE_INTERNAL, 0, ""))
    case Duplicate(slot) => Sent(Result(n, M.Accepted, 0, 0, slot.correlation))
  }

  class CoreHandler {
    const credit: CreditManager

    constructor (initialB: int, initialY: int)
      ensures fresh(credit) && credit.Valid()
      ensures credit.View() == M.Manager(initialB, initialY, 0, 0, map[], [], 256)
    {
      credit := new CreditManager(initialB, initialY, 256);
    }

    method FindStuck(cutoff: int) returns (best: Option<nat>)
      requires credit.Valid()
      ensures best.None? ==> Stuck(credit.seen, cutoff) == map[]
      ensures best.Some? ==> Oldest(credit.seen, cutoff, best.value)
    {
      best := credit.OldestBefore(cutoff);
    }

    method ReleaseOne(n: nat, code: nat) returns (r: Result)
      requires credit.Valid() && n in credit.seen
      modifies credit
      ensures credit.Valid()
      ensures credit.View() == M.Settle(old(credit.View()), n, M.Outcome(M.Released, code), old(credit.seen)[n].bytes)
      ensures r == Result(n, M.Released, code, RETRY_MS, old(credit.seen)[n].correlation)
    {
      var sent := credit.ForceSettle(n, M.Released, code, RETRY_MS, credit.seen[n].bytes);
      r := sent.value;
    }

    method ReapLoop(code: nat, cutoff: int) returns (released: seq<nat>, sent: seq<Result>)
      requires credit.Valid()
      modifies credit
      ensures credit.Valid() && Reaped(old(credit.View()), credit.View(), cutoff, released, M.Outcome(M.Released, code))
      ensures Stuck(credit.seen, cutoff) == map[] && Announced(old(credit.seen), released, code, sent)
    {
      released, sent := [], [];
      ghost var m0, o := credit.View(), M.Outcome(M.Released, code);
      ReapStart(m0, cutoff, o);
      var best := FindStuck(cutoff);
      while best.Some?
        invariant credit.Valid() && Reaped(m0, credit.View(), cutoff, released, o)
        invariant Announced(m0.inflight, released, code, sent)
        invariant best.None? ==> Stuck(credit.seen, cutoff) == map[]
        invariant best.Some? ==> Oldest(credit.seen, cutoff, best.value)
        decreases Stuck(credit.seen, cutoff).Keys
      {
        var n := best.value;
        ReapStep(m0, credit.View(), cutoff, released, o, n);
        AnnounceStep(m0, credit.View(), cutoff, released, o, sent, n);
        var r := ReleaseOne(n, code);
        released, sent := released + [n], sent + [r];
        best := FindStuck(cutoff);
      }
    }

    /**
      The reaper loop: it stops, settles exactly the slots added before the cutoff, each once and in
      ascending order, refunds exactly their charges, and leaves younger slots alone.
    */
    method ReleaseStuck(code: nat, now: int, age: int) returns (released: seq<nat>, sent: seq<Result>)
      requires credit.Valid()
      modifies credit
      ensures credit.Valid()
      ensures Ascending(released)
      ensures forall n :: n in released <==> n in Stuck(old(credit.seen), now - age)
      ensures credit.seen == old(credit.seen) - Stuck(old(credit.seen), now - age).Keys
      ensures credit.history == old(credit.history) + Entries(released, M.Outcome(M.Released, code))
      ensures credit.recoveredB == old(credit.recoveredB) + |released|
      ensures credit.recoveredY == old(credit.recoveredY) + Total(Stuck(old(credit.seen), now - age), M.Charge)
      ensures credit.outstandingB == old(credit.outstandingB) && credit.outstandingY == old(credit.outstandingY)
      ensures Announced(old(credit.seen), released, code, sent)
    {
      ghost var m0 := credit.View();
      released, sent := ReapLoop(code, now - age);
      ReapedAll(m0, credit.View(), now - age, released, M.Outcome(M.Released, code));
    }

    /** Sends what was recovered, and nothing when there is nothing. */
    method FlushPending() returns (frame: Option<(int, int)>)
      requires credit.Valid()
      modifies credit
      ensures credit.Valid() && credit.View() == M.Take(old(credit.View()))
      ensures frame == var m := old(credit.View()); if m.recB <= 0 && m.recY <= 0 then None else Some((m.recB, m.recY))
      ensures M.HeldB(credit.View()) == M.HeldB(old(credit.View()))
      ensures M.HeldY(credit.View()) == M.HeldY(old(credit.View()))
    {
      var b, y := credit.TakeRecovered();
      frame := if b <= 0 && y <= 0 then None else Some((b, y));
    }

    /**
      Delivery through a grant in any state: it may have been settled by the reaper or by the sink
      itself. A finished grant sends and changes nothing, so no interim follows its terminal.
    */
    method DeliverBatch(grant: SettleGrant, mode: Mode, bytes: nat) returns (reply: Reply)
      requires credit.Valid() && grant.m == credit && grant.seqNo >= 1
      modifies credit, grant
      ensures credit.Valid()
      ensures Delivery(old(credit.View()), credit.View(), grant.seqNo, old(grant.done), old(grant.accepted),
                       mode, bytes, reply)
    {
      if mode.DurableMode? || mode.DurableDone? {
        var first := None;
        if mode.DurableDone? {
          var callback := new DoneCallback(grant, true);
          first := callback.Call(mode.outcome);
        }
        var interim := grant.Accept();
        return Answered(if first.Some? then first else interim);
      }
      var o := ModeOutcome(mode).value;
      var r := grant.Settle(o.level, o.code, if mode.Refused? then RETRY_MS else 0, bytes);
      return Answered(r);
    }

    /** The part after the charge, through a grant that may meanwhile have been overtaken. */
    method Conclude(grant: SettleGrant, bytes: nat, verdict: Verdict) returns (reply: Reply)
      requires credit.Valid() && grant.m == credit && grant.seqNo >= 1
      modifies credit, grant
      ensures credit.Valid()
      ensures AfterCharge(old(credit.View()), credit.View(), grant.seqNo, old(grant.done), old(grant.accepted),
                          verdict, bytes, reply)
    {
      if verdict.NoKeys? {
        grant.Release();
        return Silent;
      }
      if verdict.Expired? { return Abort; }
      if verdict.Invalid? {
        var r := grant.Settle(M.Rejected, verdict.code, 0, bytes);
        return Answered(r);
      }
      grant.Backfill(verdict.correlation);
      assert credit.View() == Backfilled(old(credit.View()), grant.seqNo, verdict.correlation);
      reply := DeliverBatch(grant, verdict.mode, bytes);
    }

    /**
      One frame through admission, charge, validation and delivery, run without interference.
      A known number is answered and changes nothing; a new one without credit is dropped and the
      connection aborted; any other ends as `Concluded` says.
    */
    method ProcessBatch(n: nat, bytes: nat, now: int, verdict: Verdict) returns (reply: Reply)
      requires credit.Valid() && bytes >= 1
      modifies credit
      ensures credit.Valid()
      ensures var m, d := old(credit.View()), M.Decide(old(credit.View()), n);
              if !d.Accept? then credit.View() == m && reply == Answer(n, d)
              else if !M.Affordable(m, bytes) then credit.View() == m && reply == Abort
              else Concluded(m, credit.View(), n, bytes, verdict, reply)
      ensures n == 0 ==> reply == Abort
      ensures n in old(credit.seen) ==> reply == Sent(Result(n, M.Accepted, 0, 0, old(credit.seen)[n].correlation))
      ensures n >= 1 && n !in old(credit.seen) && M.Settled(old(credit.history), n) ==>
                match M.Recall(old(credit.history), credit.ringCap, n)
                case Some(o) => reply == Sent(Result(n, o.level, o.code, 0, ""))
                case None => reply == Sent(Result(n, M.Released, 40, 0, ""))
      ensures n >= 1 && n !in old(credit.seen) && !M.Settled(old(credit.history), n) ==>
                if old(credit.outstandingB) < 1 || old(credit.outstandingY) < bytes then reply == Abort
                else if verdict.Expired? then reply == Abort
                else if verdict.NoKeys? then reply == Silent
                else reply.Sent? && reply.result.refSeq == n && Reports(verdict, reply.result)
    {
      var d, grant := credit.Admit(n, now);
      if grant == null { return Answer(n, d); }
      var ok := grant.Consume(bytes);
      if !ok {
        assert credit.seen == old(credit.seen);
        return Abort;
      }
      ghost var charged := credit.View();
      assert credit.seen - {n} == old(credit.seen);
      reply := Conclude(grant, bytes, verdict);
      ConcludedAlone(old(credit.View()), charged, credit.View(), n, bytes, verdict, reply);
      ConcludedReports(old(credit.View()), credit.View(), n, bytes, verdict, reply);
    }

    /**
      A batch that was settled and is sent again gets the same level and code again, whatever became
      of its content and its credit in the meantime.
    */
    method ProcessTwice(n: nat, bytes: nat, now: int, verdict: Verdict, bytes': nat, now': int, verdict': Verdict)
      returns (first: Reply, second: Reply)
      requires credit.Valid() && bytes >= 1 && bytes' >= 1
      requires n >= 1 && n !in credit.seen && !M.Settled(credit.history, n)
      requires credit.outstandingB >= 1 && credit.outstandingY >= bytes
      requires verdict.Invalid? || (verdict.Deliver? && !verdict.mode.DurableMode? && !verdict.mode.DurableDone?)
               || (verdict.Deliver? && verdict.mode.DurableDone? && !verdict.mode.outcome.SinkUnknown?)
      modifies credit
      ensures credit.Valid() && first.Sent? && second.Sent? && Reports(verdict, first.result)
      ensures second.result.level == first.result.level && second.result.code == first.result.code
      ensures second.result.refSeq == first.result.refSeq == n
    {
      first := ProcessBatch(n, bytes, now, verdict);
      ConcludedReports(old(credit.View()), credit.View(), n, bytes, verdict, first);
      ghost var h := credit.history;
      assert h[|h| - 1] == M.Settlement(n, M.Outcome(first.result.level, first.result.code));
      assert M.Settled(h, n);
      second := ProcessBatch(n, bytes', now', verdict');
    }

    /** The direct refusal when all batch workers are busy: charged, then released with a full refund. */
    method RejectAtCapacity(n: nat, bytes: nat, now: int) returns (reply: Reply)
      requires credit.Valid() && bytes >= 1
      modifies credit
      ensures credit.Valid()
      ensures var m, d := old(credit.View()), M.Decide(old(credit.View()), n);
              if !d.Accept? then credit.View() == m && reply == (if n == 0 then Abort else Silent)
              else if !M.Affordable(m, bytes) then credit.View() == m && reply == Abort
              else Concluded(m, credit.View(), n, bytes, Deliver("", Refused), reply)
      ensures n >= 1 && n !in old(credit.seen) && !M.Settled(old(credit.history), n)
              && old(credit.outstandingB) >= 1 && old(credit.outstandingY) >= bytes ==>
                && reply == Sent(Result(n, M.Released, 32, 1000, ""))
                && credit.history == old(credit.history) + [M.Settlement(n, M.Outcome(M.Released, 32))]
    {
      var d, grant := credit.Admit(n, now);
      if grant == null { return if d.Violation? then Abort else Silent; }
      var ok := grant.Consume(bytes);
      if !ok {
        assert credit.seen == old(credit.seen);
        return Abort;
      }
      assert credit.seen - {n} == old(credit.seen);
      var r := grant.Settle(M.Released, CODE_SERVER_DRAINING, RETRY_MS, bytes);
      return Sent(r.value);
    }
  }
}

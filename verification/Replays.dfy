/**
  What a client hears when it sends a number again, over every run of the server: the RESULT, not only
  the decision behind it.
*/
module Replays {
  import opened Basics
  import opened ServerRuns
  import M = Manager
  import C = Credit
  import H = Handler

  /** The RESULT for a number that arrives again. */
  ghost function Heard(m: M.Manager, n: nat): H.Reply
    requires !M.Decide(m, n).Accept?
  {
    H.Answer(n, M.Decide(m, n))
  }

  /**
    For any actions before and after a settlement at position `i`: sending its number again is
    answered with exactly the settled level and code until `ringCap` settlements followed, and with
    RELEASED, code 40, once the ring holds no settlement of the number.
  */
  lemma SettledAnswer(before: seq<Action>, after: seq<Action>, i: nat, initB: int, initY: int, ringCap: nat)
    requires ringCap >= 1 && i < |Run(Init(initB, initY, ringCap), before).mgr.history|
    ensures var s := Run(Init(initB, initY, ringCap), before);
            var m, e := Run(s, after).mgr, s.mgr.history[i];
            && !M.Decide(m, e.seqNo).Accept?
            && (|m.history| - i <= ringCap ==>
                  Heard(m, e.seqNo) == H.Sent(C.Result(e.seqNo, e.outcome.level, e.outcome.code, 0, "")))
            && ((forall j :: 0 <= j < |m.history| && |m.history| - j <= ringCap ==> m.history[j].seqNo != e.seqNo) ==>
                  Heard(m, e.seqNo) == H.Sent(C.Result(e.seqNo, M.Released, 40, 0, "")))
  {
    Replay(before, after, i, initB, initY, ringCap);
  }

  /** While the slot is there, the answer is ACCEPTED with whatever correlation was filled in last. */
  lemma InFlightAnswer(s: Server, g: nat, correlation: string)
    requires M.WellFormed(s.mgr) && g < |s.grants| && s.grants[g].seqNo in s.mgr.inflight
    ensures var n, s' := s.grants[g].seqNo, Apply(s, DoBackfill(g, correlation));
            && n in s'.mgr.inflight && n >= 1
            && Heard(s'.mgr, n) == H.Sent(C.Result(n, M.Accepted, 0, 0, correlation))
            && s'.mgr.inflight[n] == s.mgr.inflight[n].(correlation := correlation)
            && s'.mgr.inflight - {n} == s.mgr.inflight - {n} && s'.log == s.log
  {
  }

  /** A released number is free again: nothing was refunded or decided, and it is accepted anew. */
  lemma ReleasedIsFree(s: Server, g: nat)
    requires M.WellFormed(s.mgr) && g < |s.grants| && !s.grants[g].done && s.grants[g].seqNo in s.mgr.inflight
    ensures var n, s' := s.grants[g].seqNo, Apply(s, DoRelease(g));
            && n !in s'.mgr.inflight && M.Decide(s'.mgr, n).Accept?
            && M.HeldB(s'.mgr) == M.HeldB(s.mgr) && M.HeldY(s'.mgr) == M.HeldY(s.mgr)
            && s'.log == s.log && s'.grants[g].done
  {
  }

  ghost predicate StaysInFlight(s: Server, acts: seq<Action>, n: nat)
    decreases |acts|
  {
    n in s.mgr.inflight && (acts == [] || StaysInFlight(Apply(s, acts[0]), acts[1..], n))
  }

  /** A slot keeps the time of its admission for as long as it is in flight without a break. */
  lemma {:induction false} AdmissionTimeStays(s: Server, acts: seq<Action>, n: nat)
    requires n in s.mgr.inflight && StaysInFlight(s, acts, n)
    ensures n in Run(s, acts).mgr.inflight && Run(s, acts).mgr.inflight[n].addedAt == s.mgr.inflight[n].addedAt
    decreases |acts|
  {
    if acts != [] {
      AdmissionTimeStays(Apply(s, acts[0]), acts[1..], n);
    }
  }

  /** So the reaper finds a slot stuck exactly when its admission is older than the cutoff. */
  lemma StuckIffAdmittedBefore(s: Server, n: nat, now: int, acts: seq<Action>, cutoff: int)
    requires M.Decide(s.mgr, n).Accept? && StaysInFlight(Apply(s, DoAdmit(n, now)), acts, n)
    ensures n in H.Stuck(Run(Apply(s, DoAdmit(n, now)), acts).mgr.inflight, cutoff) <==> now < cutoff
  {
    AdmissionTimeStays(Apply(s, DoAdmit(n, now)), acts, n);
  }
}

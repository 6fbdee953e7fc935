/** The datagram token bucket (internal/protocol/handler_batch.go). Time is in seconds, as a real. */
module TokenBucket {
  import opened Basics

  datatype Bucket = Bucket(avail: int, last: Option<real>)

  datatype Request = Request(now: real, bytes: nat)

  /** The balance a request finds: full the first time, then topped up by the truncated refill. */
  function Refilled(b: Bucket, rate: nat, now: real): int {
    match b.last
    case None => rate
    case Some(t) => Min(rate, b.avail + ((now - t) * rate as real).Floor)
  }

  predicate Allows(b: Bucket, rate: nat, r: Request) { Refilled(b, rate, r.now) >= r.bytes }

  function Serve(b: Bucket, rate: nat, r: Request): Bucket {
    Bucket(Refilled(b, rate, r.now) - if Allows(b, rate, r) then r.bytes else 0, Some(r.now))
  }

  ghost function Run(b: Bucket, rate: nat, rs: seq<Request>): Bucket
    decreases |rs|
  {
    if rs == [] then b else Run(Serve(b, rate, rs[0]), rate, rs[1..])
  }

  ghost function Admitted(b: Bucket, rate: nat, rs: seq<Request>): nat
    decreases |rs|
  {
    if rs == [] then 0
    else (if Allows(b, rate, rs[0]) then rs[0].bytes else 0) + Admitted(Serve(b, rate, rs[0]), rate, rs[1..])
  }

  /** The clock never runs backwards. */
  ghost predicate Chronological(b: Bucket, rs: seq<Request>) {
    && (forall i, j :: 0 <= i < j < |rs| ==> rs[i].now <= rs[j].now)
    && (b.last.Some? ==> forall i :: 0 <= i < |rs| ==> b.last.value <= rs[i].now)
  }

  ghost predicate Within(b: Bucket, rate: nat) { 0 <= b.avail <= rate }

  const EMPTY: Bucket := Bucket(0, None)

  lemma Product(x: real, rate: nat)
    requires x >= 0.0
    ensures x * rate as real >= 0.0 && 0 <= (x * rate as real).Floor
    ensures (x * rate as real).Floor as real <= x * rate as real < (x * rate as real).Floor as real + 1.0
  {
  }

  /** Bytes the rate yields from time `t` to time `u`. */
  ghost function Yield(rate: nat, t: real, u: real): real { (u - t) * rate as real }

  lemma YieldAdds(rate: nat, t: real, u: real, v: real)
    requires t <= u <= v
    ensures Yield(rate, t, v) == Yield(rate, t, u) + Yield(rate, u, v)
    ensures Yield(rate, t, u) >= 0.0 && Yield(rate, u, v) >= 0.0
  {
    var r := rate as real;
    assert (v - t) * r == (u - t) * r + (v - u) * r;
  }

  /** One request: the balance it finds is the old one plus the yield, short of at most one byte, or full. */
  lemma RefillBounds(b: Bucket, rate: nat, now: real)
    requires Within(b, rate) && b.last.Some? && b.last.value <= now
    ensures b.avail <= Refilled(b, rate, now) <= rate
    ensures Refilled(b, rate, now) as real <= b.avail as real + Yield(rate, b.last.value, now)
    ensures Refilled(b, rate, now) == rate ||
            Refilled(b, rate, now) as real > b.avail as real + Yield(rate, b.last.value, now) - 1.0
  {
    Product(now - b.last.value, rate);
  }

  lemma ServeWithin(b: Bucket, rate: nat, r: Request)
    requires Within(b, rate) && (b.last.Some? ==> b.last.value <= r.now)
    ensures Within(Serve(b, rate, r), rate)
  {
    if b.last.Some? {
      RefillBounds(b, rate, r.now);
    }
  }

  lemma {:induction false} RunWithin(b: Bucket, rate: nat, rs: seq<Request>)
    requires Within(b, rate) && Chronological(b, rs)
    ensures Within(Run(b, rate, rs), rate)
    ensures rs != [] ==> Run(b, rate, rs).last == Some(rs[|rs| - 1].now)
    ensures rs == [] ==> Run(b, rate, rs) == b
    decreases |rs|
  {
    if rs != [] {
      ServeWithin(b, rate, rs[0]);
      RunWithin(Serve(b, rate, rs[0]), rate, rs[1..]);
    }
  }

  /** One step of the spending account, on numbers alone. */
  lemma SpendStep(avail: int, refilled: int, spent: nat, rest: nat, y1: real, y2: real, y: real)
    requires refilled as real <= avail as real + y1 && y == y1 + y2
    requires rest as real <= (refilled - spent) as real + y2
    ensures (spent + rest) as real <= avail as real + y
  {
  }

  /** From a known balance at a known time: what is admitted came from the balance and the yield. */
  lemma {:induction false} SpendBound(b: Bucket, rate: nat, rs: seq<Request>, end: real)
    requires Within(b, rate) && b.last.Some? && Chronological(b, rs)
    requires b.last.value <= end && forall i :: 0 <= i < |rs| ==> rs[i].now <= end
    ensures Admitted(b, rate, rs) as real <= b.avail as real + Yield(rate, b.last.value, end)
    decreases |rs|
  {
    if rs == [] {
      YieldAdds(rate, b.last.value, end, end);
    } else {
      var r := rs[0];
      var t := b.last.value;
      var b' := Serve(b, rate, r);
      ServeWithin(b, rate, r);
      SpendBound(b', rate, rs[1..], end);
      RefillBounds(b, rate, r.now);
      YieldAdds(rate, t, r.now, end);
      SpendStep(b.avail, Refilled(b, rate, r.now), if Allows(b, rate, r) then r.bytes else 0,
                Admitted(b', rate, rs[1..]),
                Yield(rate, t, r.now), Yield(rate, r.now, end), Yield(rate, t, end));
    }
  }

  lemma {:induction false} RunSplit(b: Bucket, rate: nat, xs: seq<Request>, ys: seq<Request>)
    ensures Run(b, rate, xs + ys) == Run(Run(b, rate, xs), rate, ys)
    ensures Admitted(b, rate, xs + ys) == Admitted(b, rate, xs) + Admitted(Run(b, rate, xs), rate, ys)
    decreases |xs|
  {
    if xs == [] {
      assert xs + ys == ys;
    } else {
      assert (xs + ys)[1..] == xs[1..] + ys;
      RunSplit(Serve(b, rate, xs[0]), rate, xs[1..], ys);
    }
  }

  lemma WindowChronological(before: seq<Request>, window: seq<Request>)
    requires Chronological(EMPTY, before + window)
    ensures Chronological(EMPTY, before) && Chronological(EMPTY, window)
    ensures forall i, j :: 0 <= i < |before| && 0 <= j < |window| ==> before[i].now <= window[j].now
  {
    var all := before + window;
    assert forall i :: 0 <= i < |before| ==> all[i] == before[i];
    assert forall j :: 0 <= j < |window| ==> all[|before| + j] == window[j];
  }

  /**
    The bound, for every run and every window of it: the requests in `window`, served after any
    `before`, are admitted at most one bucket plus the rate times the window's length.
  */
  lemma WindowBound(rate: nat, before: seq<Request>, window: seq<Request>)
    requires Chronological(EMPTY, before + window) && window != []
    ensures Admitted(EMPTY, rate, before + window) - Admitted(EMPTY, rate, before)
            == Admitted(Run(EMPTY, rate, before), rate, window)
    ensures Admitted(Run(EMPTY, rate, before), rate, window) as real
            <= rate as real + Yield(rate, window[0].now, window[|window| - 1].now)
  {
    var b := Run(EMPTY, rate, before);
    RunSplit(EMPTY, rate, before, window);
    WindowChronological(before, window);
    RunWithin(EMPTY, rate, before);
    ServeWithin(b, rate, window[0]);
    SpendBound(Serve(b, rate, window[0]), rate, window[1..], window[|window| - 1].now);
  }

  lemma {:induction false} IdleStaysFull(b: Bucket, rate: nat, rs: seq<Request>)
    requires Within(b, rate) && b.last.Some? && Chronological(b, rs)
    requires forall i :: 0 <= i < |rs| ==> rs[i].bytes == 0
    ensures b.avail == rate ==> Run(b, rate, rs).avail == rate
    decreases |rs|
  {
    if rs != [] {
      ServeWithin(b, rate, rs[0]);
      RefillBounds(b, rate, rs[0].now);
      IdleStaysFull(Serve(b, rate, rs[0]), rate, rs[1..]);
    }
  }

  /** Truncation costs less than one byte per request: idle requests keep the balance near the ideal. */
  lemma {:induction false} IdleRefill(b: Bucket, rate: nat, rs: seq<Request>)
    requires Within(b, rate) && b.last.Some? && Chronological(b, rs) && rs != []
    requires forall i :: 0 <= i < |rs| ==> rs[i].bytes == 0
    ensures var a := Run(b, rate, rs).avail;
            a == rate || a as real > b.avail as real + Yield(rate, b.last.value, rs[|rs| - 1].now) - |rs| as real
    decreases |rs|
  {
    var b' := Serve(b, rate, rs[0]);
    ServeWithin(b, rate, rs[0]);
    RefillBounds(b, rate, rs[0].now);
    assert b'.avail == Refilled(b, rate, rs[0].now);
    if |rs| == 1 {
      assert rs[1..] == [];
    } else {
      YieldAdds(rate, b.last.value, rs[0].now, rs[|rs| - 1].now);
      IdleRefill(b', rate, rs[1..]);
      IdleStaysFull(b', rate, rs[1..]);
    }
  }

  /** What accrues between the previous request and this one. */
  ghost function Gap(b: Bucket, rate: nat, r: Request): real
    requires b.last.Some?
  {
    Yield(rate, b.last.value, r.now)
  }

  /** Requests closer together than one byte's worth of time. */
  ghost predicate Crowded(b: Bucket, rate: nat, rs: seq<Request>)
    decreases |rs|
  {
    rs == [] ||
    (&& b.last.Some? && Gap(b, rate, rs[0]) < 1.0
     && Crowded(Serve(b, rate, rs[0]), rate, rs[1..]))
  }

  lemma {:induction false} RefusedOnlyGrows(b: Bucket, rate: nat, rs: seq<Request>)
    requires Within(b, rate) && b.last.Some? && Chronological(b, rs) && Admitted(b, rate, rs) == 0
    ensures Run(b, rate, rs).avail >= b.avail
    decreases |rs|
  {
    if rs != [] {
      ServeWithin(b, rate, rs[0]);
      RefillBounds(b, rate, rs[0].now);
      RefusedOnlyGrows(Serve(b, rate, rs[0]), rate, rs[1..]);
    }
  }

  lemma CrowdedStep(b: Bucket, rate: nat, r: Request)
    requires Within(b, rate) && b.avail < rate && b.last.Some? && b.last.value <= r.now && r.bytes > b.avail
    ensures Gap(b, rate, r) < 1.0 ==> !Allows(b, rate, r) && Serve(b, rate, r).avail == b.avail
    ensures Gap(b, rate, r) >= 1.0 ==> Allows(b, rate, r) || Serve(b, rate, r).avail > b.avail
  {
    Product(r.now - b.last.value, rate);
  }

  /**
    The loss can be total. Requests larger than a balance that is not full are all refused and leave
    that balance as it is, however long this goes on, if and only if they keep coming closer
    together than one byte's worth of time.
  */
  lemma {:induction false} StarvesIffCrowded(b: Bucket, rate: nat, rs: seq<Request>)
    requires Within(b, rate) && b.avail < rate && b.last.Some? && Chronological(b, rs)
    requires forall i :: 0 <= i < |rs| ==> rs[i].bytes > b.avail
    ensures Admitted(b, rate, rs) == 0 && Run(b, rate, rs).avail == b.avail <==> Crowded(b, rate, rs)
    decreases |rs|
  {
    if rs != [] {
      var b' := Serve(b, rate, rs[0]);
      CrowdedStep(b, rate, rs[0]);
      ServeWithin(b, rate, rs[0]);
      if Gap(b, rate, rs[0]) < 1.0 {
        StarvesIffCrowded(b', rate, rs[1..]);
      } else if Admitted(b, rate, rs) == 0 {
        RefusedOnlyGrows(b', rate, rs[1..]);
      }
    }
  }

  /** `k` requests of one byte, half a second apart, the first half a second after `t`. */
  ghost function HalfSeconds(t: real, k: nat): seq<Request>
    decreases k
  {
    if k == 0 then [] else [Request(t + 0.5, 1)] + HalfSeconds(t + 0.5, k - 1)
  }

  /** At one byte per second, an empty bucket refuses all of them. */
  lemma {:induction false} HalfSecondsRefused(t: real, k: nat)
    ensures var b := Bucket(0, Some(t));
            Admitted(b, 1, HalfSeconds(t, k)) == 0 && Run(b, 1, HalfSeconds(t, k)).avail == 0
    decreases k
  {
    if k > 0 {
      assert Serve(Bucket(0, Some(t)), 1, Request(t + 0.5, 1)) == Bucket(0, Some(t + 0.5));
      HalfSecondsRefused(t + 0.5, k - 1);
    }
  }

  /** So after a first byte at time `t`, a new limiter admits nothing more from them, for ever. */
  lemma HalfSecondsStarve(t: real, k: nat)
    ensures var rs := [Request(t, 1)] + HalfSeconds(t, k);
            Admitted(EMPTY, 1, rs) == 1 && Run(EMPTY, 1, rs).avail == 0
  {
    var rs := [Request(t, 1)] + HalfSeconds(t, k);
    assert rs[1..] == HalfSeconds(t, k);
    assert Serve(EMPTY, 1, rs[0]) == Bucket(0, Some(t));
    HalfSecondsRefused(t, k);
  }

  // ---- the exact account

  /** What one request loses: the fraction of a byte that is cut off, and what does not fit. */
  ghost function Loss(b: Bucket, rate: nat, r: Request): real
    requires b.last.Some?
  {
    b.avail as real + Gap(b, rate, r) - Refilled(b, rate, r.now) as real
  }

  ghost function Losses(b: Bucket, rate: nat, rs: seq<Request>): real
    requires b.last.Some?
    decreases |rs|
  {
    if rs == [] then 0.0 else Loss(b, rate, rs[0]) + Losses(Serve(b, rate, rs[0]), rate, rs[1..])
  }

  /** The bucket never overflows. */
  ghost predicate Uncapped(b: Bucket, rate: nat, rs: seq<Request>)
    requires b.last.Some?
    decreases |rs|
  {
    rs == [] ||
    (b.avail + Gap(b, rate, rs[0]).Floor <= rate && Uncapped(Serve(b, rate, rs[0]), rate, rs[1..]))
  }

  /** Every gap between two requests yields a whole number of bytes. */
  ghost predicate WholeGaps(b: Bucket, rate: nat, rs: seq<Request>)
    requires b.last.Some?
    decreases |rs|
  {
    rs == [] ||
    (Gap(b, rate, rs[0]) == Gap(b, rate, rs[0]).Floor as real && WholeGaps(Serve(b, rate, rs[0]), rate, rs[1..]))
  }

  lemma LossIff(b: Bucket, rate: nat, r: Request)
    requires b.last.Some?
    ensures Loss(b, rate, r) >= 0.0
    ensures Loss(b, rate, r) == 0.0
            <==> Gap(b, rate, r) == Gap(b, rate, r).Floor as real && b.avail + Gap(b, rate, r).Floor <= rate
  {
  }

  lemma {:induction false} LossesIff(b: Bucket, rate: nat, rs: seq<Request>)
    requires b.last.Some?
    ensures Losses(b, rate, rs) >= 0.0
    ensures Losses(b, rate, rs) == 0.0 <==> WholeGaps(b, rate, rs) && Uncapped(b, rate, rs)
    decreases |rs|
  {
    if rs != [] {
      LossIff(b, rate, rs[0]);
      LossesIff(Serve(b, rate, rs[0]), rate, rs[1..]);
    }
  }

  lemma {:induction false} Account(b: Bucket, rate: nat, rs: seq<Request>, end: real)
    requires b.last.Some? && Chronological(b, rs)
    requires end == if rs == [] then b.last.value else rs[|rs| - 1].now
    ensures Run(b, rate, rs).avail as real + Admitted(b, rate, rs) as real
            == b.avail as real + Yield(rate, b.last.value, end) - Losses(b, rate, rs)
    decreases |rs|
  {
    if rs == [] {
      YieldAdds(rate, end, end, end);
    } else {
      Account(Serve(b, rate, rs[0]), rate, rs[1..], end);
      YieldAdds(rate, b.last.value, rs[0].now, end);
    }
  }

  /**
    Tokens accrue at exactly the configured rate if and only if every gap between requests is worth
    a whole number of bytes and the bucket never overflows; otherwise strictly fewer do.
  */
  lemma AccruesAtRateIff(b: Bucket, rate: nat, rs: seq<Request>)
    requires b.last.Some? && Chronological(b, rs) && rs != []
    ensures var got := Run(b, rate, rs).avail as real + Admitted(b, rate, rs) as real;
            var ideal := b.avail as real + Yield(rate, b.last.value, rs[|rs| - 1].now);
            got <= ideal && (got == ideal <==> WholeGaps(b, rate, rs) && Uncapped(b, rate, rs))
  {
    Account(b, rate, rs, rs[|rs| - 1].now);
    LossesIff(b, rate, rs);
  }

  // ---- what is admitted

  /** A request is admitted exactly when what the bucket holds by then covers it, and is then paid for. */
  lemma AdmittedIff(b: Bucket, rate: nat, r: Request)
    ensures b.last.None? ==> (Allows(b, rate, r) <==> r.bytes <= rate)
    ensures b.last.Some? ==> (Allows(b, rate, r) <==>
                              && r.bytes <= rate
                              && r.bytes <= b.avail + ((r.now - b.last.value) * rate as real).Floor)
    ensures Serve(b, rate, r).last == Some(r.now)
    ensures Serve(b, rate, r).avail + (if Allows(b, rate, r) then r.bytes else 0) == Refilled(b, rate, r.now)
  {
  }

  ghost function Asked(rs: seq<Request>): nat { if rs == [] then 0 else rs[0].bytes + Asked(rs[1..]) }

  /** No request exceeds a full bucket, and each waits until the one before it is paid for again. */
  ghost predicate Paced(rate: nat, rs: seq<Request>) {
    && (forall i :: 0 <= i < |rs| ==> rs[i].bytes <= rate)
    && (forall i :: 0 <= i < |rs| - 1 ==>
          rs[i].now <= rs[i + 1].now && Yield(rate, rs[i].now, rs[i + 1].now) >= rs[i].bytes as real)
  }

  lemma PacedStep(b: Bucket, rate: nat, owed: nat, r: Request)
    requires b.last.Some? && b.last.value <= r.now && b.avail == rate - owed && r.bytes <= rate
    requires Yield(rate, b.last.value, r.now) >= owed as real
    ensures Allows(b, rate, r) && Serve(b, rate, r).avail == rate - r.bytes
  {
    Product(r.now - b.last.value, rate);
  }

  lemma {:induction false} PacedFrom(b: Bucket, rate: nat, owed: nat, rs: seq<Request>)
    requires b.last.Some? && b.avail == rate - owed && Paced(rate, rs)
    requires rs != [] ==> b.last.value <= rs[0].now && Yield(rate, b.last.value, rs[0].now) >= owed as real
    ensures Admitted(b, rate, rs) == Asked(rs)
    decreases |rs|
  {
    if rs != [] {
      PacedStep(b, rate, owed, rs[0]);
      PacedFrom(Serve(b, rate, rs[0]), rate, rs[0].bytes, rs[1..]);
    }
  }

  /** A sender that keeps to the rate is never refused: every paced list is admitted whole. */
  lemma PacedIsAdmitted(rate: nat, rs: seq<Request>)
    requires Paced(rate, rs)
    ensures Admitted(EMPTY, rate, rs) == Asked(rs)
  {
    if rs != [] {
      assert Allows(EMPTY, rate, rs[0]);
      PacedFrom(Serve(EMPTY, rate, rs[0]), rate, rs[0].bytes, rs[1..]);
    }
  }

  class DatagramLimiter {
    const rate: int
    var avail: int
    var last: Option<real>

    constructor (rate: int)
      ensures this.rate == rate && Bucket(avail, last) == EMPTY
    {
      this.rate, avail, last := rate, 0, None;
    }

    /** A rate of zero or less does not limit; otherwise one step of the bucket. */
    method Allow(now: real, n: nat) returns (ok: bool)
      requires last.Some? ==> last.value <= now
      modifies this
      ensures rate <= 0 ==> ok && avail == old(avail) && last == old(last)
      ensures rate > 0 && old(last).None? ==> (ok <==> n <= rate)
      ensures rate > 0 && old(last).Some? ==>
                (ok <==> n <= rate && n <= old(avail) + ((now - old(last).value) * rate as real).Floor)
      ensures rate > 0 ==> ok == Allows(old(Bucket(avail, last)), rate, Request(now, n))
      ensures rate > 0 ==> Bucket(avail, last) == Serve(old(Bucket(avail, last)), rate, Request(now, n))
    {
      if rate <= 0 { return true; }
      if last.None? {
        avail := rate;
      } else {
        avail := avail + ((now - last.value) * rate as real).Floor;
        if avail > rate { avail := rate; }
      }
      last := Some(now);
      if avail >= n {
        avail := avail - n;
        return true;
      }
      return false;
    }
  }
}

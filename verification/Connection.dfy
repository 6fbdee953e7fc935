/**
  One connection end to end: the client's ledger, BATCH, RESULT and CREDIT frames in transit, and
  the server with all its grant holders. Frames are delivered in any order; every lock section of
  either side is one atomic action.
*/
module Connection {
  import opened Basics
  import M = Manager
  import S = ServerRuns
  import L = Ledger

  datatype Credit = Credit(b: int, y: int)

  /** A frame whose sequence number the server has admitted but not yet charged. */
  datatype Worker = Worker(grant: nat, bytes: nat)

  datatype Conn = Conn(
    ledger: L.Ledger,
    lastSeq: nat,
    writing: map<nat, nat>,       // consumed from the ledger, write not finished
    wire: map<nat, nat>,          // BATCH frames in transit: sequence number to envelope bytes
    admitted: map<nat, Worker>,
    server: S.Server,
    credits: seq<Credit>,         // CREDIT frames in transit
    results: multiset<nat>,       // RESULT frames in transit, by the number they refer to
    lostB: int, lostY: int,       // ghost: failed writes that nothing compensates
    aborted: bool,                // the server aborted: a charge failed, or a number was invalid
    torn: bool)                   // the client tore the session down

  datatype Action =
    | Send(bytes: nat, deadline: int)
    | Skip                               // a datagram, or a send that failed while encoding
    | WriteOk(n: nat)
    | WriteFail(n: nat)
    | Arrive(n: nat, now: int)
    | Charge(n: nat)
    | Redeliver(n: nat)                  // a re-sent copy of a number the server already knows
    | AcceptInterim(g: nat)
    | Backfill(g: nat, correlation: string)
    | Settle(g: nat, outcome: M.Outcome, frameBytes: int)
    | ForceCheck(n: nat)
    | Flush
    | FlushLost                          // the CREDIT frame could not be written
    | CreditArrives(i: nat)
    | ResultArrives(n: nat)
    | ClientReap(now: int)

  /** The server has admitted this number at some point. */
  ghost predicate Known(m: M.Manager, n: nat) {
    n in m.inflight || M.Settled(m.history, n)
  }

  ghost function Init(initB: nat, initY: nat, clampB: int, clampY: int, ringCap: nat): Conn {
    Conn(L.New(initB, initY, clampB, clampY), 0, map[], map[], map[], S.Init(initB, initY, ringCap),
         [], multiset{}, 0, 0, false, false)
  }

  /** What the two programs' control flow allows next. */
  ghost predicate Enabled(c: Conn, a: Action) {
    match a
    case Send(bytes, _) => bytes >= 1                     // a sealed envelope is never empty
    case WriteOk(n) => n in c.writing
    case WriteFail(n) => n in c.writing
    case Arrive(n, _) => n in c.wire
    case Charge(n) => n in c.admitted
    case Redeliver(n) => Known(c.server.mgr, n)
    case AcceptInterim(g) => g < |c.server.grants|
    case Backfill(g, _) => g < |c.server.grants|
    case Settle(g, _, _) =>                               // a worker charges before it settles
      g < |c.server.grants| && forall n :: n in c.admitted ==> c.admitted[n].grant != g
    case CreditArrives(i) => i < |c.credits|
    case ResultArrives(n) => n in c.results
    case _ => true
  }

  /**
    The two timing assumptions, both on the lock section that settles: the slot has been charged by
    then, whoever settles it, and an overtaken grant still finds its number in the ring.
  */
  ghost predicate Prompt(c: Conn, a: Action) {
    a.Settle? && a.g < |c.server.grants| ==>
      && S.Timely(c.server, S.DoSettle(a.g, a.outcome, a.frameBytes))
      && (!c.server.grants[a.g].done ==> c.server.grants[a.g].seqNo !in c.admitted)
  }

  /** The send critical section: the number is spent even when the credit does not suffice. */
  ghost function DoSend(c: Conn, bytes: nat, deadline: int): Conn {
    var n := c.lastSeq + 1;
    if L.CanSend(c.ledger, bytes)
    then c.(lastSeq := n, ledger := L.Consume(c.ledger, n, bytes, "", deadline), writing := c.writing[n := bytes])
    else c.(lastSeq := n)
  }

  ghost function DoWriteFail(c: Conn, n: nat): Conn
    requires n in c.writing
  {
    var c' := c.(writing := c.writing - {n}, ledger := L.Rollback(c.ledger, n));
    if n in c.ledger.slots then c' else c'.(lostB := c.lostB + 1, lostY := c.lostY + c.writing[n])
  }

  ghost function DoArrive(c: Conn, n: nat, now: int): Conn
    requires n in c.wire
  {
    var c' := c.(wire := c.wire - {n}, server := S.Apply(c.server, S.DoAdmit(n, now)));
    if M.Decide(c.server.mgr, n).Accept?
    then c'.(admitted := c.admitted[n := Worker(|c.server.grants|, c.wire[n])])
    else if n == 0 then c'.(aborted := true)
    else c'.(results := c.results + multiset{n})
  }

  /** The charge fails, and the server aborts, when the grant is finished or the credit does not suffice. */
  ghost predicate Charges(c: Conn, w: Worker) {
    w.grant < |c.server.grants| && !c.server.grants[w.grant].done && M.Affordable(c.server.mgr, w.bytes)
  }

  ghost function DoCharge(c: Conn, n: nat): Conn
    requires n in c.admitted
  {
    var w := c.admitted[n];
    c.(admitted := c.admitted - {n}, server := S.Apply(c.server, S.DoConsume(w.grant, w.bytes)),
       aborted := c.aborted || !Charges(c, w))
  }

  /** A grant action whose RESULT, if one is decided, goes out on the wire. */
  ghost function Serve(c: Conn, a: S.Action, g: nat): Conn
    requires g < |c.server.grants|
  {
    var s' := S.Apply(c.server, a);
    c.(server := s',
       results := if s'.log == c.server.log then c.results else c.results + multiset{c.server.grants[g].seqNo})
  }

  /** The lock section that settles, through any grant. */
  ghost function DoSettle(c: Conn, g: nat, o: M.Outcome, y: int): Conn
    requires g < |c.server.grants|
  {
    Serve(c, S.DoSettle(g, o, y), g)
  }

  ghost function DoFlush(c: Conn): Conn {
    var m := c.server.mgr;
    if m.recB <= 0 && m.recY <= 0 then c
    else c.(server := S.Apply(c.server, S.DoTake), credits := c.credits + [Credit(m.recB, m.recY)])
  }

  /** The recovered credit is issued and its CREDIT frame never leaves: the client cannot learn of it. */
  ghost function DoFlushLost(c: Conn): Conn {
    var m := c.server.mgr;
    if m.recB <= 0 && m.recY <= 0 then c
    else c.(server := S.Apply(c.server, S.DoTake), lostB := c.lostB + m.recB, lostY := c.lostY + m.recY)
  }

  /** A CREDIT frame with a zero dimension tears the session down; any other delta is booked. */
  ghost function DoCreditArrives(c: Conn, i: nat): Conn
    requires i < |c.credits|
  {
    var cr := c.credits[i];
    var c' := c.(credits := c.credits[..i] + c.credits[i + 1..]);
    if cr.b == 0 || cr.y == 0 then c'.(torn := true, ledger := L.Reset(c.ledger))
    else c'.(ledger := L.OnCredit(c.ledger, cr.b, cr.y))
  }

  ghost function Next(c: Conn, a: Action): Conn
    requires Enabled(c, a)
  {
    match a
    case Send(bytes, deadline) => DoSend(c, bytes, deadline)
    case Skip => c.(lastSeq := c.lastSeq + 1)
    case WriteOk(n) => c.(writing := c.writing - {n}, wire := c.wire[n := c.writing[n]])
    case WriteFail(n) => DoWriteFail(c, n)
    case Arrive(n, now) => DoArrive(c, n, now)
    case Charge(n) => DoCharge(c, n)
    case Redeliver(n) => c.(server := S.Apply(c.server, S.DoAdmit(n, 0)), results := c.results + multiset{n})
    case AcceptInterim(g) => Serve(c, S.DoAccept(g), g)
    case Backfill(g, corr) => c.(server := S.Apply(c.server, S.DoBackfill(g, corr)))
    case Settle(g, o, y) => DoSettle(c, g, o, y)
    case ForceCheck(n) => c.(server := S.Apply(c.server, S.DoForceCheck(n)))
    case Flush => DoFlush(c)
    case FlushLost => DoFlushLost(c)
    case CreditArrives(i) => DoCreditArrives(c, i)
    case ResultArrives(n) => c.(results := c.results - multiset{n}, ledger := L.Terminal(c.ledger, n))
    case ClientReap(now) => c.(ledger := L.Reap(c.ledger, now))
  }

  // ---------------------------------------------------------------- sums

  ghost function One(bytes: nat): int { 1 }
  ghost function Bytes(bytes: nat): int { bytes }
  ghost function WorkerOne(w: Worker): int { 1 }
  ghost function WorkerBytes(w: Worker): int { w.bytes }
  ghost function SlotOne(s: M.Slot): int { if s.bytes > 0 then 1 else 0 }

  ghost function CreditB(cs: seq<Credit>): int { if cs == [] then 0 else CreditB(cs[..|cs| - 1]) + cs[|cs| - 1].b }
  ghost function CreditY(cs: seq<Credit>): int { if cs == [] then 0 else CreditY(cs[..|cs| - 1]) + cs[|cs| - 1].y }

  /** BATCH frames the client has paid for and the server has not charged yet. */
  ghost function UnchargedB(c: Conn): int {
    Total(c.writing, One) + Total(c.wire, One) + Total(c.admitted, WorkerOne)
  }

  ghost function UnchargedY(c: Conn): int {
    Total(c.writing, Bytes) + Total(c.wire, Bytes) + Total(c.admitted, WorkerBytes)
  }

  /** The charges of the slots in flight on the server. */
  ghost function ChargedB(c: Conn): int { Total(c.server.mgr.inflight, SlotOne) }
  ghost function ChargedY(c: Conn): int { Total(c.server.mgr.inflight, M.Charge) }

  lemma CreditAppend(cs: seq<Credit>, cr: Credit)
    ensures CreditB(cs + [cr]) == CreditB(cs) + cr.b && CreditY(cs + [cr]) == CreditY(cs) + cr.y
  {
    assert (cs + [cr])[..|cs|] == cs;
  }

  lemma {:induction false} CreditRemove(cs: seq<Credit>, i: nat)
    requires i < |cs|
    ensures CreditB(cs[..i] + cs[i + 1..]) == CreditB(cs) - cs[i].b
    ensures CreditY(cs[..i] + cs[i + 1..]) == CreditY(cs) - cs[i].y
  {
    var rest := cs[..i] + cs[i + 1..];
    if i == |cs| - 1 {
      assert rest == cs[..|cs| - 1];
    } else {
      var p := cs[..|cs| - 1];
      CreditRemove(p, i);
      assert rest[..|rest| - 1] == p[..i] + p[i + 1..];
    }
  }

  ghost predicate GoodCredits(cs: seq<Credit>) { forall i :: 0 <= i < |cs| ==> cs[i].b >= 1 && cs[i].y >= 1 }

  lemma {:induction false} CreditBounds(cs: seq<Credit>)
    requires GoodCredits(cs)
    ensures CreditB(cs) >= 0 && CreditY(cs) >= 0
  {
    if cs != [] {
      CreditBounds(cs[..|cs| - 1]);
    }
  }

  // ---------------------------------------------------------------- invariant

  /** Every frame is in exactly one place, and every grant belongs to a number the server knows. */
  ghost predicate Places(c: Conn) {
    && (forall n :: n in c.writing ==>
          1 <= n <= c.lastSeq && c.writing[n] >= 1 && n !in c.wire && !Known(c.server.mgr, n))
    && (forall n :: n in c.wire ==> 1 <= n <= c.lastSeq && c.wire[n] >= 1 && !Known(c.server.mgr, n))
    && (forall n: nat :: Known(c.server.mgr, n) ==> 1 <= n <= c.lastSeq)
    && (forall n :: n in c.writing && n in c.ledger.slots ==> c.ledger.slots[n].bytes == c.writing[n])
    && (forall n :: n in c.results ==> Known(c.server.mgr, n))
  }

  ghost predicate Grants(c: Conn) {
    && (forall n :: n in c.admitted ==>
          && n in c.server.mgr.inflight && c.server.mgr.inflight[n].bytes == 0 && c.admitted[n].bytes >= 1
          && c.admitted[n].grant < |c.server.grants| && c.server.grants[c.admitted[n].grant].seqNo == n
          && !c.server.grants[c.admitted[n].grant].done)
    && (forall n :: n in c.server.mgr.inflight ==> n in c.admitted || c.server.mgr.inflight[n].bytes >= 1)
    && (forall g: nat :: g < |c.server.grants| ==> Known(c.server.mgr, c.server.grants[g].seqNo))
  }

  /**
    The books, in both dimensions. Client: what is owed is uncharged, charged in flight, recovered,
    on its way back, or lost. Server: issued, recovered and charged credit make up the initial credit.
  */
  ghost predicate Books(c: Conn, initB: nat, initY: nat) {
    var m, l := c.server.mgr, c.ledger;
    && l.OwedB() == UnchargedB(c) + ChargedB(c) + m.recB + CreditB(c.credits) + c.lostB
    && l.OwedY() == UnchargedY(c) + ChargedY(c) + m.recY + CreditY(c.credits) + c.lostY
    && m.outB + m.recB + ChargedB(c) == initB
    && m.outY + m.recY + ChargedY(c) == initY
    && l.grantedB <= initB && l.grantedY <= initY && L.Safe(l)
    && ((m.recB == 0 && m.recY == 0) || (m.recB >= 1 && m.recY >= 1))
    && GoodCredits(c.credits)
    && c.lostB >= 0 && c.lostY >= 0
    && !c.aborted && !c.torn && l.violations == 0
  }

  ghost predicate Inv(c: Conn, initB: nat, initY: nat) {
    Places(c) && Grants(c) && Books(c, initB, initY) && M.WellFormed(c.server.mgr)
  }

  lemma SumsNonNegative(c: Conn)
    ensures Total(c.writing, One) >= 0 && Total(c.wire, One) >= 0 && Total(c.admitted, WorkerOne) >= 0
    ensures Total(c.writing, Bytes) >= 0 && Total(c.wire, Bytes) >= 0 && Total(c.admitted, WorkerBytes) >= 0
    ensures ChargedB(c) >= 0 && ChargedY(c) >= 0
  {
    TotalNonNegative(c.writing, One);
    TotalNonNegative(c.wire, One);
    TotalNonNegative(c.admitted, WorkerOne);
    TotalNonNegative(c.server.mgr.inflight, SlotOne);
    TotalNonNegative(c.writing, Bytes);
    TotalNonNegative(c.wire, Bytes);
    TotalNonNegative(c.admitted, WorkerBytes);
    TotalNonNegative(c.server.mgr.inflight, M.Charge);
  }

  /** Client-side changes that only drop slots, finished writes or delivered frames keep everything in place. */
  lemma ClientTouch(c: Conn, c': Conn)
    requires Places(c) && Grants(c) && M.WellFormed(c.server.mgr)
    requires c'.server == c.server && c'.admitted == c.admitted && c'.wire == c.wire && c'.lastSeq >= c.lastSeq
    requires forall n :: n in c'.writing ==> n in c.writing && c'.writing[n] == c.writing[n]
    requires forall n :: n in c'.ledger.slots ==> n in c.ledger.slots && c'.ledger.slots[n] == c.ledger.slots[n]
    requires forall n :: n in c'.results ==> n in c.results || Known(c.server.mgr, n)
    ensures Places(c') && Grants(c') && M.WellFormed(c'.server.mgr)
  {
  }

  /** Manager changes that keep the history and every slot's charge keep everything in place. */
  lemma ServerTouch(c: Conn, c': Conn, m': M.Manager)
    requires Places(c) && Grants(c) && M.WellFormed(c.server.mgr)
    requires c' == c.(server := c.server.(mgr := m'), credits := c'.credits, lostB := c'.lostB, lostY := c'.lostY)
    requires m'.history == c.server.mgr.history && m'.ringCap == c.server.mgr.ringCap
    requires m'.inflight.Keys == c.server.mgr.inflight.Keys
    requires forall n :: n in m'.inflight ==> m'.inflight[n].bytes == c.server.mgr.inflight[n].bytes
    ensures Places(c') && Grants(c') && M.WellFormed(c'.server.mgr)
  {
    assert forall k: nat :: Known(m', k) <==> Known(c.server.mgr, k);
  }

  /** Changing a grant's flags, without finishing an uncharged frame's grant, keeps everything in place. */
  lemma FlagTouch(c: Conn, c': Conn)
    requires Places(c) && Grants(c) && M.WellFormed(c.server.mgr)
    requires c'.server.mgr == c.server.mgr && |c'.server.grants| == |c.server.grants|
    requires c'.ledger == c.ledger && c'.lastSeq == c.lastSeq && c'.writing == c.writing && c'.wire == c.wire
    requires c'.admitted == c.admitted
    requires forall g :: 0 <= g < |c.server.grants| ==> c'.server.grants[g].seqNo == c.server.grants[g].seqNo
    requires forall n :: n in c.admitted && c.admitted[n].grant < |c.server.grants| ==>
                           !c'.server.grants[c.admitted[n].grant].done
    requires forall n :: n in c'.results ==> n in c.results || Known(c.server.mgr, n)
    ensures Places(c') && Grants(c') && M.WellFormed(c'.server.mgr)
  {
  }

  /** The books speak of neither the client's slots, nor results, nor grants and their flags. */
  lemma BooksTouch(c: Conn, c': Conn, initB: nat, initY: nat)
    requires Books(c, initB, initY)
    requires c' == c.(server := c'.server, results := c'.results, lastSeq := c'.lastSeq,
                      ledger := c.ledger.(slots := c'.ledger.slots))
    requires c'.server.mgr == c.server.mgr.(inflight := c'.server.mgr.inflight)
    requires ChargedB(c') == ChargedB(c) && ChargedY(c') == ChargedY(c)
    ensures Books(c', initB, initY)
  {
  }

  lemma GrantsTouch(c: Conn, c': Conn)
    requires Grants(c) && c'.server == c.server && c'.admitted == c.admitted
    ensures Grants(c')
  {
  }

  /** A new number is in no other place yet. */
  lemma SendPlaces(c: Conn, c': Conn, bytes: nat, deadline: int)
    requires Places(c) && bytes >= 1
    requires var n := c.lastSeq + 1;
             && c' == c.(lastSeq := n, ledger := c'.ledger, writing := c.writing[n := bytes])
             && c'.ledger.slots == c.ledger.slots[n := L.OutSlot(bytes, "", deadline, false)]
    ensures Places(c')
  {
    assert !Known(c.server.mgr, c.lastSeq + 1);
  }

  lemma SendBooks(c: Conn, bytes: nat, deadline: int, initB: nat, initY: nat)
    requires Books(c, initB, initY) && L.CanSend(c.ledger, bytes) && c.lastSeq + 1 !in c.writing
    ensures Books(DoSend(c, bytes, deadline), initB, initY)
  {
    TotalInsert(c.writing, One, c.lastSeq + 1, bytes);
    TotalInsert(c.writing, Bytes, c.lastSeq + 1, bytes);
  }

  /** A number that was drawn and not used. */
  lemma RefusedKeeps(c: Conn, initB: nat, initY: nat)
    requires Inv(c, initB, initY)
    ensures Inv(c.(lastSeq := c.lastSeq + 1), initB, initY)
  {
    ClientTouch(c, c.(lastSeq := c.lastSeq + 1));
    BooksTouch(c, c.(lastSeq := c.lastSeq + 1), initB, initY);
  }

  lemma SentKeeps(c: Conn, bytes: nat, deadline: int, initB: nat, initY: nat)
    requires Inv(c, initB, initY) && bytes >= 1 && L.CanSend(c.ledger, bytes)
    ensures Inv(DoSend(c, bytes, deadline), initB, initY)
  {
    assert c.lastSeq + 1 !in c.writing;
    SendPlaces(c, DoSend(c, bytes, deadline), bytes, deadline);
    GrantsTouch(c, DoSend(c, bytes, deadline));
    SendBooks(c, bytes, deadline, initB, initY);
  }

  lemma SendKeeps(c: Conn, bytes: nat, deadline: int, initB: nat, initY: nat)
    requires Inv(c, initB, initY) && bytes >= 1
    ensures DoSend(c, bytes, deadline).lastSeq == c.lastSeq + 1
    ensures Inv(DoSend(c, bytes, deadline), initB, initY)
  {
    if L.CanSend(c.ledger, bytes) {
      SentKeeps(c, bytes, deadline, initB, initY);
    } else {
      RefusedKeeps(c, initB, initY);
    }
  }

  lemma WriteOkPlaces(c: Conn, n: nat)
    requires Places(c) && Grants(c) && n in c.writing
    ensures Places(Next(c, WriteOk(n))) && Grants(Next(c, WriteOk(n)))
  {
  }

  lemma WriteOkBooks(c: Conn, n: nat, initB: nat, initY: nat)
    requires Books(c, initB, initY) && n in c.writing && n !in c.wire
    ensures Books(Next(c, WriteOk(n)), initB, initY)
  {
    TotalRemove(c.writing, One, n);
    TotalRemove(c.writing, Bytes, n);
    TotalInsert(c.wire, One, n, c.writing[n]);
    TotalInsert(c.wire, Bytes, n, c.writing[n]);
  }

  lemma WriteOkKeeps(c: Conn, n: nat, initB: nat, initY: nat)
    requires Inv(c, initB, initY) && n in c.writing
    ensures Inv(Next(c, WriteOk(n)), initB, initY)
  {
    WriteOkPlaces(c, n);
    WriteOkBooks(c, n, initB, initY);
  }

  lemma WriteFailBooks(c: Conn, n: nat, initB: nat, initY: nat)
    requires Books(c, initB, initY) && n in c.writing
    requires n in c.ledger.slots ==> c.ledger.slots[n].bytes == c.writing[n]
    ensures Books(DoWriteFail(c, n), initB, initY)
  {
    TotalRemove(c.writing, One, n);
    TotalRemove(c.writing, Bytes, n);
    SumsNonNegative(DoWriteFail(c, n));
    CreditBounds(c.credits);
    assert 1 <= c.ledger.OwedB() && c.writing[n] <= c.ledger.OwedY();
  }

  lemma WriteFailKeeps(c: Conn, n: nat, initB: nat, initY: nat)
    requires Inv(c, initB, initY) && n in c.writing
    ensures Inv(DoWriteFail(c, n), initB, initY)
  {
    ClientTouch(c, DoWriteFail(c, n));
    WriteFailBooks(c, n, initB, initY);
  }

  lemma QuietEffect(c: Conn, a: Action)
    requires Enabled(c, a) && (a.Skip? || a.ResultArrives? || a.ClientReap?)
    ensures var c' := Next(c, a);
            && c' == c.(results := c'.results, lastSeq := c'.lastSeq, ledger := c.ledger.(slots := c'.ledger.slots))
            && c'.lastSeq >= c.lastSeq && c'.results <= c.results
            && forall n :: n in c'.ledger.slots ==> n in c.ledger.slots && c'.ledger.slots[n] == c.ledger.slots[n]
  {
    match a
    case Skip =>
    case ResultArrives(_) =>
    case ClientReap(_) =>
  }

  lemma QuietKeeps(c: Conn, a: Action, initB: nat, initY: nat)
    requires Inv(c, initB, initY) && Enabled(c, a)
    requires a.Skip? || a.ResultArrives? || a.ClientReap?
    ensures Inv(Next(c, a), initB, initY)
  {
    QuietEffect(c, a);
    ClientTouch(c, Next(c, a));
    BooksTouch(c, Next(c, a), initB, initY);
  }

  lemma RedeliverEffect(c: Conn, n: nat)
    requires Known(c.server.mgr, n)
    ensures Next(c, Redeliver(n)) == c.(results := c.results + multiset{n})
  {
    assert !M.Decide(c.server.mgr, n).Accept?;
  }

  /** A copy of a number the server knows is answered and admits nothing. */
  lemma RedeliverKeeps(c: Conn, n: nat, initB: nat, initY: nat)
    requires Inv(c, initB, initY) && Known(c.server.mgr, n)
    ensures Next(c, Redeliver(n)).server == c.server
    ensures Inv(Next(c, Redeliver(n)), initB, initY)
  {
    RedeliverEffect(c, n);
    ClientTouch(c, Next(c, Redeliver(n)));
    BooksTouch(c, Next(c, Redeliver(n)), initB, initY);
  }

  /** The sums over the in-flight slots after one slot is added, changed or removed. */
  lemma SlotSums(m: map<nat, M.Slot>, n: nat, slot: M.Slot)
    ensures Total(m[n := slot], SlotOne) == Total(m - {n}, SlotOne) + SlotOne(slot)
    ensures Total(m[n := slot], M.Charge) == Total(m - {n}, M.Charge) + M.Charge(slot)
    ensures Total(m - {n}, SlotOne) == Total(m, SlotOne) - if n in m then SlotOne(m[n]) else 0
    ensures Total(m - {n}, M.Charge) == Total(m, M.Charge) - if n in m then M.Charge(m[n]) else 0
  {
    if n in m {
      TotalRemove(m, SlotOne, n);
      TotalRemove(m, M.Charge, n);
    } else {
      assert m - {n} == m;
    }
    TotalRemove(m[n := slot], SlotOne, n);
    TotalRemove(m[n := slot], M.Charge, n);
    assert m[n := slot] - {n} == m - {n};
  }

  lemma ArriveEffect(c: Conn, n: nat, now: int)
    requires n in c.wire && n >= 1 && !Known(c.server.mgr, n)
    ensures M.Decide(c.server.mgr, n).Accept?
    ensures DoArrive(c, n, now) ==
            c.(wire := c.wire - {n}, admitted := c.admitted[n := Worker(|c.server.grants|, c.wire[n])],
               server := c.server.(mgr := c.server.mgr.(inflight := c.server.mgr.inflight[n := M.Slot(0, "", now)]),
                                   grants := c.server.grants + [S.Grant(n, false, false)]))
    ensures forall k: nat :: Known(DoArrive(c, n, now).server.mgr, k) <==> Known(c.server.mgr, k) || k == n
  {
  }

  lemma ArrivePlaces(c: Conn, n: nat, now: int)
    requires Places(c) && n in c.wire
    ensures Places(DoArrive(c, n, now))
  {
    ArriveEffect(c, n, now);
  }

  lemma NewcomerGrants(c: Conn, c': Conn, n: nat, now: int)
    requires Grants(c) && n in c.wire && c.wire[n] >= 1 && !Known(c.server.mgr, n)
    requires c'.admitted == c.admitted[n := Worker(|c.server.grants|, c.wire[n])]
    requires c'.server.grants == c.server.grants + [S.Grant(n, false, false)]
    requires c'.server.mgr == c.server.mgr.(inflight := c.server.mgr.inflight[n := M.Slot(0, "", now)])
    ensures Grants(c')
  {
    assert forall k: nat :: Known(c.server.mgr, k) ==> Known(c'.server.mgr, k);
    forall g: nat | g < |c'.server.grants|
      ensures Known(c'.server.mgr, c'.server.grants[g].seqNo)
    {
      if g < |c.server.grants| {
        assert Known(c.server.mgr, c.server.grants[g].seqNo);
      }
    }
    assert n !in c.admitted && n !in c.server.mgr.inflight;
  }

  lemma ArriveGrants(c: Conn, n: nat, now: int)
    requires Places(c) && Grants(c) && n in c.wire
    ensures Grants(DoArrive(c, n, now))
  {
    ArriveEffect(c, n, now);
    assert !Known(c.server.mgr, n);
    NewcomerGrants(c, DoArrive(c, n, now), n, now);
  }

  lemma ArriveWellFormed(c: Conn, n: nat, now: int)
    requires Places(c) && M.WellFormed(c.server.mgr) && n in c.wire
    ensures M.WellFormed(DoArrive(c, n, now).server.mgr)
  {
    ArriveEffect(c, n, now);
    assert !Known(c.server.mgr, n);
  }

  /** A frame's credit moves from the wire to the admitted frames. */
  lemma ArriveBooks(c: Conn, c': Conn, n: nat, now: int, initB: nat, initY: nat)
    requires Books(c, initB, initY) && n in c.wire && n !in c.admitted && n !in c.server.mgr.inflight
    requires c' == c.(wire := c.wire - {n}, admitted := c'.admitted, server := c'.server)
    requires c'.admitted == c.admitted[n := Worker(|c.server.grants|, c.wire[n])]
    requires c'.server.mgr == c.server.mgr.(inflight := c.server.mgr.inflight[n := M.Slot(0, "", now)])
    ensures Books(c', initB, initY)
  {
    TotalRemove(c.wire, One, n);
    TotalRemove(c.wire, Bytes, n);
    TotalInsert(c.admitted, WorkerOne, n, Worker(|c.server.grants|, c.wire[n]));
    TotalInsert(c.admitted, WorkerBytes, n, Worker(|c.server.grants|, c.wire[n]));
    SlotSums(c.server.mgr.inflight, n, M.Slot(0, "", now));
  }

  /** A frame that arrives for the first time is always accepted. */
  lemma ArriveKeeps(c: Conn, n: nat, now: int, initB: nat, initY: nat)
    requires Inv(c, initB, initY) && n in c.wire
    ensures M.Decide(c.server.mgr, n).Accept?
    ensures Inv(DoArrive(c, n, now), initB, initY)
  {
    ArrivePlaces(c, n, now);
    ArriveGrants(c, n, now);
    ArriveWellFormed(c, n, now);
    ArriveEffect(c, n, now);
    assert n !in c.server.mgr.inflight && n !in c.admitted;
    ArriveBooks(c, DoArrive(c, n, now), n, now, initB, initY);
  }

  /** The server's credit covers every frame it has admitted, so charging never fails. */
  lemma ChargeAffordable(c: Conn, n: nat, initB: nat, initY: nat)
    requires Inv(c, initB, initY) && n in c.admitted
    ensures M.Affordable(c.server.mgr, c.admitted[n].bytes)
  {
    SumsNonNegative(c);
    CreditBounds(c.credits);
    TotalBounds(c.admitted, WorkerOne, n);
    TotalBounds(c.admitted, WorkerBytes, n);
  }

  lemma ChargeEffect(c: Conn, n: nat)
    requires Grants(c) && n in c.admitted && M.Affordable(c.server.mgr, c.admitted[n].bytes)
    ensures var w, m := c.admitted[n], c.server.mgr;
            var m' := m.(outB := m.outB - 1, outY := m.outY - w.bytes,
                         inflight := m.inflight[n := m.inflight[n].(bytes := w.bytes)]);
            && DoCharge(c, n) ==
               c.(admitted := c.admitted - {n},
                  server := c.server.(mgr := m', log := c.server.log + [S.Charged(w.grant, n, w.bytes)]))
            && forall k: nat :: Known(m', k) <==> Known(m, k)
  {
  }

  lemma ChargePlaces(c: Conn, n: nat)
    requires Places(c) && Grants(c) && n in c.admitted && M.Affordable(c.server.mgr, c.admitted[n].bytes)
    ensures Places(DoCharge(c, n))
  {
    ChargeEffect(c, n);
  }

  lemma ChargeGrants(c: Conn, n: nat)
    requires Grants(c) && M.WellFormed(c.server.mgr)
    requires n in c.admitted && M.Affordable(c.server.mgr, c.admitted[n].bytes)
    ensures Grants(DoCharge(c, n)) && M.WellFormed(DoCharge(c, n).server.mgr)
  {
    ChargeEffect(c, n);
  }

  /** A frame's credit moves from uncharged to charged. */
  lemma ChargeBooks(c: Conn, c': Conn, n: nat, initB: nat, initY: nat)
    requires Books(c, initB, initY) && n in c.admitted && c.admitted[n].bytes >= 1
    requires n in c.server.mgr.inflight && c.server.mgr.inflight[n].bytes == 0
    requires c' == c.(admitted := c.admitted - {n}, server := c'.server)
    requires var w, m := c.admitted[n], c.server.mgr;
             c'.server.mgr == m.(outB := m.outB - 1, outY := m.outY - w.bytes,
                                 inflight := m.inflight[n := m.inflight[n].(bytes := w.bytes)])
    ensures Books(c', initB, initY)
  {
    TotalRemove(c.admitted, WorkerOne, n);
    TotalRemove(c.admitted, WorkerBytes, n);
    SlotSums(c.server.mgr.inflight, n, c.server.mgr.inflight[n].(bytes := c.admitted[n].bytes));
  }

  lemma ChargeKeeps(c: Conn, n: nat, initB: nat, initY: nat)
    requires Inv(c, initB, initY) && n in c.admitted
    ensures Inv(DoCharge(c, n), initB, initY)
  {
    ChargeAffordable(c, n, initB, initY);
    ChargePlaces(c, n);
    ChargeGrants(c, n);
    ChargeEffect(c, n);
    ChargeBooks(c, DoCharge(c, n), n, initB, initY);
  }

  lemma BackfillStep(c: Conn, g: nat, corr: string)
    requires g < |c.server.grants|
    ensures var n, m := c.server.grants[g].seqNo, c.server.mgr;
            Next(c, Backfill(g, corr)) ==
            if n !in m.inflight then c else
              c.(server := c.server.(mgr := m.(inflight := m.inflight[n := m.inflight[n].(correlation := corr)])))
  {
  }

  /** No slot appears, disappears or changes its charge. */
  lemma BackfillEffect(c: Conn, g: nat, corr: string)
    requires g < |c.server.grants|
    ensures var c', m := Next(c, Backfill(g, corr)), c.server.mgr;
            var m' := c'.server.mgr;
            && c' == c.(server := c.server.(mgr := m')) && m' == m.(inflight := m'.inflight)
            && m'.inflight.Keys == m.inflight.Keys
            && (forall n :: n in m'.inflight ==> m'.inflight[n].bytes == m.inflight[n].bytes)
            && ChargedB(c') == ChargedB(c) && ChargedY(c') == ChargedY(c)
  {
    var n, m := c.server.grants[g].seqNo, c.server.mgr;
    BackfillStep(c, g, corr);
    if n in m.inflight {
      SlotSums(m.inflight, n, m.inflight[n].(correlation := corr));
    }
  }

  lemma BackfillKeeps(c: Conn, g: nat, corr: string, initB: nat, initY: nat)
    requires Inv(c, initB, initY) && g < |c.server.grants|
    ensures Inv(Next(c, Backfill(g, corr)), initB, initY)
  {
    var c' := Next(c, Backfill(g, corr));
    BackfillEffect(c, g, corr);
    ServerTouch(c, c', c'.server.mgr);
    BooksTouch(c, c', initB, initY);
  }

  /** A settlement either changes nothing but the holder's flag, or settles a charged slot. */
  lemma SettleEffect(c: Conn, g: nat, o: M.Outcome, y: int)
    requires Grants(c) && g < |c.server.grants| && Prompt(c, Settle(g, o, y))
    requires !c.server.grants[g].done && c.server.grants[g].seqNo in c.server.mgr.inflight
    ensures var n, m := c.server.grants[g].seqNo, c.server.mgr;
            var m' := m.(inflight := m.inflight - {n}, history := m.history + [M.Settlement(n, o)],
                         recB := m.recB + 1, recY := m.recY + m.inflight[n].bytes);
            && n !in c.admitted && m.inflight[n].bytes >= 1
            && DoSettle(c, g, o, y) ==
               c.(server := S.MarkDone(c.server, g).(mgr := m',
                                                     log := c.server.log + [S.Final(g, n, o, m.inflight[n].bytes)]),
                  results := c.results + multiset{n})
            && forall k: nat :: Known(m', k) <==> Known(m, k)
  {
    var n, m := c.server.grants[g].seqNo, c.server.mgr;
    M.SettledAppend(m.history, M.Settlement(n, o));
  }

  lemma SettlePlaces(c: Conn, g: nat, o: M.Outcome, y: int)
    requires Places(c) && Grants(c) && g < |c.server.grants| && Prompt(c, Settle(g, o, y))
    requires !c.server.grants[g].done && c.server.grants[g].seqNo in c.server.mgr.inflight
    ensures Places(DoSettle(c, g, o, y))
  {
    SettleEffect(c, g, o, y);
  }

  /** Finishing the grant of a number that no admitted frame has. */
  lemma SettledGrants(c: Conn, c': Conn, g: nat)
    requires Grants(c) && g < |c.server.grants| && c.server.grants[g].seqNo !in c.admitted
    requires c'.admitted == c.admitted && c'.server.grants == S.MarkDone(c.server, g).grants
    requires c'.server.mgr.inflight == c.server.mgr.inflight - {c.server.grants[g].seqNo}
    requires forall k: nat :: Known(c'.server.mgr, k) <==> Known(c.server.mgr, k)
    ensures Grants(c')
  {
  }

  lemma SettleGrants(c: Conn, g: nat, o: M.Outcome, y: int)
    requires Grants(c) && g < |c.server.grants| && Prompt(c, Settle(g, o, y))
    requires !c.server.grants[g].done && c.server.grants[g].seqNo in c.server.mgr.inflight
    ensures Grants(DoSettle(c, g, o, y))
  {
    SettleEffect(c, g, o, y);
    SettledGrants(c, DoSettle(c, g, o, y), g);
  }

  lemma SettleWellFormed(c: Conn, g: nat, o: M.Outcome, y: int)
    requires M.WellFormed(c.server.mgr) && Grants(c) && g < |c.server.grants| && Prompt(c, Settle(g, o, y))
    requires !c.server.grants[g].done && c.server.grants[g].seqNo in c.server.mgr.inflight
    ensures M.WellFormed(DoSettle(c, g, o, y).server.mgr)
  {
    SettleEffect(c, g, o, y);
    M.SettledAppend(c.server.mgr.history, M.Settlement(c.server.grants[g].seqNo, o));
  }

  /** A charge moves from the slot to the recovered credit. */
  lemma SettleBooks(c: Conn, c': Conn, n: nat, initB: nat, initY: nat)
    requires Books(c, initB, initY) && n in c.server.mgr.inflight && c.server.mgr.inflight[n].bytes >= 1
    requires c' == c.(server := c'.server, results := c'.results)
    requires var m := c.server.mgr;
             c'.server.mgr == m.(inflight := m.inflight - {n}, history := c'.server.mgr.history,
                                 recB := m.recB + 1, recY := m.recY + m.inflight[n].bytes)
    ensures Books(c', initB, initY)
  {
    SlotSums(c.server.mgr.inflight, n, c.server.mgr.inflight[n]);
  }

  lemma OvertakenEffect(c: Conn, g: nat, o: M.Outcome, y: int)
    requires g < |c.server.grants| && !c.server.grants[g].done && M.Overtaken(c.server.mgr, c.server.grants[g].seqNo)
    ensures DoSettle(c, g, o, y) == c.(server := S.MarkDone(c.server, g))
  {
  }

  /** An overtaken grant only gets its flag set. */
  lemma OvertakenKeeps(c: Conn, g: nat, initB: nat, initY: nat)
    requires Inv(c, initB, initY) && g < |c.server.grants| && c.server.grants[g].seqNo !in c.server.mgr.inflight
    ensures Inv(c.(server := S.MarkDone(c.server, g)), initB, initY)
  {
    var c' := c.(server := S.MarkDone(c.server, g));
    FlagTouch(c, c');
    BooksTouch(c, c', initB, initY);
  }

  lemma ChargedKeeps(c: Conn, g: nat, o: M.Outcome, y: int, initB: nat, initY: nat)
    requires Inv(c, initB, initY) && g < |c.server.grants| && Prompt(c, Settle(g, o, y))
    requires !c.server.grants[g].done && c.server.grants[g].seqNo in c.server.mgr.inflight
    ensures Inv(DoSettle(c, g, o, y), initB, initY)
  {
    SettlePlaces(c, g, o, y);
    SettleGrants(c, g, o, y);
    SettleWellFormed(c, g, o, y);
    SettleEffect(c, g, o, y);
    SettleBooks(c, DoSettle(c, g, o, y), c.server.grants[g].seqNo, initB, initY);
  }

  lemma SettleKeeps(c: Conn, g: nat, o: M.Outcome, y: int, initB: nat, initY: nat)
    requires Inv(c, initB, initY) && g < |c.server.grants| && Prompt(c, Settle(g, o, y))
    ensures Inv(DoSettle(c, g, o, y), initB, initY)
  {
    var n, m := c.server.grants[g].seqNo, c.server.mgr;
    if c.server.grants[g].done {
      assert DoSettle(c, g, o, y) == c;
    } else if n in m.inflight {
      ChargedKeeps(c, g, o, y, initB, initY);
    } else {
      assert Known(m, n);
      OvertakenEffect(c, g, o, y);
      OvertakenKeeps(c, g, initB, initY);
    }
  }

  lemma AcceptEffect(c: Conn, g: nat)
    requires g < |c.server.grants|
    ensures var c' := Next(c, AcceptInterim(g));
            && c' == c.(server := c'.server, results := c'.results) && c'.server.mgr == c.server.mgr
            && c'.server.grants == c.server.grants[g := c.server.grants[g].(accepted := true)]
            && forall n :: n in c'.results ==> n in c.results || n == c.server.grants[g].seqNo
  {
  }

  lemma AcceptKeeps(c: Conn, g: nat, initB: nat, initY: nat)
    requires Inv(c, initB, initY) && g < |c.server.grants|
    ensures Inv(Next(c, AcceptInterim(g)), initB, initY)
  {
    AcceptEffect(c, g);
    assert Known(c.server.mgr, c.server.grants[g].seqNo);
    FlagTouch(c, Next(c, AcceptInterim(g)));
    BooksTouch(c, Next(c, AcceptInterim(g)), initB, initY);
  }

  /** One more holder of a known number keeps everything in place. */
  lemma HolderTouch(c: Conn, c': Conn, n: nat)
    requires Places(c) && Grants(c) && Known(c.server.mgr, n)
    requires c' == c.(server := c.server.(grants := c.server.grants + [S.Grant(n, false, false)]))
    ensures Places(c') && Grants(c')
  {
  }

  /** The check itself is harmless, charged slot or not. */
  lemma ForceCheckKeeps(c: Conn, n: nat, initB: nat, initY: nat)
    requires Inv(c, initB, initY)
    ensures Inv(Next(c, ForceCheck(n)), initB, initY)
    ensures Next(c, ForceCheck(n)) == if n !in c.server.mgr.inflight then c else
              c.(server := c.server.(grants := c.server.grants + [S.Grant(n, false, false)]))
  {
    if n in c.server.mgr.inflight {
      HolderTouch(c, Next(c, ForceCheck(n)), n);
      BooksTouch(c, Next(c, ForceCheck(n)), initB, initY);
    }
  }

  /** Recovered credit becomes issued on the server and owed by a CREDIT frame. */
  lemma FlushBooks(c: Conn, c': Conn, cr: Credit, initB: nat, initY: nat)
    requires Books(c, initB, initY) && cr == Credit(c.server.mgr.recB, c.server.mgr.recY) && cr.b >= 1
    requires c' == c.(server := c'.server, credits := c.credits + [cr])
    requires var m := c.server.mgr;
             c'.server.mgr == m.(outB := m.outB + m.recB, outY := m.outY + m.recY, recB := 0, recY := 0)
    requires CreditB(c'.credits) == CreditB(c.credits) + cr.b && CreditY(c'.credits) == CreditY(c.credits) + cr.y
    ensures Books(c', initB, initY)
  {
  }

  lemma FlushKeeps(c: Conn, initB: nat, initY: nat)
    requires Inv(c, initB, initY)
    ensures Inv(DoFlush(c), initB, initY)
  {
    var m := c.server.mgr;
    if m.recB > 0 || m.recY > 0 {
      CreditAppend(c.credits, Credit(m.recB, m.recY));
      ServerTouch(c, DoFlush(c), M.Take(m));
      FlushBooks(c, DoFlush(c), Credit(m.recB, m.recY), initB, initY);
    }
  }

  lemma FlushLostKeeps(c: Conn, initB: nat, initY: nat)
    requires Inv(c, initB, initY)
    ensures Inv(DoFlushLost(c), initB, initY)
  {
    var m := c.server.mgr;
    if m.recB > 0 || m.recY > 0 {
      ServerTouch(c, DoFlushLost(c), M.Take(m));
    }
  }

  lemma CreditBooks(c: Conn, i: nat, initB: nat, initY: nat)
    requires Books(c, initB, initY) && i < |c.credits|
    ensures 1 <= c.credits[i].b <= c.ledger.OwedB() && 1 <= c.credits[i].y <= c.ledger.OwedY()
    ensures Books(DoCreditArrives(c, i), initB, initY)
  {
    var rest := c.credits[..i] + c.credits[i + 1..];
    CreditRemove(c.credits, i);
    assert GoodCredits(rest);
    CreditBounds(rest);
    SumsNonNegative(c);
  }

  /** A CREDIT frame is never malformed and never exceeds what the client is owed. */
  lemma CreditKeeps(c: Conn, i: nat, initB: nat, initY: nat)
    requires Inv(c, initB, initY) && i < |c.credits|
    ensures 1 <= c.credits[i].b <= c.ledger.OwedB() && 1 <= c.credits[i].y <= c.ledger.OwedY()
    ensures Inv(DoCreditArrives(c, i), initB, initY)
  {
    CreditBooks(c, i, initB, initY);
    ClientTouch(c, DoCreditArrives(c, i));
  }

  /** Writing, and the CREDIT frames that come back. */
  lemma WriterKeeps(c: Conn, a: Action, initB: nat, initY: nat)
    requires Inv(c, initB, initY) && Enabled(c, a)
    requires a.Send? || a.WriteOk? || a.WriteFail? || a.CreditArrives?
    ensures Inv(Next(c, a), initB, initY)
  {
    match a
    case Send(bytes, deadline) => SendKeeps(c, bytes, deadline, initB, initY);
    case WriteOk(n) => WriteOkKeeps(c, n, initB, initY);
    case WriteFail(n) => WriteFailKeeps(c, n, initB, initY);
    case CreditArrives(i) => CreditKeeps(c, i, initB, initY);
  }

  /** Admission, charge, replay and flush. */
  lemma ReaderKeeps(c: Conn, a: Action, initB: nat, initY: nat)
    requires Inv(c, initB, initY) && Enabled(c, a)
    requires a.Arrive? || a.Charge? || a.Redeliver? || a.Flush? || a.FlushLost?
    ensures Inv(Next(c, a), initB, initY)
  {
    match a
    case Arrive(n, now) => ArriveKeeps(c, n, now, initB, initY);
    case Charge(n) => ChargeKeeps(c, n, initB, initY);
    case Redeliver(n) => RedeliverKeeps(c, n, initB, initY);
    case Flush => FlushKeeps(c, initB, initY);
    case FlushLost => FlushLostKeeps(c, initB, initY);
  }

  /** The steps of grant holders, the reaper among them. */
  lemma HolderKeeps(c: Conn, a: Action, initB: nat, initY: nat)
    requires Inv(c, initB, initY) && Enabled(c, a) && Prompt(c, a)
    requires a.AcceptInterim? || a.Backfill? || a.Settle? || a.ForceCheck?
    ensures Inv(Next(c, a), initB, initY)
  {
    match a
    case AcceptInterim(g) => AcceptKeeps(c, g, initB, initY);
    case Backfill(g, corr) => BackfillKeeps(c, g, corr, initB, initY);
    case Settle(g, o, y) => SettleKeeps(c, g, o, y, initB, initY);
    case ForceCheck(n) => ForceCheckKeeps(c, n, initB, initY);
  }

  lemma StepKeeps(c: Conn, a: Action, initB: nat, initY: nat)
    requires Inv(c, initB, initY) && Enabled(c, a) && Prompt(c, a)
    ensures Inv(Next(c, a), initB, initY)
  {
    if a.Send? || a.WriteOk? || a.WriteFail? || a.CreditArrives? {
      WriterKeeps(c, a, initB, initY);
    } else if a.Skip? || a.ResultArrives? || a.ClientReap? {
      QuietKeeps(c, a, initB, initY);
    } else if a.AcceptInterim? || a.Backfill? || a.Settle? || a.ForceCheck? {
      HolderKeeps(c, a, initB, initY);
    } else {
      ReaderKeeps(c, a, initB, initY);
    }
  }
}

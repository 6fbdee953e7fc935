/** The client's sending side (internal/protocol/client.go, client_control.go) and its nonces. */
module Client {
  import opened Encoding
  import opened ClientLedger
  import L = Ledger

  /** Twelve bytes: the session's fixed field, then the whole counter (section 3.2 of RFC 5116). */
  function BuildNonce(prefix: seq<Byte>, seqNo: nat): (nonce: seq<Byte>)
    requires |prefix| == 4 && seqNo < UINT64
    ensures |nonce| == 12 && nonce[..4] == prefix
  {
    prefix + BigEndian(seqNo, 8)
  }

  /** The last eight bytes are the whole counter, most significant byte first. */
  lemma NonceLayout(prefix: seq<Byte>, seqNo: nat)
    requires |prefix| == 4 && seqNo < UINT64
    ensures var nonce := BuildNonce(prefix, seqNo);
            nonce[..4] == prefix && FromBigEndian(nonce[4..]) == seqNo
  {
    Widths();
    BigEndianValue(seqNo, 8);
    assert BuildNonce(prefix, seqNo)[4..] == BigEndian(seqNo, 8);
  }

  lemma NonceInjective(p: seq<Byte>, a: nat, q: seq<Byte>, b: nat)
    requires |p| == |q| == 4 && a < UINT64 && b < UINT64
    ensures BuildNonce(p, a) == BuildNonce(q, b) <==> p == q && a == b
  {
    Widths();
    if BuildNonce(p, a) == BuildNonce(q, b) {
      assert BuildNonce(p, a)[..4] == p && BuildNonce(q, b)[..4] == q;
      assert BuildNonce(p, a)[4..] == BigEndian(a, 8) && BuildNonce(q, b)[4..] == BigEndian(b, 8);
      BigEndianInjective(a, b, 8);
    }
  }

  /**
    A session's seals: `sealed[k]` is the nonce of the envelope sealed for the `issued[k]`-th number
    drawn from the one counter, where draws of refused, failed or unsealed sends leave gaps.
  */
  ghost predicate SealLog(prefix: seq<Byte>, issued: seq<nat>, sealed: seq<seq<Byte>>, draws: nat) {
    && |prefix| == 4 && |issued| == |sealed|
    && (forall i, j :: 0 <= i < j < |issued| ==> issued[i] < issued[j])
    && (forall i :: 0 <= i < |issued| ==>
          1 <= issued[i] <= draws && sealed[i] == BuildNonce(prefix, issued[i] % UINT64))
  }

  lemma SameResidue(a: nat, b: nat)
    requires a <= b
    ensures a % UINT64 == b % UINT64 <==> (b - a) % UINT64 == 0
  {
    var qa, qb, q := a / UINT64, b / UINT64, (b - a) / UINT64;
    assert a == UINT64 * qa + a % UINT64;
    assert b == UINT64 * qb + b % UINT64;
    assert b - a == UINT64 * q + (b - a) % UINT64;
  }

  lemma NextResidue(d: nat)
    ensures (d % UINT64 + 1) % UINT64 == (d + 1) % UINT64
  {
    SameResidue(d % UINT64 + 1, d + 1);
    SameResidue(d % UINT64, d);
  }

  /** Two envelopes of one session share a nonce exactly when their draws differ by a multiple of 2^64. */
  lemma NonceReuseIff(prefix: seq<Byte>, issued: seq<nat>, sealed: seq<seq<Byte>>, draws: nat, i: nat, j: nat)
    requires SealLog(prefix, issued, sealed, draws) && i < j < |sealed|
    ensures sealed[i] == sealed[j] <==> (issued[j] - issued[i]) % UINT64 == 0
  {
    NonceInjective(prefix, issued[i] % UINT64, prefix, issued[j] % UINT64);
    SameResidue(issued[i], issued[j]);
  }

  lemma BelowModulus(d: nat)
    requires 0 < d < UINT64
    ensures d % UINT64 != 0
  {
  }

  /** So below 2^64 draws no nonce is ever used twice, over any mix of sends. */
  lemma NoncesUnique(prefix: seq<Byte>, issued: seq<nat>, sealed: seq<seq<Byte>>, draws: nat)
    requires SealLog(prefix, issued, sealed, draws) && draws < UINT64
    ensures forall i, j :: 0 <= i < j < |sealed| ==> sealed[i] != sealed[j]
  {
    forall i, j | 0 <= i < j < |sealed|
      ensures sealed[i] != sealed[j]
    {
      NonceReuseIff(prefix, issued, sealed, draws, i, j);
      BelowModulus(issued[j] - issued[i]);
    }
  }

  /** A received 64-bit count read as a signed one. */
  function ToInt64(u: nat): (i: int)
    requires u < UINT64
    ensures -0x8000_0000_0000_0000 <= i < 0x8000_0000_0000_0000 && (i == u || i == u - UINT64)
  {
    if u < 0x8000_0000_0000_0000 then u else u - UINT64
  }

  datatype SendOutcome = NotSealed | Refused(n: nat) | Writing(n: nat)

  class CoreClient {
    var counter: nat                       // the one sequence counter, wrapping at 64 bits
    var torn: bool
    const prefix: seq<Byte>
    const ledger: CreditLedger
    ghost var draws: nat
    ghost var issued: seq<nat>
    ghost var sealed: seq<seq<Byte>>

    ghost predicate Valid()
      reads this
    {
      counter == draws % UINT64 && SealLog(prefix, issued, sealed, draws)
    }

    constructor (prefix: seq<Byte>, ledger: CreditLedger)
      requires |prefix| == 4
      ensures Valid() && this.prefix == prefix && this.ledger == ledger && draws == 0 && sealed == [] && !torn
    {
      this.prefix, this.ledger := prefix, ledger;
      counter, torn, draws, issued, sealed := 0, false, 0, [], [];
    }

    /**
      Draws a number and seals, inside the send lock. `ready` covers the checks before the draw,
      `encodes` the encoding after it; a wrapped number 0 is refused by the sealing itself.
    */
    method EncodeAndSeal(ready: bool, encodes: bool) returns (n: nat, ok: bool)
      requires Valid()
      modifies this`counter, this`draws, this`issued, this`sealed
      ensures Valid() && ok == (ready && encodes && n != 0)
      ensures draws == old(draws) + (if ready then 1 else 0)
      ensures ready ==> n == draws % UINT64
      ensures issued == old(issued) + if ok then [draws] else []
      ensures ok ==> sealed == old(sealed) + [BuildNonce(prefix, n)]
      ensures !ok ==> sealed == old(sealed)
    {
      if !ready { return 0, false; }
      NextResidue(draws);
      counter := (counter + 1) % UINT64;
      n := counter;
      draws := draws + 1;
      if !encodes || n == 0 { return n, false; }
      issued, sealed := issued + [draws], sealed + [BuildNonce(prefix, n)];
      return n, true;
    }

    /** The send critical section: the number is drawn first and stays spent when credit is refused. */
    method SendBatch(ready: bool, encodes: bool, bytes: nat, deadline: int) returns (r: SendOutcome)
      requires Valid()
      modifies this`counter, this`draws, this`issued, this`sealed, ledger
      ensures Valid() && draws == old(draws) + (if ready then 1 else 0)
      ensures r.NotSealed? <==> !(ready && encodes && draws % UINT64 != 0)
      ensures r.NotSealed? ==> sealed == old(sealed)
      ensures r.NotSealed? ==> ledger.View() == old(ledger.View())
      ensures !r.NotSealed? ==>
                && r.n == draws % UINT64 && sealed == old(sealed) + [BuildNonce(prefix, r.n)]
                && ledger.View() == L.Consume(old(ledger.View()), r.n, bytes, "", deadline)
                && (r.Writing? <==> L.CanSend(old(ledger.View()), bytes))
    {
      var n, ok := EncodeAndSeal(ready, encodes);
      if !ok { return NotSealed; }
      var paid := ledger.Consume(n, bytes, "", deadline);
      return if paid then Writing(n) else Refused(n);
    }

    /** The end of a send: a failed write is compensated, if its slot is still there. */
    method FinishWrite(n: nat, ok: bool)
      modifies ledger
      ensures ledger.View() == if ok then old(ledger.View()) else L.Rollback(old(ledger.View()), n)
    {
      if !ok {
        var _ := ledger.Rollback(n);
      }
    }

    /** A RESULT drops the slot and returns no credit; one with an unknown level is ignored. */
    method HandleResult(n: nat, validLevel: bool) returns (drained: bool)
      modifies ledger
      ensures ledger.View() == if validLevel then L.Terminal(old(ledger.View()), n) else old(ledger.View())
      ensures drained <==> validLevel && ledger.slots == map[]
    {
      if !validLevel { return false; }
      var _ := ledger.Terminal(n);
      return |ledger.slots| == 0;
    }

    /**
      A datagram draws from the same counter and touches no credit. Without a negotiated unreliable
      channel it is sent as a batch and pays like one.
    */
    method SendDatagram(supported: bool, ready: bool, encodes: bool, bytes: nat, deadline: int) returns (r: SendOutcome)
      requires Valid()
      modifies this`counter, this`draws, this`issued, this`sealed, ledger
      ensures Valid() && draws == old(draws) + (if ready then 1 else 0)
      ensures r.NotSealed? <==> !(ready && encodes && draws % UINT64 != 0)
      ensures !r.NotSealed? ==> r.n == draws % UINT64
      ensures sealed == old(sealed) + if r.NotSealed? then [] else [BuildNonce(prefix, r.n)]
      ensures r.Refused? ==> !supported
      ensures supported || r.NotSealed? ==> ledger.View() == old(ledger.View())
      ensures !supported && !r.NotSealed? ==>
                && ledger.View() == L.Consume(old(ledger.View()), r.n, bytes, "", deadline)
                && (r.Writing? <==> L.CanSend(old(ledger.View()), bytes))
    {
      if !supported {
        r := SendBatch(ready, encodes, bytes, deadline);
        return;
      }
      var n, ok := EncodeAndSeal(ready, encodes);
      return if ok then Writing(n) else NotSealed;
    }

    /** A CREDIT frame with a zero in either dimension tears the session down; others are booked. */
    method HandleCredit(batches: nat, bytes: nat)
      requires batches < UINT64 && bytes < UINT64
      modifies this`torn, ledger
      ensures torn == (old(torn) || batches == 0 || bytes == 0)
      ensures ledger.View() == if batches == 0 || bytes == 0 then L.Reset(old(ledger.View()))
                               else L.OnCredit(old(ledger.View()), ToInt64(batches), ToInt64(bytes))
    {
      if batches == 0 || bytes == 0 {
        torn := true;
        ledger.Reset();
        return;
      }
      ledger.OnCredit(ToInt64(batches), ToInt64(bytes));
    }
  }
}

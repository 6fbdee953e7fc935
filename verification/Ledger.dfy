/** The specification of the client's credit ledger (core/credit.go), on values. */
module Ledger {
  import opened Basics

  const DEFAULT_CLAMP_BATCHES := 0x1_0000
  const DEFAULT_CLAMP_BYTES := 0x1_0000_0000

  datatype OutSlot = OutSlot(bytes: nat, correlation: string, deadline: int, failed: bool)

  datatype Ledger = Ledger(
    grantedB: int, grantedY: int,
    consumedB: int, consumedY: int,
    returnedB: int, returnedY: int,
    clampB: int, clampY: int,
    slots: map<nat, OutSlot>,
    violations: nat)
  {
    function AvailB(): int { grantedB - consumedB + returnedB }

    function AvailY(): int { grantedY - consumedY + returnedY }

    /** Consumed and not yet returned. */
    function OwedB(): int { consumedB - returnedB }

    function OwedY(): int { consumedY - returnedY }
  }

  function Clamp(c: int, default: int): int { if c <= 0 then default else c }

  ghost function New(initialB: int, initialY: int, clampB: int, clampY: int): Ledger {
    var cB, cY := Clamp(clampB, DEFAULT_CLAMP_BATCHES), Clamp(clampY, DEFAULT_CLAMP_BYTES);
    Ledger(Min(initialB, cB), Min(initialY, cY), 0, 0, 0, 0, cB, cY, map[], 0)
  }

  ghost predicate CanSend(l: Ledger, bytes: nat) { l.AvailB() >= 1 && l.AvailY() >= bytes }

  ghost function Consume(l: Ledger, n: nat, bytes: nat, correlation: string, deadline: int): Ledger {
    if !CanSend(l, bytes) then l
    else l.(consumedB := l.consumedB + 1, consumedY := l.consumedY + bytes,
            slots := l.slots[n := OutSlot(bytes, correlation, deadline, false)])
  }

  /** A CREDIT delta: zeros are ignored, negatives and excess count as violations, excess is cut off. */
  ghost function OnCredit(l: Ledger, dB: int, dY: int): Ledger {
    if dB == 0 && dY == 0 then l
    else if dB < 0 || dY < 0 then l.(violations := l.violations + 1)
    else l.(returnedB := l.returnedB + Min(dB, l.OwedB()),
            returnedY := l.returnedY + Min(dY, l.OwedY()),
            violations := l.violations + (if dB > l.OwedB() then 1 else 0) + (if dY > l.OwedY() then 1 else 0))
  }

  ghost function Terminal(l: Ledger, n: nat): Ledger { l.(slots := l.slots - {n}) }

  ghost function Rollback(l: Ledger, n: nat): Ledger {
    if n !in l.slots then l
    else l.(slots := l.slots - {n},
            returnedB := l.returnedB + Min(1, l.OwedB()),
            returnedY := l.returnedY + Min(l.slots[n].bytes, l.OwedY()))
  }

  ghost function Reap(l: Ledger, now: int): Ledger {
    l.(slots := map n | n in l.slots && now <= l.slots[n].deadline :: l.slots[n])
  }

  ghost function Reset(l: Ledger): Ledger { l.(slots := map[]) }

  // ---------------------------------------------------------------- safety against any input

  datatype Op =
    | OpConsume(n: nat, bytes: nat, correlation: string, deadline: int)
    | OpCredit(dB: int, dY: int)
    | OpTerminal(n: nat)
    | OpRollback(n: nat)
    | OpReap(now: int)
    | OpReset

  ghost function Apply(l: Ledger, op: Op): Ledger {
    match op
    case OpConsume(n, bytes, c, d) => Consume(l, n, bytes, c, d)
    case OpCredit(dB, dY) => OnCredit(l, dB, dY)
    case OpTerminal(n) => Terminal(l, n)
    case OpRollback(n) => Rollback(l, n)
    case OpReap(now) => Reap(l, now)
    case OpReset => Reset(l)
  }

  ghost function Run(l: Ledger, ops: seq<Op>): Ledger
    decreases |ops|
  {
    if ops == [] then l else Run(Apply(l, ops[0]), ops[1..])
  }

  ghost predicate Safe(l: Ledger) {
    && 0 <= l.returnedB <= l.consumedB && 0 <= l.returnedY <= l.consumedY
    && 0 <= l.AvailB() <= l.grantedB <= l.clampB && 0 <= l.AvailY() <= l.grantedY <= l.clampY
  }

  lemma {:induction false} RunStaysSafe(l: Ledger, ops: seq<Op>)
    requires Safe(l)
    ensures Safe(Run(l, ops))
    decreases |ops|
  {
    if ops != [] {
      RunStaysSafe(Apply(l, ops[0]), ops[1..]);
    }
  }

  /** Safe after every sequence of operations. */
  ghost predicate AlwaysSafe(l: Ledger) { forall ops: seq<Op> :: Safe(Run(l, ops)) }

  lemma AlwaysSafeIff(l: Ledger)
    ensures AlwaysSafe(l) <==> Safe(l)
  {
    assert Run(l, []) == l;
    if Safe(l) {
      forall ops: seq<Op>
        ensures Safe(Run(l, ops))
      {
        RunStaysSafe(l, ops);
      }
    }
  }

  /**
    Whatever a server sends, the books of a ledger opened with non-negative credit stay within
    bounds in both dimensions; a ledger opened with negative credit is out of bounds from the start.
  */
  lemma SafeAgainstAnyServer(initialB: int, initialY: int, clampB: int, clampY: int)
    ensures AlwaysSafe(New(initialB, initialY, clampB, clampY)) <==> initialB >= 0 && initialY >= 0
  {
    var l := New(initialB, initialY, clampB, clampY);
    AlwaysSafeIff(l);
    assert Safe(l) <==> initialB >= 0 && initialY >= 0;
  }

  // ---------------------------------------------------------------- what is granted and what is booked

  /** A send is granted exactly when both dimensions have enough left, and then spends just that. */
  lemma SendGrantedIff(l: Ledger, n: nat, bytes: nat, correlation: string, deadline: int)
    ensures var l' := Consume(l, n, bytes, correlation, deadline);
            && (l' != l <==> l.grantedB - l.consumedB + l.returnedB >= 1
                             && l.grantedY - l.consumedY + l.returnedY >= bytes)
            && (l' != l ==> l'.AvailB() == l.AvailB() - 1 && l'.AvailY() == l.AvailY() - bytes)
            && (l' != l ==> l'.slots == l.slots[n := OutSlot(bytes, correlation, deadline, false)])
  {
    assert CanSend(l, bytes) ==> Consume(l, n, bytes, correlation, deadline).consumedB == l.consumedB + 1;
  }

  datatype Sending = Sending(n: nat, bytes: nat, deadline: int)

  ghost function BytesOf(sends: seq<Sending>): nat {
    if sends == [] then 0 else sends[0].bytes + BytesOf(sends[1..])
  }

  /** Every one of them is granted, one after the other. */
  ghost predicate AllGranted(l: Ledger, sends: seq<Sending>)
    decreases |sends|
  {
    sends == [] ||
    var l' := Consume(l, sends[0].n, sends[0].bytes, "", sends[0].deadline);
    l' != l && AllGranted(l', sends[1..])
  }

  lemma {:induction false} AllGrantedIff(l: Ledger, sends: seq<Sending>)
    requires l.AvailB() >= 0 && l.AvailY() >= 0
    ensures AllGranted(l, sends) <==> |sends| <= l.AvailB() && BytesOf(sends) <= l.AvailY()
    decreases |sends|
  {
    if sends != [] {
      var l' := Consume(l, sends[0].n, sends[0].bytes, "", sends[0].deadline);
      SendGrantedIff(l, sends[0].n, sends[0].bytes, "", sends[0].deadline);
      if l' != l {
        AllGrantedIff(l', sends[1..]);
      }
    }
  }

  /**
    A new ledger grants any list of sends whole if and only if it stays within the initial credit in
    number and in bytes, that credit being cut to the clamps or, without clamps, to the defaults.
  */
  lemma NewLedgerGrants(initialB: nat, initialY: nat, clampB: int, clampY: int, sends: seq<Sending>)
    ensures AllGranted(New(initialB, initialY, clampB, clampY), sends)
            <==> && |sends| <= initialB && |sends| <= (if clampB <= 0 then 0x1_0000 else clampB)
                 && BytesOf(sends) <= initialY && BytesOf(sends) <= (if clampY <= 0 then 0x1_0000_0000 else clampY)
  {
    AllGrantedIff(New(initialB, initialY, clampB, clampY), sends);
  }

  /** One CREDIT frame: booked up to what was granted, and anything beyond or below zero is a violation. */
  lemma CreditBooked(l: Ledger, dB: int, dY: int)
    requires Safe(l)
    ensures var l' := OnCredit(l, dB, dY);
            && (dB >= 0 && dY >= 0 ==> l'.AvailB() == Min(l.grantedB, l.AvailB() + dB)
                                       && l'.AvailY() == Min(l.grantedY, l.AvailY() + dY))
            && (dB < 0 || dY < 0 ==> l'.AvailB() == l.AvailB() && l'.AvailY() == l.AvailY())
            && (l'.violations > l.violations <==>
                dB < 0 || dY < 0 || l.AvailB() + dB > l.grantedB || l.AvailY() + dY > l.grantedY)
            && l'.violations >= l.violations && l'.slots == l.slots
  {
  }

  datatype Delta = Delta(b: nat, y: nat)

  ghost function OnCredits(l: Ledger, ds: seq<Delta>): Ledger
    decreases |ds|
  {
    if ds == [] then l else OnCredits(OnCredit(l, ds[0].b, ds[0].y), ds[1..])
  }

  ghost function SumB(ds: seq<Delta>): nat { if ds == [] then 0 else ds[0].b + SumB(ds[1..]) }
  ghost function SumY(ds: seq<Delta>): nat { if ds == [] then 0 else ds[0].y + SumY(ds[1..]) }

  /** Credits add up: any number of them gives their sum, up to the original grant. */
  lemma {:induction false} CreditsAddUp(l: Ledger, ds: seq<Delta>)
    requires Safe(l)
    ensures OnCredits(l, ds).AvailB() == Min(l.grantedB, l.AvailB() + SumB(ds))
    ensures OnCredits(l, ds).AvailY() == Min(l.grantedY, l.AvailY() + SumY(ds))
    decreases |ds|
  {
    if ds != [] {
      CreditBooked(l, ds[0].b, ds[0].y);
      CreditsAddUp(OnCredit(l, ds[0].b, ds[0].y), ds[1..]);
    }
  }

  // ---------------------------------------------------------------- what returns nothing

  ghost predicate Observes(op: Op) { op.OpTerminal? || op.OpReap? || op.OpReset? }

  /** RESULT frames, the client reaper and a reset never change the available credit, however they are mixed. */
  lemma {:induction false} ResultsReturnNothing(l: Ledger, ops: seq<Op>)
    requires forall op :: op in ops ==> Observes(op)
    ensures Run(l, ops).AvailB() == l.AvailB() && Run(l, ops).AvailY() == l.AvailY()
    ensures Run(l, ops).slots.Keys <= l.slots.Keys
    decreases |ops|
  {
    if ops != [] {
      assert Observes(ops[0]);
      ResultsReturnNothing(Apply(l, ops[0]), ops[1..]);
    }
  }

  /** Rolling back a send before anything else happens restores the available credit exactly. */
  lemma RollbackUndoesConsume(l: Ledger, n: nat, bytes: nat, correlation: string, deadline: int)
    requires Safe(l) && CanSend(l, bytes) && n !in l.slots
    ensures var l' := Rollback(Consume(l, n, bytes, correlation, deadline), n);
            l'.AvailB() == l.AvailB() && l'.AvailY() == l.AvailY() && l'.slots == l.slots
  {
    var c := Consume(l, n, bytes, correlation, deadline);
    assert c.slots - {n} == l.slots;
  }
}

/** The ledger as the class that the client's goroutines update in place, one lock section a method. */
module ClientLedger {
  import opened Basics
  import L = Ledger

  /** How far a walk over `all` has come: the expired slots outside `todo` are removed and reported. */
  ghost predicate Reported(all: map<nat, L.OutSlot>, slots: map<nat, L.OutSlot>, todo: set<nat>,
                           reaped: seq<(nat, L.OutSlot)>, now: int)
  {
    && todo <= all.Keys
    && (forall n :: n in slots <==> n in all && (n in todo || now <= all[n].deadline))
    && (forall n :: n in slots ==> slots[n] == all[n])
    && (forall i, j :: 0 <= i < j < |reaped| ==> reaped[i].0 != reaped[j].0)
    && (forall i :: 0 <= i < |reaped| ==> reaped[i].0 in all && reaped[i].0 !in slots)
    && (forall i :: 0 <= i < |reaped| ==>
          now > all[reaped[i].0].deadline && reaped[i].1 == all[reaped[i].0].(failed := true))
    && |reaped| == |all| - |slots|
  }

  lemma ReportNext(all: map<nat, L.OutSlot>, slots: map<nat, L.OutSlot>, todo: set<nat>,
                   reaped: seq<(nat, L.OutSlot)>, now: int, n: nat)
    requires Reported(all, slots, todo, reaped, now) && n in todo
    ensures if now > all[n].deadline
            then Reported(all, slots - {n}, todo - {n}, reaped + [(n, all[n].(failed := true))], now)
            else Reported(all, slots, todo - {n}, reaped, now)
  {
    assert n in slots;
    assert (slots - {n}).Keys == slots.Keys - {n};
  }

  class CreditLedger {
    var grantedB: int
    var grantedY: int
    var consumedB: int
    var consumedY: int
    var returnedB: int
    var returnedY: int
    var clampB: int
    var clampY: int
    var slots: map<nat, L.OutSlot>
    var violations: nat

    ghost function View(): L.Ledger
      reads this
    {
      L.Ledger(grantedB, grantedY, consumedB, consumedY, returnedB, returnedY, clampB, clampY, slots, violations)
    }

    constructor (initialB: int, initialY: int, clampB: int, clampY: int)
      ensures View() == L.New(initialB, initialY, clampB, clampY)
      ensures grantedB <= initialB && grantedY <= initialY && consumedB == consumedY == returnedB == returnedY == 0
    {
      var cB, cY := clampB, clampY;
      if cB <= 0 { cB := L.DEFAULT_CLAMP_BATCHES; }
      if cY <= 0 { cY := L.DEFAULT_CLAMP_BYTES; }
      this.clampB, this.clampY := cB, cY;
      grantedB := if initialB > cB then cB else initialB;
      grantedY := if initialY > cY then cY else initialY;
      consumedB, consumedY, returnedB, returnedY := 0, 0, 0, 0;
      slots, violations := map[], 0;
    }

    method Consume(n: nat, bytes: nat, correlation: string, deadline: int) returns (ok: bool)
      modifies this
      ensures ok <==> old(grantedB - consumedB + returnedB) >= 1 && old(grantedY - consumedY + returnedY) >= bytes
      ensures ok ==> consumedB == old(consumedB) + 1 && consumedY == old(consumedY) + bytes
      ensures ok ==> slots == old(slots)[n := L.OutSlot(bytes, correlation, deadline, false)]
      ensures !ok ==> View() == old(View())
      ensures ok == L.CanSend(old(View()), bytes)
      ensures View() == L.Consume(old(View()), n, bytes, correlation, deadline)
    {
      var availB := grantedB - consumedB + returnedB;
      var availY := grantedY - consumedY + returnedY;
      if availB < 1 || availY < bytes { return false; }
      consumedB, consumedY := consumedB + 1, consumedY + bytes;
      slots := slots[n := L.OutSlot(bytes, correlation, deadline, false)];
      return true;
    }

    method OnCredit(dB: int, dY: int)
      modifies this
      ensures View() == L.OnCredit(old(View()), dB, dY)
      ensures violations == old(violations) <==>
                || dB == dY == 0
                || (0 <= dB <= old(consumedB - returnedB) && 0 <= dY <= old(consumedY - returnedY))
      ensures violations == old(violations) ==> returnedB == old(returnedB) + dB && returnedY == old(returnedY) + dY
    {
      if dB == 0 && dY == 0 { return; }
      if dB < 0 || dY < 0 { violations := violations + 1; return; }
      var b, y := dB, dY;
      var maxB := consumedB - returnedB;
      if b > maxB { b := maxB; violations := violations + 1; }
      var maxY := consumedY - returnedY;
      if y > maxY { y := maxY; violations := violations + 1; }
      returnedB, returnedY := returnedB + b, returnedY + y;
    }

    method Terminal(n: nat) returns (slot: Option<L.OutSlot>)
      modifies this
      ensures View() == L.Terminal(old(View()), n)
      ensures slots == old(slots) - {n} && consumedB == old(consumedB) && returnedB == old(returnedB)
      ensures slot == if n in old(slots) then Some(old(slots)[n]) else None
    {
      slot := if n in slots then Some(slots[n]) else None;
      slots := slots - {n};
    }

    method Rollback(n: nat) returns (slot: Option<L.OutSlot>)
      modifies this
      ensures View() == L.Rollback(old(View()), n)
      ensures slots == old(slots) - {n}
      ensures n !in old(slots) ==> returnedB == old(returnedB) && returnedY == old(returnedY)
      ensures n in old(slots)
              && old(consumedB - returnedB) >= 1 && old(consumedY - returnedY) >= old(slots)[n].bytes ==>
                returnedB == old(returnedB) + 1 && returnedY == old(returnedY) + old(slots)[n].bytes
      ensures slot == if n in old(slots) then Some(old(slots)[n]) else None
    {
      if n !in slots { return None; }
      var s := slots[n];
      slots := slots - {n};
      var dB, dY := 1, s.bytes as int;
      if dB > consumedB - returnedB { dB := consumedB - returnedB; }
      if dY > consumedY - returnedY { dY := consumedY - returnedY; }
      returnedB, returnedY := returnedB + dB, returnedY + dY;
      return Some(s);
    }

    method Reset()
      modifies this
      ensures View() == L.Reset(old(View()))
      ensures slots == map[] && consumedB == old(consumedB) && returnedB == old(returnedB)
    {
      slots := map[];
    }

    /** Removes exactly the expired slots, each reported once and marked failed, in any walking order. */
    method ReapExpired(now: int) returns (reaped: seq<(nat, L.OutSlot)>)
      modifies this
      ensures View() == L.Reap(old(View()), now)
      ensures forall n :: n in slots <==> n in old(slots) && now <= old(slots)[n].deadline
      ensures forall i, j :: 0 <= i < j < |reaped| ==> reaped[i].0 != reaped[j].0
      ensures forall i :: 0 <= i < |reaped| ==>
                reaped[i].0 in old(slots) && now > old(slots)[reaped[i].0].deadline
                && reaped[i].1 == old(slots)[reaped[i].0].(failed := true)
      ensures |reaped| == |old(slots)| - |slots|
    {
      reaped := [];
      var all := slots;
      var todo := slots.Keys;
      while todo != {}
        invariant View() == old(View()).(slots := slots) && Reported(all, slots, todo, reaped, now)
        decreases todo
      {
        var n :| n in todo;
        ReportNext(all, slots, todo, reaped, now, n);
        todo := todo - {n};
        if now > all[n].deadline {
          reaped := reaped + [(n, all[n].(failed := true))];
          slots := slots - {n};
        }
      }
      assert slots == L.Reap(old(View()), now).slots;
    }
  }
}

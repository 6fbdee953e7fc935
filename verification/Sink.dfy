/**
  The sink queue (internal/protocol/handler_sink.go) under every interleaving of callers, workers and
  shutdown: its byte counter, and which tasks run. The atomic load and the compare-and-swap are
  separate steps, as are the push and the shutdown check after it.
*/
module Sink {
  import opened Basics

  /** Where a caller of enqueueSink stands with its task. */
  datatype Stage =
    | Trying(bytes: nat)                 // about to load the counter
    | Loaded(bytes: nat, cur: int)       // limit check passed against `cur`
    | Reserved(bytes: nat)               // counter advanced
    | Pushed(bytes: nat)                 // task queued, shutdown check outstanding

  /** Why enqueueSink returned; the source reports every refusal as false. */
  datatype Verdict =
    | Taken
    | RefusedDown                        // shutdown had begun before anything was reserved
    | RefusedLimit                       // the byte limit
    | RefusedFull                        // the queue's capacity
    | RefusedLate                        // queued, then shutdown was seen

  datatype Task = Task(id: nat, bytes: nat)

  datatype Sink = Sink(
    counter: int, limit: nat, cap: nat, down: bool,
    workers: nat, started: bool,         // the pool's size, and whether it is running
    idle: nat, left: nat,                // workers without a task, workers that have returned
    callers: map<nat, Stage>,
    queue: seq<Task>,
    running: map<nat, nat>,
    finished: set<nat>,
    verdicts: map<nat, Verdict>,
    orphans: set<nat>)                   // ghost: pushed when the last worker had already returned

  datatype Action =
    | Begin(id: nat, bytes: nat)
    | Load(id: nat)
    | Swap(id: nat)
    | Push(id: nat)
    | Recheck(id: nat)
    | Take
    | Finish(id: nat)
    | Leave
    | Shutdown

  ghost function Init(limit: nat, cap: nat, workers: nat): Sink {
    Sink(0, limit, cap, false, workers, false, 0, 0, map[], [], map[], {}, map[], {})
  }

  ghost predicate Enabled(s: Sink, a: Action) {
    match a
    case Begin(id, _) => id !in s.callers && id !in s.verdicts
    case Load(id) => id in s.callers && s.callers[id].Trying?
    case Swap(id) => id in s.callers && s.callers[id].Loaded?
    case Push(id) => id in s.callers && s.callers[id].Reserved?
    case Recheck(id) => id in s.callers && s.callers[id].Pushed?
    case Take => s.queue != [] && s.idle > 0
    case Finish(id) => id in s.running
    case Leave => s.down && s.queue == [] && s.idle > 0
    case Shutdown => true
  }

  ghost function Return(s: Sink, id: nat, v: Verdict): Sink {
    s.(callers := s.callers - {id}, verdicts := s.verdicts[id := v])
  }

  /** The first reservation starts the pool. */
  ghost function Start(s: Sink): Sink { if s.started then s else s.(started := true, idle := s.workers) }

  ghost function Next(s: Sink, a: Action): Sink
    requires Enabled(s, a)
  {
    match a
    case Begin(id, bytes) =>
      if s.down then Return(s, id, RefusedDown) else s.(callers := s.callers[id := Trying(bytes)])
    case Load(id) =>
      var bytes := s.callers[id].bytes;
      if s.counter + bytes > s.limit then Return(s, id, RefusedLimit)
      else s.(callers := s.callers[id := Loaded(bytes, s.counter)])
    case Swap(id) =>
      var c := s.callers[id];
      if s.counter == c.cur
      then Start(s).(counter := c.cur + c.bytes, callers := s.callers[id := Reserved(c.bytes)])
      else s.(callers := s.callers[id := Trying(c.bytes)])
    case Push(id) =>
      var bytes := s.callers[id].bytes;
      if |s.queue| < s.cap
      then s.(queue := s.queue + [Task(id, bytes)], callers := s.callers[id := Pushed(bytes)],
              orphans := if s.left == s.workers then s.orphans + {id} else s.orphans)
      else Return(s, id, RefusedFull).(counter := s.counter - bytes)
    case Recheck(id) => Return(s, id, if s.down then RefusedLate else Taken)
    case Take =>
      s.(idle := s.idle - 1, queue := s.queue[1..], running := s.running[s.queue[0].id := s.queue[0].bytes])
    case Finish(id) =>
      s.(counter := s.counter - s.running[id], idle := s.idle + 1,
         running := s.running - {id}, finished := s.finished + {id})
    case Leave => s.(idle := s.idle - 1, left := s.left + 1)
    case Shutdown => s.(down := true)
  }

  ghost function Hold(c: Stage): int { if c.Reserved? then c.bytes else 0 }
  ghost function Size(bytes: nat): int { bytes }

  ghost function Queued(q: seq<Task>): int {
    if q == [] then 0 else q[0].bytes + Queued(q[1..])
  }

  ghost predicate InQueue(q: seq<Task>, id: nat) { exists i :: 0 <= i < |q| && q[i].id == id }

  /** The task has been handed to the queue and has not been dropped since. */
  ghost predicate Delivered(s: Sink, id: nat) { InQueue(s.queue, id) || id in s.running || id in s.finished }

  /** The caller returned after its push. */
  ghost predicate WasQueued(v: Verdict) { v.Taken? || v.RefusedLate? }

  /** The counter is exactly what is reserved, queued and running. */
  ghost predicate Balanced(s: Sink) {
    && s.counter == Total(s.callers, Hold) + Queued(s.queue) + Total(s.running, Size)
    && s.counter <= s.limit
    && |s.queue| <= s.cap
  }

  /** A caller has not returned. */
  ghost predicate Apart(s: Sink) { forall id :: id in s.callers ==> id !in s.verdicts }

  /** A passed limit check still holds for the value it saw, and every task is in one place at a time. */
  ghost predicate Places(s: Sink) {
    && Apart(s)
    && (forall id :: id in s.callers && s.callers[id].Loaded? ==> s.callers[id].cur + s.callers[id].bytes <= s.limit)
    && (forall id :: id in s.callers && !s.callers[id].Pushed? ==> !Delivered(s, id))
    && (forall id :: id in s.callers && s.callers[id].Pushed? ==> Delivered(s, id))
    && (forall id :: id in s.verdicts ==> (Delivered(s, id) <==> WasQueued(s.verdicts[id])))
    && (forall i, j :: 0 <= i < j < |s.queue| ==> s.queue[i].id != s.queue[j].id)
    && (forall id: nat :: InQueue(s.queue, id) ==> id !in s.running && id !in s.finished)
    && (forall id: nat :: Delivered(s, id) ==> id in s.callers || id in s.verdicts)
  }

  /** The caller pushed after shutdown began, or has yet to find that out. */
  ghost predicate Late(s: Sink, id: nat) {
    || (id in s.callers && s.callers[id].Pushed?)
    || (id in s.verdicts && s.verdicts[id].RefusedLate?)
  }

  /**
    Every worker is idle, running one task, or gone. A worker goes only after shutdown and from an
    empty queue, so from then on only late tasks are queued.
  */
  ghost predicate Pool(s: Sink) {
    && (s.started ==> s.idle + |s.running| + s.left == s.workers)
    && (!s.started ==> s.idle == 0 && s.left == 0 && s.running == map[] && s.queue == [])
    && (!s.started ==> forall id :: id in s.callers ==> !s.callers[id].Reserved?)
    && (s.left > 0 ==> s.down && forall i :: 0 <= i < |s.queue| ==> Late(s, s.queue[i].id))
  }

  ghost predicate Inv(s: Sink) { Balanced(s) && Places(s) && Pool(s) }

  lemma {:induction false} QueuedAppend(q: seq<Task>, t: Task)
    ensures Queued(q + [t]) == Queued(q) + t.bytes
  {
    if q == [] {
      assert [t][1..] == [];
    } else {
      assert (q + [t])[1..] == q[1..] + [t];
      QueuedAppend(q[1..], t);
    }
  }

  lemma {:induction false} QueuedNonNegative(q: seq<Task>)
    ensures Queued(q) >= 0
  {
    if q != [] {
      QueuedNonNegative(q[1..]);
    }
  }

  /** Replacing or removing one caller changes the reserved sum by that caller alone. */
  lemma CallerSum(s: Sink, id: nat, c: Stage)
    ensures Total(s.callers[id := c], Hold) == Total(s.callers - {id}, Hold) + Hold(c)
    ensures Total(s.callers - {id}, Hold) == Total(s.callers, Hold) - if id in s.callers then Hold(s.callers[id]) else 0
  {
    if id in s.callers {
      TotalRemove(s.callers, Hold, id);
    } else {
      assert s.callers - {id} == s.callers;
    }
    TotalRemove(s.callers[id := c], Hold, id);
    assert s.callers[id := c] - {id} == s.callers - {id};
  }

  lemma TakeBalanced(s: Sink)
    requires Balanced(s) && Places(s) && Enabled(s, Take)
    ensures Balanced(Next(s, Take))
  {
    var t := s.queue[0];
    assert InQueue(s.queue, t.id);
    TotalInsert(s.running, Size, t.id, t.bytes);
  }

  ghost function Held(s: Sink, id: nat): int { if id in s.callers then Hold(s.callers[id]) else 0 }

  /** A caller moves on or returns, and the counter changes by what its reservation changes. */
  lemma CallerBalanced(s: Sink, s': Sink, id: nat)
    requires Balanced(s) && s'.queue == s.queue && s'.running == s.running
    requires s'.limit == s.limit && s'.cap == s.cap && s'.counter <= s.limit
    requires s'.callers == s.callers - {id} || (id in s'.callers && s'.callers == s.callers[id := s'.callers[id]])
    requires s'.counter == s.counter + Held(s', id) - Held(s, id)
    ensures Balanced(s')
  {
    if id in s'.callers {
      CallerSum(s, id, s'.callers[id]);
    } else {
      CallerSum(s, id, Trying(0));
    }
  }

  lemma PushBalanced(s: Sink, id: nat)
    requires Balanced(s) && Enabled(s, Push(id)) && |s.queue| < s.cap
    ensures Balanced(Next(s, Push(id)))
  {
    CallerSum(s, id, Pushed(s.callers[id].bytes));
    QueuedAppend(s.queue, Task(id, s.callers[id].bytes));
  }

  lemma SwapBalanced(s: Sink, id: nat)
    requires Balanced(s) && Enabled(s, Swap(id)) && s.callers[id].cur + s.callers[id].bytes <= s.limit
    ensures Balanced(Next(s, Swap(id)))
  {
    CallerBalanced(s, Next(s, Swap(id)), id);
  }

  lemma RefuseBalanced(s: Sink, id: nat)
    requires Balanced(s) && Enabled(s, Push(id)) && |s.queue| >= s.cap
    ensures Balanced(Next(s, Push(id)))
  {
    CallerBalanced(s, Next(s, Push(id)), id);
  }

  lemma FinishBalanced(s: Sink, id: nat)
    requires Balanced(s) && Enabled(s, Finish(id))
    ensures Balanced(Next(s, Finish(id)))
  {
    TotalRemove(s.running, Size, id);
  }

  /** Steps before the reservation and after the push leave the counter alone. */
  lemma PlainBalanced(s: Sink, a: Action)
    requires Balanced(s) && Enabled(s, a) && (a.Begin? || a.Load? || a.Recheck?)
    ensures Balanced(Next(s, a))
  {
    CallerBalanced(s, Next(s, a), a.id);
  }

  lemma StepBalanced(s: Sink, a: Action)
    requires Balanced(s) && Places(s) && Enabled(s, a)
    ensures Balanced(Next(s, a))
  {
    match a
    case Begin(_, _) => PlainBalanced(s, a);
    case Load(_) => PlainBalanced(s, a);
    case Swap(id) => SwapBalanced(s, id);
    case Push(id) => if |s.queue| < s.cap { PushBalanced(s, id); } else { RefuseBalanced(s, id); }
    case Recheck(_) => PlainBalanced(s, a);
    case Take => TakeBalanced(s);
    case Finish(id) => FinishBalanced(s, id);
    case Leave =>
    case Shutdown =>
  }

  /** A caller moving on before its task is queued. */
  lemma MovePlaces(s: Sink, s': Sink, id: nat, c: Stage)
    requires Places(s)
    requires s' == s.(callers := s.callers[id := c], counter := s'.counter, started := s'.started, idle := s'.idle)
    requires id !in s.verdicts && !Delivered(s, id) && !c.Pushed?
    requires c.Loaded? ==> c.cur + c.bytes <= s.limit
    ensures Places(s')
  {
    assert forall k: nat :: Delivered(s', k) <==> Delivered(s, k);
  }

  /** A caller returning; the verdict tells whether its task was queued. */
  lemma ReturnPlaces(s: Sink, s': Sink, id: nat, v: Verdict)
    requires Places(s) && s' == Return(s, id, v).(counter := s'.counter)
    requires id !in s.verdicts && (WasQueued(v) <==> Delivered(s, id))
    ensures Places(s')
  {
    assert forall k: nat :: Delivered(s', k) <==> Delivered(s, k);
  }

  lemma BeginPlaces(s: Sink, id: nat, bytes: nat)
    requires Places(s) && Enabled(s, Begin(id, bytes))
    ensures Places(Next(s, Begin(id, bytes)))
  {
    var s' := Next(s, Begin(id, bytes));
    if s.down { ReturnPlaces(s, s', id, RefusedDown); } else { MovePlaces(s, s', id, Trying(bytes)); }
  }

  lemma LoadPlaces(s: Sink, id: nat)
    requires Places(s) && Enabled(s, Load(id))
    ensures Places(Next(s, Load(id)))
  {
    var s', bytes := Next(s, Load(id)), s.callers[id].bytes;
    if s.counter + bytes > s.limit {
      ReturnPlaces(s, s', id, RefusedLimit);
    } else {
      MovePlaces(s, s', id, Loaded(bytes, s.counter));
    }
  }

  /** Steps that leave queue, running and finished alone. */
  lemma CallerPlaces(s: Sink, a: Action)
    requires Places(s) && Enabled(s, a)
    requires a.Begin? || a.Load? || a.Swap? || a.Recheck? || (a.Push? && |s.queue| >= s.cap)
    ensures Places(Next(s, a))
  {
    match a
    case Begin(id, bytes) => BeginPlaces(s, id, bytes);
    case Load(id) => LoadPlaces(s, id);
    case Swap(id) => MovePlaces(s, Next(s, a), id, Next(s, a).callers[id]);
    case Push(id) => ReturnPlaces(s, Next(s, a), id, RefusedFull);
    case Recheck(id) => ReturnPlaces(s, Next(s, a), id, if s.down then RefusedLate else Taken);
  }

  lemma PushPlaces(s: Sink, id: nat)
    requires Places(s) && Enabled(s, Push(id)) && |s.queue| < s.cap
    ensures Places(Next(s, Push(id)))
  {
    var s' := Next(s, Push(id));
    forall k: nat
      ensures InQueue(s'.queue, k) <==> InQueue(s.queue, k) || k == id
    {
      if InQueue(s.queue, k) {
        var i :| 0 <= i < |s.queue| && s.queue[i].id == k;
        assert s'.queue[i].id == k;
      }
      assert s'.queue[|s.queue|].id == id;
    }
    assert forall i :: 0 <= i < |s.queue| ==> InQueue(s.queue, s.queue[i].id);
    assert forall k: nat :: Delivered(s', k) <==> Delivered(s, k) || k == id;
  }

  lemma TakePlaces(s: Sink)
    requires Places(s) && Enabled(s, Take)
    ensures Places(Next(s, Take))
  {
    var s', t := Next(s, Take), s.queue[0];
    assert InQueue(s.queue, t.id);
    forall k: nat
      ensures InQueue(s'.queue, k) <==> InQueue(s.queue, k) && k != t.id
    {
      if InQueue(s'.queue, k) {
        var i :| 0 <= i < |s'.queue| && s'.queue[i].id == k;
        assert s.queue[i + 1].id == k;
      }
      if InQueue(s.queue, k) && k != t.id {
        var i :| 0 <= i < |s.queue| && s.queue[i].id == k;
        assert s'.queue[i - 1].id == k;
      }
    }
    assert forall k: nat :: Delivered(s', k) <==> Delivered(s, k);
  }

  lemma FinishPlaces(s: Sink, id: nat)
    requires Places(s) && Enabled(s, Finish(id))
    ensures Places(Next(s, Finish(id)))
  {
    var s' := Next(s, Finish(id));
    assert forall k: nat :: InQueue(s'.queue, k) <==> InQueue(s.queue, k);
    assert forall k: nat :: Delivered(s', k) <==> Delivered(s, k);
  }

  lemma TakePool(s: Sink)
    requires Inv(s) && Enabled(s, Take)
    ensures Pool(Next(s, Take))
  {
    assert InQueue(s.queue, s.queue[0].id);
  }

  lemma FinishPool(s: Sink, id: nat)
    requires Pool(s) && Enabled(s, Finish(id))
    ensures Pool(Next(s, Finish(id)))
  {
    assert (s.running - {id}).Keys == s.running.Keys - {id};
  }

  lemma LateKept(s: Sink, a: Action, k: nat)
    requires Enabled(s, a) && s.down && Late(s, k) && (k in s.callers ==> k !in s.verdicts)
    ensures Late(Next(s, a), k)
  {
  }

  lemma PushPool(s: Sink, id: nat)
    requires Pool(s) && Apart(s) && Enabled(s, Push(id)) && |s.queue| < s.cap
    ensures Pool(Next(s, Push(id)))
  {
    if s.left > 0 {
      forall i | 0 <= i < |s.queue|
        ensures Late(Next(s, Push(id)), s.queue[i].id)
      {
        LateKept(s, Push(id), s.queue[i].id);
      }
    }
  }

  /** The first reservation starts the pool; later ones leave it alone. */
  lemma SwapPool(s: Sink, id: nat)
    requires Pool(s) && Apart(s) && Enabled(s, Swap(id))
    ensures Pool(Next(s, Swap(id)))
  {
    if s.left > 0 {
      forall i | 0 <= i < |s.queue|
        ensures Late(Next(s, Swap(id)), s.queue[i].id)
      {
        LateKept(s, Swap(id), s.queue[i].id);
      }
    }
  }

  /** Other steps of a caller that leave the queue alone. */
  lemma CallerPool(s: Sink, a: Action)
    requires Pool(s) && Apart(s) && Enabled(s, a)
    requires a.Begin? || a.Load? || a.Recheck? || (a.Push? && |s.queue| >= s.cap)
    ensures Pool(Next(s, a))
  {
    if s.left > 0 {
      forall i | 0 <= i < |s.queue|
        ensures Late(Next(s, a), s.queue[i].id)
      {
        LateKept(s, a, s.queue[i].id);
      }
    }
  }

  lemma StepPool(s: Sink, a: Action)
    requires Inv(s) && Enabled(s, a)
    ensures Pool(Next(s, a))
  {
    if a.Take? {
      TakePool(s);
    } else if a.Finish? {
      FinishPool(s, a.id);
    } else if a.Push? && |s.queue| < s.cap {
      PushPool(s, a.id);
    } else if a.Swap? {
      SwapPool(s, a.id);
    } else if !a.Leave? && !a.Shutdown? {
      CallerPool(s, a);
    }
  }

  lemma StepKeeps(s: Sink, a: Action)
    requires Inv(s) && Enabled(s, a)
    ensures Inv(Next(s, a))
  {
    StepBalanced(s, a);
    StepPool(s, a);
    if a.Take? {
      TakePlaces(s);
    } else if a.Finish? {
      FinishPlaces(s, a.id);
    } else if a.Push? && |s.queue| < s.cap {
      PushPlaces(s, a.id);
    } else if a.Shutdown? || a.Leave? {
      assert forall k: nat :: Delivered(Next(s, a), k) <==> Delivered(s, k);
    } else {
      CallerPlaces(s, a);
    }
  }

  ghost predicate Possible(s: Sink, acts: seq<Action>)
    decreases |acts|
  {
    acts == [] || (Enabled(s, acts[0]) && Possible(Next(s, acts[0]), acts[1..]))
  }

  ghost function Run(s: Sink, acts: seq<Action>): Sink
    requires Possible(s, acts)
    decreases |acts|
  {
    if acts == [] then s else Run(Next(s, acts[0]), acts[1..])
  }

  lemma {:induction false} RunKeeps(s: Sink, acts: seq<Action>)
    requires Inv(s) && Possible(s, acts)
    ensures Inv(Run(s, acts))
    decreases |acts|
  {
    if acts != [] {
      StepKeeps(s, acts[0]);
      RunKeeps(Next(s, acts[0]), acts[1..]);
    }
  }

  lemma CounterNonNegative(s: Sink)
    requires Balanced(s)
    ensures s.counter >= 0 && (s.callers == map[] && s.queue == [] && s.running == map[] ==> s.counter == 0)
  {
    TotalNonNegative(s.callers, Hold);
    TotalNonNegative(s.running, Size);
    QueuedNonNegative(s.queue);
  }

  /**
    In every run the byte counter equals the bytes reserved, queued and running, lies between 0 and
    the limit, and the queue respects its capacity; when nothing is left it is back to 0.
  */
  lemma ByteAccounting(limit: nat, cap: nat, workers: nat, acts: seq<Action>)
    requires Possible(Init(limit, cap, workers), acts)
    ensures var s := Run(Init(limit, cap, workers), acts);
            && s.counter == Total(s.callers, Hold) + Queued(s.queue) + Total(s.running, Size)
            && 0 <= s.counter <= s.limit && |s.queue| <= s.cap
            && (s.callers == map[] && s.queue == [] && s.running == map[] ==> s.counter == 0)
  {
    RunKeeps(Init(limit, cap, workers), acts);
    CounterNonNegative(Run(Init(limit, cap, workers), acts));
  }
}

/** When enqueueSink takes a task and why it refuses one, and in which order tasks are run. */
module SinkAdmission {
  import opened Sink

  /**
    The steps that return a verdict, each for its own reason and for no other: shutdown before
    anything was reserved, the loaded counter plus the task above the limit, the queue at its capacity,
    or the shutdown check after the push.
  */
  lemma VerdictIff(s: Sink, a: Action, id: nat)
    requires Apart(s) && Enabled(s, a) && id !in s.verdicts
    ensures var vs := Next(s, a).verdicts;
            && (id in vs && vs[id].RefusedDown? <==> a.Begin? && a.id == id && s.down)
            && (id in vs && vs[id].RefusedLimit? <==>
                a == Load(id) && s.counter + s.callers[id].bytes > s.limit)
            && (id in vs && vs[id].RefusedFull? <==> a == Push(id) && |s.queue| >= s.cap)
            && (id in vs && vs[id].RefusedLate? <==> a == Recheck(id) && s.down)
            && (id in vs && vs[id].Taken? <==> a == Recheck(id) && !s.down)
  {
    match a
    case Begin(_, _) =>
    case Load(_) =>
    case Swap(_) =>
    case Push(_) =>
    case Recheck(_) =>
    case _ =>
  }

  /** A caller that nobody disturbs: what it goes through from its start to its verdict. */
  ghost function Alone(s: Sink, id: nat, bytes: nat): seq<Action> {
    if s.down then [Begin(id, bytes)]
    else if s.counter + bytes > s.limit then [Begin(id, bytes), Load(id)]
    else if |s.queue| >= s.cap then [Begin(id, bytes), Load(id), Swap(id), Push(id)]
    else [Begin(id, bytes), Load(id), Swap(id), Push(id), Recheck(id)]
  }

  lemma Ahead(s: Sink, acts: seq<Action>)
    requires acts != [] && Enabled(s, acts[0]) && Possible(Next(s, acts[0]), acts[1..])
    ensures Possible(s, acts) && Run(s, acts) == Run(Next(s, acts[0]), acts[1..])
  {
  }

  lemma Reserves(s: Sink, id: nat, bytes: nat)
    requires Enabled(s, Begin(id, bytes)) && !s.down && s.counter + bytes <= s.limit
    ensures var s1 := Next(s, Begin(id, bytes));
            && Enabled(s1, Load(id)) && var s2 := Next(s1, Load(id));
            && Enabled(s2, Swap(id)) && var s3 := Next(s2, Swap(id));
            && Enabled(s3, Push(id)) && s3.queue == s.queue && s3.cap == s.cap && s3.down == s.down
            && s3.callers[id] == Reserved(bytes)
  {
  }

  lemma Pushes(s: Sink, id: nat)
    requires Enabled(s, Push(id)) && !s.down
    ensures var s1 := Next(s, Push(id));
            if |s.queue| >= s.cap then id in s1.verdicts && s1.verdicts[id].RefusedFull?
            else Enabled(s1, Recheck(id)) && Next(s1, Recheck(id)).verdicts[id].Taken?
                 && Next(s1, Recheck(id)).queue == s.queue + [Task(id, s.callers[id].bytes)]
  {
  }

  lemma Undisturbed(s: Sink, id: nat, bytes: nat)
    requires id !in s.callers && id !in s.verdicts && !s.down && s.counter + bytes <= s.limit
    ensures Possible(s, Alone(s, id, bytes)) && id in Run(s, Alone(s, id, bytes)).verdicts
    ensures var s' := Run(s, Alone(s, id, bytes));
            && (s'.verdicts[id].Taken? <==> |s.queue| < s.cap)
            && s'.queue == if |s.queue| < s.cap then s.queue + [Task(id, bytes)] else s.queue
  {
    var acts := Alone(s, id, bytes);
    Reserves(s, id, bytes);
    var s1 := Next(s, Begin(id, bytes));
    var s2 := Next(s1, Load(id));
    var s3 := Next(s2, Swap(id));
    Pushes(s3, id);
    var s4 := Next(s3, Push(id));
    var r1, r2, r3, r4 := acts[1..], acts[2..], acts[3..], acts[4..];
    assert r1[1..] == r2 && r2[1..] == r3 && r3[1..] == r4;
    if |s.queue| < s.cap {
      assert r4[1..] == [];
      Ahead(s4, r4);
    } else {
      assert r4 == [];
    }
    Ahead(s3, r3);
    Ahead(s2, r2);
    Ahead(s1, r1);
    Ahead(s, acts);
  }

  /**
    From any state, a new caller that nobody disturbs is taken if and only if there is no shutdown
    and its task fits below the byte limit and into the queue. Then its task is the last in the queue.
  */
  lemma TakenIffRoom(s: Sink, id: nat, bytes: nat)
    requires id !in s.callers && id !in s.verdicts
    ensures Possible(s, Alone(s, id, bytes)) && id in Run(s, Alone(s, id, bytes)).verdicts
    ensures var s' := Run(s, Alone(s, id, bytes));
            var room := !s.down && s.counter + bytes <= s.limit && |s.queue| < s.cap;
            && (s'.verdicts[id].Taken? <==> room)
            && (room ==> s'.queue == s.queue + [Task(id, bytes)])
            && (!room ==> s'.queue == s.queue)
  {
    var acts := Alone(s, id, bytes);
    var s1 := Next(s, Begin(id, bytes));
    if s.down {
      Ahead(s, acts);
    } else if s.counter + bytes > s.limit {
      assert acts[1..] == [Load(id)] && acts[1..][1..] == [];
      Ahead(s1, acts[1..]);
      Ahead(s, acts);
    } else {
      Reserves(s, id, bytes);
      Undisturbed(s, id, bytes);
    }
  }

  // ---------------------------------------------------------------- first in, first out

  ghost predicate Started(s: Sink, id: nat) { id in s.running || id in s.finished }

  lemma StartedStep(s: Sink, a: Action, id: nat)
    requires Enabled(s, a) && Started(s, id)
    ensures Started(Next(s, a), id)
  {
    match a
    case Swap(_) =>
    case Take =>
    case Finish(_) =>
    case _ =>
  }

  lemma {:induction false} StartedStays(s: Sink, acts: seq<Action>, id: nat)
    requires Possible(s, acts) && Started(s, id)
    ensures Started(Run(s, acts), id)
    decreases |acts|
  {
    if acts != [] {
      StartedStep(s, acts[0], id);
      StartedStays(Next(s, acts[0]), acts[1..], id);
    }
  }

  /** A step takes the front of the queue, or leaves what is queued in its place. */
  lemma QueueStep(s: Sink, a: Action, i: nat)
    requires Enabled(s, a) && i < |s.queue|
    ensures var q' := Next(s, a).queue;
            if !a.Take? then i < |q'| && q'[i] == s.queue[i]
            else if i == 0 then Started(Next(s, a), s.queue[0].id)
            else i - 1 < |q'| && q'[i - 1] == s.queue[i]
  {
    match a
    case Swap(_) =>
    case Push(_) =>
    case Take =>
    case _ =>
  }

  lemma {:induction false} InOrder(s: Sink, acts: seq<Action>, i: nat, j: nat)
    requires Possible(s, acts) && i < j < |s.queue|
    ensures Started(Run(s, acts), s.queue[i].id) || InQueue(Run(s, acts).queue, s.queue[j].id)
    decreases |acts|
  {
    if acts != [] {
      var a, s1 := acts[0], Next(s, acts[0]);
      QueueStep(s, a, i);
      QueueStep(s, a, j);
      if !a.Take? {
        InOrder(s1, acts[1..], i, j);
      } else if i > 0 {
        InOrder(s1, acts[1..], i - 1, j - 1);
      } else {
        StartedStays(s1, acts[1..], s.queue[0].id);
      }
    }
  }

  /** Tasks leave the queue in the order in which they entered it, whatever else happens. */
  lemma FirstInFirstOut(s: Sink, acts: seq<Action>, i: nat, j: nat)
    requires Inv(s) && Possible(s, acts) && i < j < |s.queue|
    ensures InQueue(Run(s, acts).queue, s.queue[i].id) ==> InQueue(Run(s, acts).queue, s.queue[j].id)
  {
    InOrder(s, acts, i, j);
    RunKeeps(s, acts);
  }
}

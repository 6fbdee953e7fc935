/**
  Which tasks of the sink queue run. Workers leave after shutdown, callers may push while they do, and
  the source reports a task that was queued too late as refused.
*/
module SinkShutdown {
  import opened Sink

  /**
    Once every worker has returned, the queue holds exactly the orphans, and before that there are
    none.
  */
  ghost predicate Stranded(s: Sink) {
    && (s.orphans != {} ==> s.left == s.workers)
    && (forall id :: id in s.orphans ==> InQueue(s.queue, id))
    && (s.left == s.workers ==> forall i :: 0 <= i < |s.queue| ==> s.queue[i].id in s.orphans)
  }

  lemma PushStranded(s: Sink, id: nat)
    requires Stranded(s) && Enabled(s, Push(id)) && |s.queue| < s.cap
    ensures Stranded(Next(s, Push(id)))
  {
    var s' := Next(s, Push(id));
    forall k | k in s'.orphans
      ensures InQueue(s'.queue, k)
    {
      if k in s.orphans {
        var i :| 0 <= i < |s.queue| && s.queue[i].id == k;
        assert s'.queue[i].id == k;
      } else {
        assert s'.queue[|s.queue|].id == k;
      }
    }
  }

  lemma WorkerStep(s: Sink, a: Action)
    requires Enabled(s, a) && (a.Take? || a.Leave?) && s.orphans == {} && s.left < s.workers
    ensures Stranded(Next(s, a))
  {
  }

  lemma QuietStep(s: Sink, a: Action)
    requires Enabled(s, a) && !a.Take? && !a.Leave? && (a.Push? ==> |s.queue| >= s.cap)
    ensures var s' := Next(s, a);
            s'.queue == s.queue && s'.orphans == s.orphans && s'.left == s.left && s'.workers == s.workers
  {
    match a
    case Swap(_) =>
    case Push(_) =>
    case _ =>
  }

  /** While a worker is idle not all have returned, so nothing in the queue is an orphan yet. */
  lemma StepStranded(s: Sink, a: Action)
    requires Pool(s) && Stranded(s) && Enabled(s, a)
    ensures Stranded(Next(s, a))
  {
    if a.Push? && |s.queue| < s.cap {
      PushStranded(s, a.id);
    } else if a.Take? || a.Leave? {
      assert s.left < s.workers && s.orphans == {};
      WorkerStep(s, a);
    } else {
      QuietStep(s, a);
    }
  }

  lemma {:induction false} RunStranded(s: Sink, acts: seq<Action>)
    requires Inv(s) && Stranded(s) && Possible(s, acts)
    ensures Inv(Run(s, acts)) && Stranded(Run(s, acts))
    decreases |acts|
  {
    if acts != [] {
      StepStranded(s, acts[0]);
      StepKeeps(s, acts[0]);
      RunStranded(Next(s, acts[0]), acts[1..]);
    }
  }

  lemma StepRemembers(s: Sink, a: Action, id: nat)
    requires Enabled(s, a) && id in s.verdicts && id !in s.callers
    ensures var s' := Next(s, a);
            id in s'.verdicts && s'.verdicts[id] == s.verdicts[id] && s.orphans <= s'.orphans
  {
    match a
    case Begin(_, _) =>
    case Load(_) =>
    case Swap(_) =>
    case Push(_) =>
    case Recheck(_) =>
    case _ =>
  }

  /** Orphans stay orphans, verdicts stay given, and the pool keeps its size. */
  lemma {:induction false} RunRemembers(s: Sink, acts: seq<Action>, id: nat)
    requires Inv(s) && Possible(s, acts) && id in s.verdicts
    ensures var s' := Run(s, acts);
            id in s'.verdicts && s'.verdicts[id] == s.verdicts[id] && s.orphans <= s'.orphans
    decreases |acts|
  {
    if acts != [] {
      assert id !in s.callers;
      StepRemembers(s, acts[0], id);
      StepKeeps(s, acts[0]);
      RunRemembers(Next(s, acts[0]), acts[1..], id);
    }
  }

  // ---------------------------------------------------------------- which tasks can still run

  ghost predicate CanFinish(s: Sink, id: nat) {
    exists more :: Possible(s, more) && id in Run(s, more).finished
  }

  lemma Prepend(s: Sink, a: Action, more: seq<Action>)
    requires Enabled(s, a) && Possible(Next(s, a), more)
    ensures Possible(s, [a] + more) && Run(s, [a] + more) == Run(Next(s, a), more)
  {
    assert ([a] + more)[1..] == more;
  }

  lemma JustFinish(s: Sink, id: nat) returns (more: seq<Action>)
    requires id in s.running
    ensures Possible(s, more) && id in Run(s, more).finished
  {
    more := [Finish(id)] + [];
    Prepend(s, Finish(id), []);
  }

  lemma NextToDrain(s: Sink) returns (a: Action)
    requires Inv(s) && s.queue != [] && s.left < s.workers
    ensures Enabled(s, a) && Inv(Next(s, a)) && Next(s, a).left == s.left && Next(s, a).workers == s.workers
    ensures s.idle > 0 ==> a.Take? && Next(s, a).queue == s.queue[1..] && s.queue[0].id in Next(s, a).running
    ensures s.idle == 0 ==> a.Finish? && Next(s, a).queue == s.queue && Next(s, a).idle > 0
  {
    if s.idle > 0 {
      a := Take;
    } else {
      assert |s.running| > 0;
      var k :| k in s.running;
      a := Finish(k);
    }
    StepKeeps(s, a);
  }

  /** The remaining workers reach every queued task: finish something if all are busy, then take. */
  lemma {:induction false} DrainTo(s: Sink, i: nat) returns (more: seq<Action>)
    requires Inv(s) && i < |s.queue| && s.left < s.workers
    ensures Possible(s, more) && s.queue[i].id in Run(s, more).finished
    decreases i, if s.idle > 0 then 0 else 1
  {
    var a := NextToDrain(s);
    if a.Take? && i == 0 {
      more := JustFinish(Next(s, a), s.queue[0].id);
    } else {
      more := DrainTo(Next(s, a), if a.Take? then i - 1 else i);
    }
    Prepend(s, a, more);
    more := [a] + more;
  }

  lemma DeliveredCanFinish(s: Sink, id: nat)
    requires Inv(s) && Stranded(s) && Delivered(s, id) && id !in s.orphans
    ensures CanFinish(s, id)
  {
    if id in s.finished {
      assert Run(s, []) == s;
    } else if id in s.running {
      var more := JustFinish(s, id);
    } else {
      var i :| 0 <= i < |s.queue| && s.queue[i].id == id;
      var more := DrainTo(s, i);
    }
  }

  /** The other direction: an orphan, and a task that was never queued, finish in no continuation. */
  lemma NeverFinishes(s: Sink, id: nat, more: seq<Action>)
    requires Inv(s) && Stranded(s) && id in s.verdicts && Possible(s, more)
    requires !WasQueued(s.verdicts[id]) || id in s.orphans
    ensures id !in Run(s, more).running && id !in Run(s, more).finished
  {
    RunStranded(s, more);
    RunRemembers(s, more, id);
  }

  lemma AllGone(s: Sink)
    requires Pool(s) && Stranded(s) && s.left == s.workers
    ensures s.running == map[] && forall id :: InQueue(s.queue, id) ==> id in s.orphans
  {
    assert |s.running| == 0;
  }

  /**
    Refused does not always mean not run. In every run, the task of a caller that has returned is
    run in some continuation if and only if it was queued, that is, taken or refused by the shutdown
    check after its push, and some worker was left when it was pushed. Once every worker has
    returned, such a task has been run, and any other never is.
  */
  lemma RunsIff(limit: nat, cap: nat, workers: nat, acts: seq<Action>, id: nat)
    requires Possible(Init(limit, cap, workers), acts) && id in Run(Init(limit, cap, workers), acts).verdicts
    ensures var s := Run(Init(limit, cap, workers), acts);
            var runs := WasQueued(s.verdicts[id]) && id !in s.orphans;
            && (CanFinish(s, id) <==> runs)
            && (id in s.running || id in s.finished ==> runs)
            && (s.left == s.workers ==> (id in s.finished <==> runs))
  {
    var s := Run(Init(limit, cap, workers), acts);
    RunStranded(Init(limit, cap, workers), acts);
    if WasQueued(s.verdicts[id]) && id !in s.orphans {
      DeliveredCanFinish(s, id);
      if s.left == s.workers {
        AllGone(s);
      }
    } else {
      forall more | Possible(s, more)
        ensures id !in Run(s, more).finished
      {
        NeverFinishes(s, id, more);
      }
      NeverFinishes(s, id, []);
      assert Run(s, []) == s;
    }
  }

  lemma TakenIsServed(s: Sink, id: nat)
    requires Inv(s) && Stranded(s) && s.workers >= 1 && id in s.verdicts && s.verdicts[id].Taken?
    ensures Delivered(s, id) && id !in s.orphans && (s.left == s.workers ==> id in s.finished)
  {
    assert WasQueued(s.verdicts[id]);
    if s.left == s.workers {
      AllGone(s);
      assert !Late(s, id);
      assert !InQueue(s.queue, id);
    }
  }

  lemma {:induction false} FixedPool(s: Sink, acts: seq<Action>)
    requires Possible(s, acts)
    ensures Run(s, acts).workers == s.workers
    decreases |acts|
  {
    if acts != [] {
      FixedPool(Next(s, acts[0]), acts[1..]);
    }
  }

  /**
    A task that was reported as taken is queued, running or finished, and once the last worker has
    left after shutdown it is finished: the pool never leaves a taken task behind. Anything still
    queued then was pushed after that, and its caller was or will be told that it was refused.
  */
  lemma TakenTasksFinish(limit: nat, cap: nat, workers: nat, acts: seq<Action>)
    requires workers >= 1 && Possible(Init(limit, cap, workers), acts)
    ensures var s := Run(Init(limit, cap, workers), acts);
            && (forall id :: id in s.verdicts && s.verdicts[id].Taken? ==> Delivered(s, id) && id !in s.orphans)
            && (s.left == workers ==>
                  && (forall id :: id in s.verdicts && s.verdicts[id].Taken? ==> id in s.finished)
                  && (forall i :: 0 <= i < |s.queue| ==> s.queue[i].id in s.orphans && Late(s, s.queue[i].id)))
  {
    var s := Run(Init(limit, cap, workers), acts);
    RunStranded(Init(limit, cap, workers), acts);
    FixedPool(Init(limit, cap, workers), acts);
    forall id | id in s.verdicts && s.verdicts[id].Taken?
      ensures Delivered(s, id) && id !in s.orphans && (s.left == workers ==> id in s.finished)
    {
      TakenIsServed(s, id);
    }
  }

  // ---------------------------------------------------------------- where a refusal comes from

  lemma ReturnStep(s: Sink, a: Action, id: nat)
    requires Enabled(s, a) && id !in s.verdicts && id in Next(s, a).verdicts
    ensures var v := Next(s, a).verdicts[id];
            && (a.Begin? || a.Load? || a.Push? || a.Recheck?) && a.id == id
            && (v.RefusedLate? <==> a.Recheck? && s.down) && (v.Taken? <==> a.Recheck? && !s.down)
  {
    match a
    case Begin(_, _) =>
    case Load(_) =>
    case Push(_) =>
    case Recheck(_) =>
    case _ =>
  }

  /** The steps that return: every verdict but the last two comes before the push. */
  lemma RefusedLateIffDown(s: Sink, a: Action, id: nat)
    requires Places(s) && Enabled(s, a) && id !in s.verdicts && id in Next(s, a).verdicts
    ensures Next(s, a).verdicts[id].RefusedLate? <==> Delivered(s, id) && s.down
    ensures Next(s, a).verdicts[id].Taken? <==> Delivered(s, id) && !s.down
  {
    ReturnStep(s, a, id);
  }

  /** A refused task that runs: queued while shutdown begins, with a worker left to take it. */
  lemma RefusedMayRun(bytes: nat, limit: nat, cap: nat, workers: nat)
    requires bytes <= limit && cap >= 1 && workers >= 1
    ensures var s1 := Next(Init(limit, cap, workers), Begin(0, bytes));
            && Enabled(s1, Load(0)) && var s2 := Next(s1, Load(0));
            && Enabled(s2, Swap(0)) && var s3 := Next(s2, Swap(0));
            && Enabled(s3, Push(0)) && var s4 := Next(Next(s3, Push(0)), Shutdown);
            && Enabled(s4, Recheck(0)) && var s5 := Next(s4, Recheck(0));
            && Enabled(s5, Take) && s5.verdicts == map[0 := RefusedLate]
            && Next(s5, Take).running == map[0 := bytes]
  {
    var s1 := Next(Init(limit, cap, workers), Begin(0, bytes));
    var s3 := Next(Next(s1, Load(0)), Swap(0));
    assert s3.callers == map[0 := Reserved(bytes)];
  }

  /** A refused task that never runs: the last worker had gone when it was pushed. */
  lemma PushAfterLastLeave(bytes: nat, limit: nat, cap: nat)
    requires bytes <= limit && cap >= 1
    ensures var s1 := Next(Next(Next(Init(limit, cap, 1), Begin(0, bytes)), Load(0)), Swap(0));
            && Enabled(Next(s1, Shutdown), Leave) && var s2 := Next(Next(s1, Shutdown), Leave);
            && Enabled(s2, Push(0)) && var s3 := Next(s2, Push(0));
            && s3.left == s3.workers && s3.queue == [Task(0, bytes)] && s3.orphans == {0}
            && Enabled(s3, Recheck(0)) && Next(s3, Recheck(0)).verdicts[0] == RefusedLate
  {
    var s1 := Next(Next(Next(Init(limit, cap, 1), Begin(0, bytes)), Load(0)), Swap(0));
    assert s1.callers == map[0 := Reserved(bytes)];
  }
}

/** What stopping the candle worker drains and what it can strand (CandleWorker::stop and shard_loop in
    state/candle_cpp/src/candle_worker.cpp). */
module CandleShutdown {
  import opened Candles
  import opened CandleWindows
  import opened CandleWorkers

  /** Some on_trade call for a pair of the shard has passed the running check and not yet pushed. */
  ghost predicate UnderWay(c: Config, s: System, i: nat)
    requires c.Valid()
  {
    exists e :: e in s.entering && c.ShardFor(e.pair) == i
  }

  /** A worker that has exited leaves behind exactly what was pushed after it exited. */
  lemma ExitLeavesOnlyLateTrades(c: Config, s: System, i: nat)
    requires c.Valid() && Reachable(c, s) && i < c.numShards
    ensures |s.shards| == c.numShards
    ensures s.shards[i].worker.Exited? ==>
              s.shards[i].queue == s.shards[i].late && s.shards[i].taken + s.shards[i].late == s.shards[i].accepted
  {
    ReachableInv(c, s);
    assert ShardInv(c, i, s.shards[i], s.running, s.Finalized());
  }

  lemma {:induction false} NothingEntersAfterStop(c: Config, s: System, actions: seq<Action>, s': System, i: nat)
    requires c.Valid() && |s.shards| == c.numShards && i < c.numShards && Runs(c, s, actions, s')
    requires !s.running && !UnderWay(c, s, i)
    ensures |s'.shards| == c.numShards
    ensures s'.shards[i].accepted == s.shards[i].accepted && s'.shards[i].late == s.shards[i].late
    decreases |actions|
  {
    if actions != [] {
      NothingEntersAfterStop(c, Next(c, s, actions[0]), actions[1..], s', i);
    }
  }

  /** If no on_trade call for a pair of the shard was under way when the stop flag was raised, a worker that
      exits has drained its queue: every accepted trade of its pairs is in every one of their windows. */
  lemma StopDrainsQueues(c: Config, s: System, actions: seq<Action>, s': System, p: string, k: nat)
    requires c.Valid() && Reachable(c, s) && |s.shards| == c.numShards && k < GRANULARITIES
    requires s.running && !UnderWay(c, s, c.ShardFor(p))
    requires Runs(c, Next(c, s, Stop), actions, s') && |s'.shards| == c.numShards
    requires s'.shards[c.ShardFor(p)].worker.Exited?
    ensures s'.shards[c.ShardFor(p)].queue == []
    ensures s'.shards[c.ShardFor(p)].accepted == s.shards[c.ShardFor(p)].accepted
    ensures AbsorbedTrades(c, s', p, k) == TradesFor(s.shards[c.ShardFor(p)].accepted, p)
  {
    var i := c.ShardFor(p);
    var s1 := Next(c, s, Stop);
    ReachableInv(c, s);
    assert ShardInv(c, i, s.shards[i], s.running, s.Finalized());
    InvIsPreserved(c, s, Stop);
    InvHoldsAlongRuns(c, s1, actions, s');
    assert ShardInv(c, i, s'.shards[i], s'.running, s'.Finalized());
    NothingEntersAfterStop(c, s1, actions, s', i);
    var sh := s'.shards[i];
    assert sh.taken + [] == sh.taken;
  }

  // ---------------------------------------------------------------- a worker left alone

  /** The one step a worker can take: with an empty queue, only once the flag is down. */
  function StepOf(sh: Shard, i: nat): Action {
    match sh.worker
    case Waiting => if sh.queue != [] then Take(i) else Exit(i)
    case Taken(_) => Open(i)
    case Applying(_, next) => if next < GRANULARITIES then Apply(i) else Finish(i)
    case Exited => Exit(i)
  }

  function StepsToWaiting(worker: Worker): nat {
    match worker
    case Taken(_) => GRANULARITIES + 2
    case Applying(_, next) => if next <= GRANULARITIES then GRANULARITIES + 1 - next else 0
    case _ => 0
  }

  /** Steps left until exit: so many for each queued trade, the trade in hand, and the exit itself. */
  function StepsToExit(sh: Shard): nat { StepsLeft(|sh.queue|, sh.worker) }

  function StepsLeft(queued: nat, worker: Worker): nat {
    if worker.Exited? then 0 else queued * (GRANULARITIES + 3) + StepsToWaiting(worker) + 1
  }

  lemma EachStepCounts(queued: nat, e: Event, next: nat)
    ensures queued > 0 ==> StepsLeft(queued - 1, Taken(e)) == StepsLeft(queued, Waiting) - 1
    ensures StepsLeft(queued, Applying(e, 0)) == StepsLeft(queued, Taken(e)) - 1
    ensures next < GRANULARITIES ==> StepsLeft(queued, Applying(e, next + 1)) == StepsLeft(queued, Applying(e, next)) - 1
    ensures StepsLeft(queued, Waiting) == StepsLeft(queued, Applying(e, GRANULARITIES)) - 1
    ensures StepsLeft(0, Exited) == StepsLeft(0, Waiting) - 1
  {}

  /** A worker has something to do unless it has exited, or waits at an empty queue while the flag is up. */
  predicate HasWork(sh: Shard, running: bool) {
    !sh.worker.Exited? && (sh.worker.Waiting? ==> sh.queue != [] || !running)
  }

  /** A worker with something to do can always take its step, running or stopped. */
  lemma WorkerCanStep(c: Config, s: System, i: nat)
    requires c.Valid() && Inv(c, s) && i < c.numShards && HasWork(s.shards[i], s.running)
    ensures Enabled(c, s, StepOf(s.shards[i], i)) && Inv(c, Next(c, s, StepOf(s.shards[i], i)))
  {
    var sh := s.shards[i];
    assert ShardInv(c, i, sh, s.running, s.Finalized());
    if sh.worker.Applying? {
      assert sh.worker.e in sh.accepted;
      assert WindowInv(sh, s.Finalized(), sh.worker.e.pair, 0);
    }
    InvIsPreserved(c, s, StepOf(sh, i));
  }

  /** Nothing comes in by it. */
  lemma WorkerStepBringsNothing(c: Config, s: System, i: nat)
    requires c.Valid() && |s.shards| == c.numShards && i < c.numShards
    requires !s.shards[i].worker.Exited? && Enabled(c, s, StepOf(s.shards[i], i))
    ensures
      var s' := Next(c, s, StepOf(s.shards[i], i));
      && s'.running == s.running && s'.entering == s.entering
      && s'.shards[i].accepted == s.shards[i].accepted && s'.shards[i].late == s.shards[i].late
  {}

  /** It brings the worker one step closer to exit. */
  lemma WorkerStepCounts(c: Config, s: System, i: nat)
    requires c.Valid() && |s.shards| == c.numShards && i < c.numShards
    requires !s.shards[i].worker.Exited? && Enabled(c, s, StepOf(s.shards[i], i))
    ensures StepsToExit(Next(c, s, StepOf(s.shards[i], i)).shards[i]) == StepsToExit(s.shards[i]) - 1
  {
    var sh := s.shards[i];
    match sh.worker
    case Waiting => if sh.queue != [] { EachStepCounts(|sh.queue|, sh.queue[0], 0); }
    case Taken(e) => EachStepCounts(|sh.queue|, e, 0);
    case Applying(e, next) => EachStepCounts(|sh.queue|, e, next);
  }

  lemma RunsOneMore(c: Config, s: System, a: Action, rest: seq<Action>, s': System)
    requires c.Valid() && |s.shards| == c.numShards && Enabled(c, s, a) && Runs(c, Next(c, s, a), rest, s')
    ensures Runs(c, s, [a] + rest, s')
  {
    assert ([a] + rest)[1..] == rest;
  }

  /** From every stopped state a worker can be driven to exit by its own steps alone, exactly as many as
      counted, however much is queued and whatever the producers and the finalizer do not do. */
  lemma {:induction false} WorkerReachesExit(c: Config, s: System, i: nat) returns (actions: seq<Action>, s': System)
    requires c.Valid() && Inv(c, s) && !s.running && i < c.numShards
    ensures Runs(c, s, actions, s') && |actions| == StepsToExit(s.shards[i])
    ensures Inv(c, s') && !s'.running && s'.entering == s.entering && s'.shards[i].worker.Exited?
    ensures s'.shards[i].accepted == s.shards[i].accepted && s'.shards[i].late == s.shards[i].late
    decreases StepsToExit(s.shards[i])
  {
    if s.shards[i].worker.Exited? {
      actions, s' := [], s;
    } else {
      var a := StepOf(s.shards[i], i);
      WorkerCanStep(c, s, i);
      WorkerStepBringsNothing(c, s, i);
      WorkerStepCounts(c, s, i);
      var rest;
      rest, s' := WorkerReachesExit(c, Next(c, s, a), i);
      RunsOneMore(c, s, a, rest, s');
      actions := [a] + rest;
    }
  }

  /** Whether running or stopped, a worker catches up with its queue by its own steps alone; every accepted
      trade of its pairs is then in every one of their windows. */
  lemma {:induction false} WorkerCatchesUp(c: Config, s: System, i: nat) returns (actions: seq<Action>, s': System)
    requires c.Valid() && Inv(c, s) && i < c.numShards && !s.shards[i].worker.Exited?
    ensures Runs(c, s, actions, s') && Inv(c, s') && s'.running == s.running && s'.entering == s.entering
    ensures s'.shards[i].worker == Waiting && s'.shards[i].queue == [] && s'.shards[i].accepted == s.shards[i].accepted
    ensures forall p, k :: c.ShardFor(p) == i && 0 <= k < GRANULARITIES ==>
              AbsorbedTrades(c, s', p, k) == TradesFor(s.shards[i].accepted, p)
    decreases StepsToExit(s.shards[i])
  {
    var sh := s.shards[i];
    if sh.worker.Waiting? && sh.queue == [] {
      actions, s' := [], s;
      assert ShardInv(c, i, sh, s.running, s.Finalized());
      assert sh.taken + [] == sh.taken;
    } else {
      var a := StepOf(sh, i);
      WorkerCanStep(c, s, i);
      WorkerStepBringsNothing(c, s, i);
      WorkerStepCounts(c, s, i);
      var rest;
      rest, s' := WorkerCatchesUp(c, Next(c, s, a), i);
      RunsOneMore(c, s, a, rest, s');
      actions := [a] + rest;
    }
  }

  // ---------------------------------------------------------------- stranding

  lemma AfterFirst(c: Config, s: System, actions: seq<Action>, s': System) returns (s1: System)
    requires c.Valid() && |s.shards| == c.numShards && actions != [] && Runs(c, s, actions, s')
    ensures Enabled(c, s, actions[0]) && s1 == Next(c, s, actions[0]) && Runs(c, s1, actions[1..], s')
  {
    s1 := Next(c, s, actions[0]);
  }

  lemma HeadAndTail(xs: seq<Action>, ys: seq<Action>)
    requires xs != []
    ensures [xs[0]] + (xs[1..] + ys) == xs + ys
  {}

  lemma {:induction false} RunsAppend(c: Config, s: System, xs: seq<Action>, mid: System, ys: seq<Action>, s': System)
    requires c.Valid() && |s.shards| == c.numShards && |mid.shards| == c.numShards
    requires Runs(c, s, xs, mid) && Runs(c, mid, ys, s')
    ensures Runs(c, s, xs + ys, s')
    decreases |xs|
  {
    if xs == [] {
      assert xs + ys == ys;
    } else {
      var s1 := AfterFirst(c, s, xs, mid);
      RunsAppend(c, s1, xs[1..], mid, ys, s');
      RunsOneMore(c, s, xs[0], xs[1..] + ys, s');
      HeadAndTail(xs, ys);
    }
  }

  lemma ExitedStep(c: Config, s: System, a: Action, i: nat)
    requires c.Valid() && |s.shards| == c.numShards && i < c.numShards && Enabled(c, s, a)
    requires s.shards[i].worker.Exited?
    ensures
      var s' := Next(c, s, a);
      && |s'.shards| == c.numShards && s'.shards[i].worker.Exited? && s'.shards[i].taken == s.shards[i].taken
      && s.shards[i].queue <= s'.shards[i].queue
  {
    if a.Push? {
      assert Pushed(s.shards[i], a.e).queue == s.shards[i].queue + [a.e];
    }
  }

  lemma {:induction false} ExitedForGood(c: Config, s: System, actions: seq<Action>, s': System, i: nat)
    requires c.Valid() && |s.shards| == c.numShards && i < c.numShards && Runs(c, s, actions, s')
    requires s.shards[i].worker.Exited?
    ensures |s'.shards| == c.numShards
    ensures s'.shards[i].worker.Exited? && s'.shards[i].taken == s.shards[i].taken
    ensures s.shards[i].queue <= s'.shards[i].queue
    decreases |actions|
  {
    if actions != [] {
      ExitedStep(c, s, actions[0], i);
      ExitedForGood(c, Next(c, s, actions[0]), actions[1..], s', i);
    }
  }

  /** Any trade that is under way at the stop can be stranded: its worker exits, then it is pushed, and no
      continuation ever takes it from the queue. */
  lemma StopCanStrandATrade(c: Config, s: System, e: Event) returns (actions: seq<Action>, s': System)
    requires c.Valid() && Reachable(c, s) && |s.shards| == c.numShards && s.running && e in s.entering
    ensures Runs(c, Next(c, s, Stop), actions, s') && |s'.shards| == c.numShards
    ensures s'.shards[c.ShardFor(e.pair)].worker.Exited? && e in s'.shards[c.ShardFor(e.pair)].queue
    ensures forall more, later :: Runs(c, s', more, later) ==>
              && |later.shards| == c.numShards
              && later.shards[c.ShardFor(e.pair)].taken == s'.shards[c.ShardFor(e.pair)].taken
              && s'.shards[c.ShardFor(e.pair)].queue <= later.shards[c.ShardFor(e.pair)].queue
  {
    var i := c.ShardFor(e.pair);
    var stopped := Next(c, s, Stop);
    ReachableInv(c, s);
    InvIsPreserved(c, s, Stop);
    var drained, exited := WorkerReachesExit(c, stopped, i);
    s' := Next(c, exited, Push(e));
    RunsOneMore(c, exited, Push(e), [], s');
    RunsAppend(c, stopped, drained, exited, [Push(e)] + [], s');
    actions := drained + ([Push(e)] + []);
    forall more, later | Runs(c, s', more, later)
      ensures |later.shards| == c.numShards
      ensures later.shards[i].taken == s'.shards[i].taken && s'.shards[i].queue <= later.shards[i].queue
    {
      ExitedForGood(c, s', more, later, i);
    }
  }

  /** However the system continues after the stop, the shard's worker leaves an empty queue when it exits and
      the queue stays empty. */
  ghost predicate AlwaysDrained(c: Config, s: System, i: nat)
    requires c.Valid() && |s.shards| == c.numShards && s.running && i < c.numShards
  {
    forall actions, s' :: Runs(c, Next(c, s, Stop), actions, s') ==>
      |s'.shards| == c.numShards && (s'.shards[i].worker.Exited? ==> s'.shards[i].queue == [])
  }

  /** Exactly when stopping drains a shard: at the stop, no on_trade call for one of its pairs is under way. */
  lemma StopDrainsExactly(c: Config, s: System, i: nat)
    requires c.Valid() && Reachable(c, s) && |s.shards| == c.numShards && s.running && i < c.numShards
    ensures AlwaysDrained(c, s, i) <==> !UnderWay(c, s, i)
  {
    if UnderWay(c, s, i) {
      var e :| e in s.entering && c.ShardFor(e.pair) == i;
      var actions, s' := StopCanStrandATrade(c, s, e);
    } else {
      forall actions, s' | Runs(c, Next(c, s, Stop), actions, s')
        ensures |s'.shards| == c.numShards && (s'.shards[i].worker.Exited? ==> s'.shards[i].queue == [])
      {
        ReachableInv(c, s);
        InvIsPreserved(c, s, Stop);
        InvHoldsAlongRuns(c, Next(c, s, Stop), actions, s');
        NothingEntersAfterStop(c, Next(c, s, Stop), actions, s', i);
        assert ShardInv(c, i, s.shards[i], s.running, s.Finalized());
        assert ShardInv(c, i, s'.shards[i], s'.running, s'.Finalized());
      }
    }
  }

  /** Any trade can be under way while the worker runs. */
  lemma AnyTradeCanBeUnderWay(c: Config, s: System, e: Event) returns (s': System)
    requires c.Valid() && Reachable(c, s) && |s.shards| == c.numShards && s.running
    ensures Reachable(c, s') && s'.running && e in s'.entering
  {
    s' := Next(c, s, Check(e));
    var start, actions :| Initial(c, start) && Runs(c, start, actions, s);
    RunsOneMore(c, s, Check(e), [], s');
    RunsAppend(c, start, actions, s, [Check(e)] + [], s');
  }
}

/** The producer and the workers of Run over an unbuffered channel and an error group
    (backfill/orchestrator/orchestrator.go). */
module BackfillRun {
  import opened Words
  import opened BackfillSchedule

  /** The producer between its suspension points; `Offering` is blocked in the select. */
  datatype Producer = Looping(start: u64) | Offering(range: Range, overflow: bool) | ProducerDone(ok: bool)

  /** A worker waits at the channel, processes the range dispatched as number `index`, or has returned. */
  datatype Worker = Receiving | Processing(index: nat) | WorkerDone(ok: bool)

  /** `dispatched`, `holder`, `succeeded`, `failed` and `outside` are history: the ranges taken from the
      channel, the worker that took each, the numbers of those processed without error and with one, and
      whether the context was cancelled from outside. */
  datatype State = State(
    producer: Producer, workers: seq<Worker>, cancelled: bool,
    dispatched: seq<Range>, holder: seq<nat>, succeeded: seq<nat>, failed: seq<nat>, outside: bool)

  datatype Action =
    | Turn                    // the producer checks the context and computes the next range
    | Send(worker: nat)       // the channel hands the offered range to a waiting worker
    | GiveUp                  // the producer's select sees the context done
    | Succeed(worker: nat)
    | Fail(worker: nat)       // the processor returns an error, which cancels the group
    | SeeClosed(worker: nat)  // the producer has returned and closed the channel
    | CancelFromOutside

  ghost predicate Initial(c: Config, s: State) {
    && s.producer == Looping(c.startSlot) && !s.cancelled
    && |s.workers| == c.concurrency && (forall w :: 0 <= w < |s.workers| ==> s.workers[w] == Receiving)
    && s.dispatched == [] && s.holder == [] && s.succeeded == [] && s.failed == [] && !s.outside
  }

  predicate Enabled(c: Config, s: State, a: Action) {
    match a
    case Turn => s.producer.Looping?
    case Send(w) => s.producer.Offering? && w < |s.workers| && s.workers[w] == Receiving
    case GiveUp => s.producer.Offering? && s.cancelled
    case Succeed(w) => w < |s.workers| && s.workers[w].Processing?
    case Fail(w) => w < |s.workers| && s.workers[w].Processing?
    case SeeClosed(w) => w < |s.workers| && s.workers[w] == Receiving && s.producer.ProducerDone?
    case CancelFromOutside => !s.cancelled
  }

  function AfterTurn(c: Config, s: State): State
    requires s.producer.Looping?
  {
    if s.cancelled then s.(producer := ProducerDone(false))
    else
      match NextTurn(c, s.producer.start)
      case Complete => s.(producer := ProducerDone(true))
      case InvalidRange => s.(producer := ProducerDone(false), cancelled := true)
      case Offer(range, overflow) => s.(producer := Offering(range, overflow))
  }

  function AfterSend(c: Config, s: State, w: nat): State
    requires s.producer.Offering? && w < |s.workers|
  {
    var range := s.producer.range;
    State(if StopsAfter(c, s.producer.overflow) then ProducerDone(true) else Looping(range.end),
          s.workers[w := Processing(|s.dispatched|)], s.cancelled,
          s.dispatched + [range], s.holder + [w], s.succeeded, s.failed, s.outside)
  }

  function Next(c: Config, s: State, a: Action): State
    requires Enabled(c, s, a)
  {
    match a
    case Turn => AfterTurn(c, s)
    case Send(w) => AfterSend(c, s, w)
    case GiveUp => s.(producer := ProducerDone(false))
    case Succeed(w) => s.(workers := s.workers[w := Receiving], succeeded := s.succeeded + [s.workers[w].index])
    case Fail(w) =>
      s.(workers := s.workers[w := WorkerDone(false)], cancelled := true, failed := s.failed + [s.workers[w].index])
    case SeeClosed(w) => s.(workers := s.workers[w := WorkerDone(true)])
    case CancelFromOutside => s.(cancelled := true, outside := true)
  }

  ghost predicate Runs(c: Config, s: State, actions: seq<Action>, s': State)
    decreases |actions|
  {
    if actions == [] then s' == s
    else Enabled(c, s, actions[0]) && Runs(c, Next(c, s, actions[0]), actions[1..], s')
  }

  ghost predicate Reachable(c: Config, s': State) {
    exists s, actions :: Initial(c, s) && Runs(c, s, actions, s')
  }

  predicate Returned(s: State) {
    s.producer.ProducerDone? && forall w :: 0 <= w < |s.workers| ==> s.workers[w].WorkerDone?
  }

  /** Every goroutine of the group returned nil. */
  predicate ReturnsNil(s: State) {
    s.producer == ProducerDone(true) && forall w :: 0 <= w < |s.workers| ==> s.workers[w] == WorkerDone(true)
  }

  // ---------------------------------------------------------------- invariant

  /** What is still to be dispatched. */
  function Remaining(c: Config, p: Producer): seq<Range>
    requires c.batchSize != 0
  {
    match p
    case Looping(start) => Partition(start, c.Limit(), c.batchSize)
    case Offering(range, _) => [range] + Partition(range.end, c.Limit(), c.batchSize)
    case ProducerDone(_) => []
  }

  ghost predicate ProducerInv(c: Config, s: State)
    requires c.Validates()
  {
    && (s.producer != ProducerDone(false) ==> s.dispatched + Remaining(c, s.producer) == Whole(c))
    && (s.producer == ProducerDone(false) ==> s.cancelled && s.dispatched <= Whole(c))
    && (s.producer.Offering? && StopsAfter(c, s.producer.overflow) ==>
          Partition(s.producer.range.end, c.Limit(), c.batchSize) == [])
  }

  /** Dispatched range `i` is exactly one of: in its holder's hands, processed once, failed with its holder. */
  ghost predicate Accounted(s: State, i: nat)
    requires i < |s.holder|
  {
    var w := s.holder[i];
    && w < |s.workers|
    && (multiset(s.succeeded)[i] == 0 ==> s.workers[w] == Processing(i) || s.workers[w] == WorkerDone(false))
    && multiset(s.succeeded)[i] <= 1
    && (multiset(s.succeeded)[i] == 1 ==> s.workers[w] != Processing(i))
  }

  ghost predicate WorkerInv(c: Config, s: State) {
    && |s.workers| == c.concurrency && |s.holder| == |s.dispatched|
    && (forall i :: 0 <= i < |s.holder| ==> Accounted(s, i))
    && (forall i :: i in s.succeeded ==> i < |s.dispatched|)
    && (forall w :: 0 <= w < |s.workers| && s.workers[w].Processing? ==>
          s.workers[w].index < |s.holder| && s.holder[s.workers[w].index] == w)
    && (forall w :: 0 <= w < |s.workers| && s.workers[w] == WorkerDone(false) ==> s.cancelled)
    && (forall w :: 0 <= w < |s.workers| && s.workers[w] == WorkerDone(true) ==> s.producer.ProducerDone?)
  }

  ghost predicate Inv(c: Config, s: State)
    requires c.Validates()
  {
    ProducerInv(c, s) && WorkerInv(c, s) && CauseInv(s)
  }

  /** Why the group was cancelled; a range that failed has not succeeded and its worker has returned. */
  ghost predicate CauseInv(s: State) {
    && (s.cancelled ==> s.outside || s.failed != [])
    && (forall i :: i in s.failed ==> Failed(s, i))
  }

  ghost predicate Failed(s: State, i: nat) {
    && i < |s.holder| && s.holder[i] < |s.workers| && s.workers[s.holder[i]] == WorkerDone(false)
    && multiset(s.succeeded)[i] == 0
  }

  lemma TurnInv(c: Config, s: State)
    requires c.Validates() && Inv(c, s) && s.producer.Looping?
    ensures ProducerInv(c, AfterTurn(c, s)) && WorkerInv(c, AfterTurn(c, s))
  {
    TurnFollowsPartition(c, s.producer.start);
    assert s.dispatched + Remaining(c, s.producer) == Whole(c);
    assert s.dispatched <= Whole(c);
    forall i | 0 <= i < |s.holder|
      ensures Accounted(AfterTurn(c, s), i)
    {
      assert Accounted(s, i);
    }
  }

  lemma SendInv(c: Config, s: State, w: nat)
    requires c.Validates() && Inv(c, s) && Enabled(c, s, Send(w))
    ensures ProducerInv(c, AfterSend(c, s, w)) && WorkerInv(c, AfterSend(c, s, w))
  {
    var s' := AfterSend(c, s, w);
    var rest := Partition(s.producer.range.end, c.Limit(), c.batchSize);
    Regroup(s.dispatched, s.producer.range, rest);
    assert s.dispatched + [s.producer.range] <= Whole(c);
    var n := |s.dispatched|;
    assert multiset(s.succeeded)[n] == 0 by { assert n !in s.succeeded; }
    forall i | 0 <= i < |s'.holder|
      ensures Accounted(s', i)
    {
      if i < n { assert Accounted(s, i); }
    }
  }

  lemma SucceedInv(c: Config, s: State, w: nat)
    requires c.Validates() && Inv(c, s) && Enabled(c, s, Succeed(w))
    ensures ProducerInv(c, Next(c, s, Succeed(w))) && WorkerInv(c, Next(c, s, Succeed(w)))
  {
    var s' := Next(c, s, Succeed(w));
    var done := s.workers[w].index;
    assert multiset(s'.succeeded) == multiset(s.succeeded) + multiset{done};
    assert Accounted(s, done);
    forall i | 0 <= i < |s'.holder|
      ensures Accounted(s', i)
    {
      assert Accounted(s, i);
    }
  }

  lemma FailInv(c: Config, s: State, w: nat)
    requires c.Validates() && Inv(c, s) && Enabled(c, s, Fail(w))
    ensures ProducerInv(c, Next(c, s, Fail(w))) && WorkerInv(c, Next(c, s, Fail(w)))
  {
    var s' := Next(c, s, Fail(w));
    forall i | 0 <= i < |s'.holder|
      ensures Accounted(s', i)
    {
      assert Accounted(s, i);
    }
  }

  lemma OtherInv(c: Config, s: State, a: Action)
    requires c.Validates() && Inv(c, s) && Enabled(c, s, a)
    requires a.GiveUp? || a.SeeClosed? || a.CancelFromOutside?
    ensures ProducerInv(c, Next(c, s, a)) && WorkerInv(c, Next(c, s, a))
  {
    var s' := Next(c, s, a);
    assert s.producer.Offering? ==> s.dispatched <= Whole(c);
    forall i | 0 <= i < |s'.holder|
      ensures Accounted(s', i)
    {
      assert Accounted(s, i);
    }
  }

  /** Only a failed range and an outside cancellation cancel the group. */
  lemma CauseIsKept(c: Config, s: State, a: Action)
    requires c.Validates() && Inv(c, s) && Enabled(c, s, a)
    ensures CauseInv(Next(c, s, a))
  {
    var s' := Next(c, s, a);
    if a.Turn? { TurnFollowsPartition(c, s.producer.start); }
    forall i | i in s'.failed
      ensures Failed(s', i)
    {
      if i in s.failed {
        assert Failed(s, i);
      } else {
        assert a.Fail? && i == s.workers[a.worker].index && Accounted(s, i);
      }
    }
  }

  lemma InvIsPreserved(c: Config, s: State, a: Action)
    requires c.Validates() && Inv(c, s) && Enabled(c, s, a)
    ensures Inv(c, Next(c, s, a))
  {
    CauseIsKept(c, s, a);
    match a
    case Turn => TurnInv(c, s);
    case Send(w) => SendInv(c, s, w);
    case Succeed(w) => SucceedInv(c, s, w);
    case Fail(w) => FailInv(c, s, w);
    case _ => OtherInv(c, s, a);
  }

  lemma {:induction false} InvHoldsAlongRuns(c: Config, s: State, actions: seq<Action>, s': State)
    requires c.Validates() && Inv(c, s) && Runs(c, s, actions, s')
    ensures Inv(c, s')
    decreases |actions|
  {
    if actions != [] {
      InvIsPreserved(c, s, actions[0]);
      InvHoldsAlongRuns(c, Next(c, s, actions[0]), actions[1..], s');
    }
  }

  lemma ReachableInv(c: Config, s': State)
    requires c.Validates() && Reachable(c, s')
    ensures Inv(c, s')
  {
    var s, actions :| Initial(c, s) && Runs(c, s, actions, s');
    assert [] + Whole(c) == Whole(c);
    InvHoldsAlongRuns(c, s, actions, s');
  }

  // ---------------------------------------------------------------- results

  /** In every interleaving the dispatched ranges are a prefix of the schedule, each went to one worker, and
      no two workers process the same one. */
  lemma DispatchedIsPrefix(c: Config, s: State)
    requires c.Validates() && Reachable(c, s)
    ensures s.dispatched <= Whole(c) && |s.holder| == |s.dispatched|
    ensures forall v, w :: 0 <= v < w < |s.workers| && s.workers[v].Processing? && s.workers[w].Processing? ==>
              s.workers[v].index != s.workers[w].index
    ensures forall w :: 0 <= w < |s.workers| && s.workers[w].Processing? ==> s.workers[w].index < |s.dispatched|
  {
    ReachableInv(c, s);
  }

  /** When Run returns nil, every range of the schedule was processed without error, exactly once. */
  lemma NilMeansAllProcessedOnce(c: Config, s: State)
    requires c.Validates() && Reachable(c, s) && ReturnsNil(s)
    ensures s.dispatched == Whole(c)
    ensures forall i: nat :: multiset(s.succeeded)[i] == if i < |Whole(c)| then 1 else 0
  {
    ReachableInv(c, s);
    assert s.dispatched + [] == s.dispatched;
    forall i: nat
      ensures multiset(s.succeeded)[i] == if i < |Whole(c)| then 1 else 0
    {
      if i < |s.holder| {
        assert Accounted(s, i);
      } else {
        assert i !in s.succeeded;
      }
    }
  }

  /** The producer's "invalid range" error is unreachable, so Run returns an error only after a range failed
      or the context was cancelled from outside; and once a range has failed it never returns nil. */
  lemma ErrorsComeFromCancellation(c: Config, s: State)
    requires c.Validates() && Reachable(c, s)
    ensures s.producer.Looping? ==> !NextTurn(c, s.producer.start).InvalidRange?
    ensures Returned(s) && !ReturnsNil(s) ==> s.outside || s.failed != []
    ensures forall i :: i in s.failed ==> i < |s.dispatched| && i !in s.succeeded && !ReturnsNil(s)
  {
    ReachableInv(c, s);
    if s.producer.Looping? {
      TurnFollowsPartition(c, s.producer.start);
    }
    forall i | i in s.failed
      ensures i < |s.dispatched| && i !in s.succeeded && !ReturnsNil(s)
    {
      assert Failed(s, i);
    }
  }

  /** Until Run returns, some step other than an outside cancellation can be taken. */
  lemma NeverStuck(c: Config, s: State) returns (a: Action)
    requires c.Validates() && Reachable(c, s) && !Returned(s)
    ensures !a.CancelFromOutside? && Enabled(c, s, a)
  {
    ReachableInv(c, s);
    match s.producer
    case Looping(_) => a := Turn;
    case Offering(_, _) =>
      if s.cancelled {
        a := GiveUp;
      } else {
        assert s.workers[0] != WorkerDone(true) && s.workers[0] != WorkerDone(false);
        a := if s.workers[0] == Receiving then Send(0) else Succeed(0);
      }
    case ProducerDone(_) =>
      var w :| 0 <= w < |s.workers| && !s.workers[w].WorkerDone?;
      a := if s.workers[w] == Receiving then SeeClosed(w) else Succeed(w);
  }

  /** Once the group is cancelled at most one more range is dispatched, and only the one already on offer. */
  lemma {:induction false} CancellationStopsDispatch(c: Config, s: State, actions: seq<Action>, s': State)
    requires s.cancelled && Runs(c, s, actions, s')
    ensures s'.cancelled
    ensures s.producer.Offering? ==> s'.dispatched == s.dispatched || s'.dispatched == s.dispatched + [s.producer.range]
    ensures !s.producer.Offering? ==> s'.dispatched == s.dispatched
    decreases |actions|
  {
    if actions != [] {
      CancellationStopsDispatch(c, Next(c, s, actions[0]), actions[1..], s');
    }
  }

  function WorkerWork(workers: seq<Worker>): nat {
    if workers == [] then 0
    else
      WorkerWork(workers[..|workers| - 1]) +
      match workers[|workers| - 1]
      case Receiving => 1
      case Processing(_) => 2
      case WorkerDone(_) => 0
  }

  /** An upper bound on the steps left. */
  function Work(c: Config, s: State): nat
    requires c.batchSize != 0
  {
    WorkerWork(s.workers) + (if s.cancelled then 0 else 1) +
    match s.producer
    case Looping(_) => 3 * |Remaining(c, s.producer)| + 2
    case Offering(_, _) => 3 * |Remaining(c, s.producer)| + 1
    case ProducerDone(_) => 0
  }

  lemma {:induction false} WorkerWorkUpdate(workers: seq<Worker>, w: nat, worker: Worker)
    requires w < |workers|
    ensures WorkerWork(workers[w := worker]) == WorkerWork(workers) - WorkerWork([workers[w]]) + WorkerWork([worker])
  {
    var n := |workers| - 1;
    var workers' := workers[w := worker];
    assert [workers[w]][..0] == [] && [worker][..0] == [];
    if w == n {
      assert workers'[..n] == workers[..n];
    } else {
      assert workers'[..n] == workers[..n][w := worker];
      WorkerWorkUpdate(workers[..n], w, worker);
    }
  }

  /** Every step uses up work, so with processors that return, Run returns whatever the interleaving. */
  lemma EveryStepUsesUpWork(c: Config, s: State, a: Action)
    requires c.Validates() && Reachable(c, s) && Enabled(c, s, a)
    ensures Work(c, Next(c, s, a)) < Work(c, s)
  {
    match a
    case Turn => TurnFollowsPartition(c, s.producer.start);
    case Send(w) => UpdateWork(s.workers, w, Processing(|s.dispatched|));
    case GiveUp =>
    case Succeed(w) => UpdateWork(s.workers, w, Receiving);
    case Fail(w) => UpdateWork(s.workers, w, WorkerDone(false));
    case SeeClosed(w) => UpdateWork(s.workers, w, WorkerDone(true));
    case CancelFromOutside =>
  }

  lemma UpdateWork(workers: seq<Worker>, w: nat, worker: Worker)
    requires w < |workers|
    ensures
      var before, after := WorkerWork(workers), WorkerWork(workers[w := worker]);
      && (workers[w] == Receiving && worker.Processing? ==> after == before + 1)
      && (workers[w] == Receiving && worker.WorkerDone? ==> after == before - 1)
      && (workers[w].Processing? && worker == Receiving ==> after == before - 1)
      && (workers[w].Processing? && worker.WorkerDone? ==> after == before - 2)
  {
    WorkerWorkUpdate(workers, w, worker);
    assert [workers[w]][..0] == [] && [worker][..0] == [];
  }
}

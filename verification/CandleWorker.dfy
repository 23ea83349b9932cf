/** Producers, shard workers and the finalizer thread as one transition system
    (CandleWorker in state/candle_cpp/src/candle_worker.cpp), for one start/stop cycle. */
module CandleWorkers {
  import opened Words
  import opened Candles
  import opened CandleWindows
  import opened CandleRollup

  const GRANULARITIES: nat := 7

  datatype Event = Event(pair: string, trade: Trade)

  /** Where a shard's worker thread stands between its lock regions. */
  datatype Worker =
    | Waiting                        // at the wait on the queue
    | Taken(e: Event)                // popped, before get_or_create_windows
    | Applying(e: Event, next: nat)  // about to update window `next` of the pair
    | Exited

  /** One CandleWindow; `history`, which no step reads, records the calls made on it. */
  datatype Window = Window(state: WindowState, history: seq<Op>)

  /** `accepted`, `taken` and `late` are history: everything pushed, everything popped, and everything
      pushed once the worker had exited. */
  datatype Shard = Shard(
    queue: seq<Event>, worker: Worker, windows: map<string, seq<Window>>,
    accepted: seq<Event>, taken: seq<Event>, late: seq<Event>)

  datatype Published = Published(pair: string, granularity: nat, candle: Candle)

  /** `entering` holds the on_trade calls that have passed the running check and not yet pushed; `inHand` is
      what the finalizer thread has taken out of a window and not yet published. */
  datatype System = System(
    running: bool, finalizing: bool, entering: multiset<Event>,
    shards: seq<Shard>, inHand: seq<Published>, published: seq<Published>)
  {
    /** Everything finalized, in order: published, then in hand. */
    function Finalized(): seq<Published> { published + inHand }
  }

  /** Any hash and any positive number of shards. */
  datatype Config = Config(numShards: nat, hash: string -> nat) {
    ghost predicate Valid() { numShards > 0 }

    function ShardFor(pair: string): (i: nat)
      requires Valid()
      ensures i < numShards && exists q: nat :: hash(pair) == q * numShards + i
    {
      assert hash(pair) == (hash(pair) / numShards) * numShards + hash(pair) % numShards;
      hash(pair) % numShards
    }
  }

  datatype Action =
    | Check(e: Event)
    | Push(e: Event)
    | Take(shard: nat)
    | Open(shard: nat)
    | Apply(shard: nat)
    | Finish(shard: nat)
    | Exit(shard: nat)
    | FinalizeWindow(shard: nat, pair: string, granularity: nat, watermark: u64)
    | Emit
    | FinalizerExit
    | Stop

  function SizeOf(k: nat): WindowSize
    requires k < GRANULARITIES
  {
    WINDOW_SIZES[k]
  }

  const NEW_WINDOW: Window := Window(WindowState(map[], 0), [])

  const NEW_WINDOWS: seq<Window> :=
    [NEW_WINDOW, NEW_WINDOW, NEW_WINDOW, NEW_WINDOW, NEW_WINDOW, NEW_WINDOW, NEW_WINDOW]

  ghost predicate Initial(c: Config, s: System)
    requires c.Valid()
  {
    && s.running && s.finalizing && s.entering == multiset{} && s.inHand == s.published == []
    && |s.shards| == c.numShards
    && forall i :: 0 <= i < |s.shards| ==> s.shards[i] == Shard([], Waiting, map[], [], [], [])
  }

  predicate Enabled(c: Config, s: System, a: Action)
    requires c.Valid() && |s.shards| == c.numShards
  {
    match a
    case Check(e) => s.running
    case Push(e) => e in s.entering
    case Take(i) => i < |s.shards| && s.shards[i].worker == Waiting && s.shards[i].queue != []
    case Open(i) => i < |s.shards| && s.shards[i].worker.Taken?
    case Apply(i) =>
      && i < |s.shards| && s.shards[i].worker.Applying? && s.shards[i].worker.next < GRANULARITIES
      && s.shards[i].worker.e.pair in s.shards[i].windows
      && |s.shards[i].windows[s.shards[i].worker.e.pair]| == GRANULARITIES
    case Finish(i) =>
      i < |s.shards| && s.shards[i].worker.Applying? && s.shards[i].worker.next == GRANULARITIES
    case Exit(i) => i < |s.shards| && s.shards[i].worker == Waiting && !s.running && s.shards[i].queue == []
    case FinalizeWindow(i, p, k, _) =>
      && s.finalizing && s.inHand == [] && i < |s.shards| && p in s.shards[i].windows && k < |s.shards[i].windows[p]|
      && k < GRANULARITIES && s.shards[i].windows[p][k].state.lastTradeTime != 0
    case Emit => s.inHand != []
    case FinalizerExit => s.finalizing && s.inHand == [] && !s.running
    case Stop => s.running
  }

  /** The windows after one call on window `k` of pair `p`. */
  function WithOp(windows: map<string, seq<Window>>, p: string, k: nat, op: Op): map<string, seq<Window>>
    requires p in windows && k < |windows[p]| && k < GRANULARITIES
  {
    var w := windows[p][k];
    windows[p := windows[p][k := Window(Step(SizeOf(k), Run(w.state, []), op).state, w.history + [op])]]
  }

  function Tagged(p: string, k: nat, cs: seq<Candle>): seq<Published> {
    if cs == [] then [] else Tagged(p, k, cs[..|cs| - 1]) + [Published(p, k, cs[|cs| - 1])]
  }

  function Pushed(sh: Shard, e: Event): Shard {
    Shard(sh.queue + [e], sh.worker, sh.windows, sh.accepted + [e], sh.taken,
          if sh.worker.Exited? then sh.late + [e] else sh.late)
  }

  function Popped(sh: Shard): Shard
    requires sh.queue != []
  {
    Shard(sh.queue[1..], Taken(sh.queue[0]), sh.windows, sh.accepted, sh.taken + [sh.queue[0]], sh.late)
  }

  function Opened(sh: Shard): Shard
    requires sh.worker.Taken?
  {
    sh.(worker := Applying(sh.worker.e, 0),
        windows := if sh.worker.e.pair in sh.windows then sh.windows else sh.windows[sh.worker.e.pair := NEW_WINDOWS])
  }

  function Applied(sh: Shard): Shard
    requires sh.worker.Applying? && sh.worker.next < GRANULARITIES && sh.worker.e.pair in sh.windows
    requires |sh.windows[sh.worker.e.pair]| == GRANULARITIES
  {
    sh.(worker := Applying(sh.worker.e, sh.worker.next + 1),
        windows := WithOp(sh.windows, sh.worker.e.pair, sh.worker.next, Update(sh.worker.e.trade)))
  }

  /** What a finalization of window `k` of pair `p` returns. */
  function FinalizedBy(sh: Shard, p: string, k: nat, watermark: u64): seq<Candle>
    requires p in sh.windows && k < |sh.windows[p]|
  {
    var candles := sh.windows[p][k].state.candles;
    Emission(candles, ClosingKeys(candles, watermark))
  }

  function Next(c: Config, s: System, a: Action): System
    requires c.Valid() && |s.shards| == c.numShards && Enabled(c, s, a)
  {
    match a
    case Check(e) => s.(entering := s.entering + multiset{e})
    case Push(e) =>
      var i := c.ShardFor(e.pair);
      s.(shards := s.shards[i := Pushed(s.shards[i], e)], entering := s.entering - multiset{e})
    case Take(i) => s.(shards := s.shards[i := Popped(s.shards[i])])
    case Open(i) => s.(shards := s.shards[i := Opened(s.shards[i])])
    case Apply(i) => s.(shards := s.shards[i := Applied(s.shards[i])])
    case Finish(i) => s.(shards := s.shards[i := s.shards[i].(worker := Waiting)])
    case Exit(i) => s.(shards := s.shards[i := s.shards[i].(worker := Exited)])
    case FinalizeWindow(i, p, k, watermark) =>
      s.(shards := s.shards[i := s.shards[i].(windows := WithOp(s.shards[i].windows, p, k, Finalize(watermark)))],
         inHand := Tagged(p, k, FinalizedBy(s.shards[i], p, k, watermark)))
    case Emit => s.(published := s.published + [s.inHand[0]], inHand := s.inHand[1..])
    case FinalizerExit => s.(finalizing := false)
    case Stop => s.(running := false)
  }

  ghost predicate Runs(c: Config, s: System, actions: seq<Action>, s': System)
    requires c.Valid() && |s.shards| == c.numShards
    decreases |actions|
  {
    if actions == [] then s' == s
    else Enabled(c, s, actions[0]) && Runs(c, Next(c, s, actions[0]), actions[1..], s')
  }

  ghost predicate Reachable(c: Config, s': System)
    requires c.Valid()
  {
    exists s, actions :: Initial(c, s) && Runs(c, s, actions, s')
  }

  // ---------------------------------------------------------------- views

  function TradesFor(es: seq<Event>, p: string): seq<Trade> {
    if es == [] then []
    else
      var last := es[|es| - 1];
      TradesFor(es[..|es| - 1], p) + if last.pair == p then [last.trade] else []
  }

  /** The popped events that window `k` of their pair has absorbed. */
  function Absorbed(sh: Shard, k: nat): seq<Event> {
    if sh.taken != [] && (sh.worker.Taken? || (sh.worker.Applying? && sh.worker.next <= k))
    then sh.taken[..|sh.taken| - 1] else sh.taken
  }

  /** The event being worked on, as far as window `k` has not absorbed it. */
  function InHand(sh: Shard, k: nat): seq<Event> {
    if sh.worker.Taken? || (sh.worker.Applying? && sh.worker.next <= k) then [sh.worker.e] else []
  }

  function PublishedFor(out: seq<Published>, p: string, k: nat): seq<Candle> {
    if out == [] then []
    else
      var last := out[|out| - 1];
      PublishedFor(out[..|out| - 1], p, k) + if last.pair == p && last.granularity == k then [last.candle] else []
  }

  // ---------------------------------------------------------------- invariant

  ghost predicate WindowInv(sh: Shard, out: seq<Published>, p: string, k: nat)
    requires k < GRANULARITIES
  {
    if p in sh.windows then
      && |sh.windows[p]| == GRANULARITIES
      && RunOps(SizeOf(k), sh.windows[p][k].history) == Run(sh.windows[p][k].state, PublishedFor(out, p, k))
      && Trades(sh.windows[p][k].history) == TradesFor(Absorbed(sh, k), p)
    else
      TradesFor(Absorbed(sh, k), p) == [] && PublishedFor(out, p, k) == []
  }

  ghost predicate QueueInv(c: Config, i: nat, sh: Shard, running: bool)
    requires c.Valid()
  {
    && sh.taken + sh.queue == sh.accepted
    && (forall e :: e in sh.accepted ==> c.ShardFor(e.pair) == i)
    && (sh.worker.Taken? || sh.worker.Applying? ==> sh.taken != [] && sh.taken[|sh.taken| - 1] == sh.worker.e)
    && (sh.worker.Applying? ==> sh.worker.next <= GRANULARITIES && sh.worker.e.pair in sh.windows)
    && (if sh.worker.Exited? then !running && sh.queue == sh.late else sh.late == [])
  }

  lemma {:induction false} PublishedForConcat(xs: seq<Published>, ys: seq<Published>, p: string, k: nat)
    ensures PublishedFor(xs + ys, p, k) == PublishedFor(xs, p, k) + PublishedFor(ys, p, k)
  {
    if ys == [] {
      assert xs + ys == xs;
    } else {
      assert (xs + ys)[..|xs + ys| - 1] == xs + ys[..|ys| - 1];
      PublishedForConcat(xs, ys[..|ys| - 1], p, k);
    }
  }

  lemma {:induction false} PublishedForTagged(p: string, k: nat, cs: seq<Candle>, p': string, k': nat)
    ensures PublishedFor(Tagged(p, k, cs), p', k') == if p == p' && k == k' then cs else []
  {
    if cs != [] {
      var tagged := Tagged(p, k, cs);
      assert tagged[..|tagged| - 1] == Tagged(p, k, cs[..|cs| - 1]);
      PublishedForTagged(p, k, cs[..|cs| - 1], p', k');
    }
  }

  lemma TradesForSnoc(es: seq<Event>, e: Event, p: string)
    ensures TradesFor(es + [e], p) == TradesFor(es, p) + if e.pair == p then [e.trade] else []
  {
    assert (es + [e])[..|es|] == es;
  }

  ghost predicate ShardInv(c: Config, i: nat, sh: Shard, running: bool, out: seq<Published>)
    requires c.Valid()
  {
    && QueueInv(c, i, sh, running)
    && (forall p, k :: c.ShardFor(p) == i && 0 <= k < GRANULARITIES ==> WindowInv(sh, out, p, k))
    && (forall p :: p in sh.windows ==> c.ShardFor(p) == i)
  }

  ghost predicate Inv(c: Config, s: System)
    requires c.Valid()
  {
    && |s.shards| == c.numShards
    && forall i :: 0 <= i < |s.shards| ==> ShardInv(c, i, s.shards[i], s.running, s.Finalized())
  }

  lemma InitialInv(c: Config, s: System)
    requires c.Valid() && Initial(c, s)
    ensures Inv(c, s)
  {}

  lemma PushInv(c: Config, i: nat, sh: Shard, running: bool, out: seq<Published>, e: Event)
    requires c.Valid() && ShardInv(c, i, sh, running, out) && c.ShardFor(e.pair) == i
    ensures ShardInv(c, i, Pushed(sh, e), running, out)
  {
    var sh' := Pushed(sh, e);
    assert sh'.taken + sh'.queue == sh'.accepted;
    forall p, k | c.ShardFor(p) == i && 0 <= k < GRANULARITIES
      ensures WindowInv(sh', out, p, k)
    {
      assert WindowInv(sh, out, p, k) && Absorbed(sh', k) == Absorbed(sh, k);
    }
  }

  lemma TakeInv(c: Config, i: nat, sh: Shard, running: bool, out: seq<Published>)
    requires c.Valid() && ShardInv(c, i, sh, running, out)
    requires sh.worker == Waiting && sh.queue != []
    ensures ShardInv(c, i, Popped(sh), running, out)
  {
    var sh' := Popped(sh);
    assert sh'.taken + sh'.queue == sh'.accepted;
    forall p, k | c.ShardFor(p) == i && 0 <= k < GRANULARITIES
      ensures WindowInv(sh', out, p, k)
    {
      assert WindowInv(sh, out, p, k) && Absorbed(sh', k) == Absorbed(sh, k);
    }
  }

  lemma OpenInv(c: Config, i: nat, sh: Shard, running: bool, out: seq<Published>)
    requires c.Valid() && ShardInv(c, i, sh, running, out) && sh.worker.Taken?
    ensures ShardInv(c, i, Opened(sh), running, out)
  {
    var sh' := Opened(sh);
    assert sh.worker.e in sh.accepted;
    forall p, k | c.ShardFor(p) == i && 0 <= k < GRANULARITIES
      ensures WindowInv(sh', out, p, k)
    {
      assert WindowInv(sh, out, p, k) && Absorbed(sh', k) == Absorbed(sh, k);
    }
  }

  lemma ApplyInv(c: Config, i: nat, sh: Shard, running: bool, out: seq<Published>)
    requires c.Valid() && ShardInv(c, i, sh, running, out)
    requires sh.worker.Applying? && sh.worker.next < GRANULARITIES
    requires |sh.windows[sh.worker.e.pair]| == GRANULARITIES
    ensures ShardInv(c, i, Applied(sh), running, out)
  {
    var sh' := Applied(sh);
    var e, at := sh.worker.e, sh.worker.next;
    var before := sh.taken[..|sh.taken| - 1];
    assert sh.taken == before + [e];
    forall p, k | c.ShardFor(p) == i && 0 <= k < GRANULARITIES
      ensures WindowInv(sh', out, p, k)
    {
      assert WindowInv(sh, out, p, k);
      if k == at {
        TradesForSnoc(before, e, p);
        if p == e.pair {
          ExtendHistory(k, sh.windows[p][k], PublishedFor(out, p, k), Update(e.trade));
        }
      }
    }
  }

  lemma ExtendHistory(k: nat, w: Window, emitted: seq<Candle>, op: Op)
    requires k < GRANULARITIES && RunOps(SizeOf(k), w.history) == Run(w.state, emitted)
    ensures RunOps(SizeOf(k), w.history + [op]) == Step(SizeOf(k), Run(w.state, emitted), op)
    ensures RunOps(SizeOf(k), w.history + [op]).state == Step(SizeOf(k), Run(w.state, []), op).state
    ensures Trades(w.history + [op]) == Trades(w.history) + if op.Update? then [op.trade] else []
  {
    RunSnoc(SizeOf(k), w.history, op);
    assert (w.history + [op])[..|w.history|] == w.history;
  }

  lemma WorkerMovesInv(c: Config, i: nat, sh: Shard, running: bool, out: seq<Published>, worker: Worker)
    requires c.Valid() && ShardInv(c, i, sh, running, out)
    requires || (sh.worker.Applying? && sh.worker.next == GRANULARITIES && worker == Waiting)
             || (sh.worker == Waiting && !running && sh.queue == [] && worker == Exited)
    ensures ShardInv(c, i, sh.(worker := worker), running, out)
  {
    var sh' := sh.(worker := worker);
    forall p, k | c.ShardFor(p) == i && 0 <= k < GRANULARITIES
      ensures WindowInv(sh', out, p, k)
    {
      assert WindowInv(sh, out, p, k) && Absorbed(sh', k) == Absorbed(sh, k);
    }
  }

  /** Publishing candles of another window changes nothing for this one. */
  lemma OtherPublished(sh: Shard, out: seq<Published>, more: seq<Published>, p: string, k: nat)
    requires k < GRANULARITIES && WindowInv(sh, out, p, k) && PublishedFor(more, p, k) == []
    ensures WindowInv(sh, out + more, p, k)
  {
    PublishedForConcat(out, more, p, k);
  }

  lemma FinalizeInv(c: Config, i: nat, sh: Shard, running: bool, out: seq<Published>,
                    p: string, k: nat, watermark: u64)
    requires c.Valid() && ShardInv(c, i, sh, running, out)
    requires p in sh.windows && k < GRANULARITIES && k < |sh.windows[p]|
    ensures ShardInv(c, i, sh.(windows := WithOp(sh.windows, p, k, Finalize(watermark))), running,
                     out + Tagged(p, k, FinalizedBy(sh, p, k, watermark)))
  {
    var sh' := sh.(windows := WithOp(sh.windows, p, k, Finalize(watermark)));
    var more := Tagged(p, k, FinalizedBy(sh, p, k, watermark));
    forall p', k' | c.ShardFor(p') == i && 0 <= k' < GRANULARITIES
      ensures WindowInv(sh', out + more, p', k')
    {
      assert WindowInv(sh, out, p', k') && Absorbed(sh', k') == Absorbed(sh, k');
      PublishedForTagged(p, k, FinalizedBy(sh, p, k, watermark), p', k');
      PublishedForConcat(out, more, p', k');
      if p' == p && k' == k {
        ExtendHistory(k, sh.windows[p][k], PublishedFor(out, p, k), Finalize(watermark));
      }
    }
  }

  /** The frame of a step on one shard: the other shards keep their invariant. */
  lemma OneShardMoves(c: Config, s: System, s': System, i: nat)
    requires c.Valid() && Inv(c, s) && i < |s.shards|
    requires |s'.shards| == |s.shards| && forall j :: 0 <= j < |s.shards| && j != i ==> s'.shards[j] == s.shards[j]
    requires s'.running == s.running && s'.Finalized() == s.Finalized()
    requires ShardInv(c, i, s'.shards[i], s.running, s.Finalized())
    ensures Inv(c, s')
  {
    forall j | 0 <= j < |s'.shards|
      ensures ShardInv(c, j, s'.shards[j], s'.running, s'.Finalized())
    {
      assert j != i ==> ShardInv(c, j, s.shards[j], s.running, s.Finalized());
    }
  }

  lemma PushStepInv(c: Config, s: System, e: Event)
    requires c.Valid() && Inv(c, s) && Enabled(c, s, Push(e))
    ensures Inv(c, Next(c, s, Push(e)))
  {
    var i := c.ShardFor(e.pair);
    PushInv(c, i, s.shards[i], s.running, s.Finalized(), e);
    OneShardMoves(c, s, Next(c, s, Push(e)), i);
  }

  lemma TakeStepInv(c: Config, s: System, i: nat)
    requires c.Valid() && Inv(c, s) && Enabled(c, s, Take(i))
    ensures Inv(c, Next(c, s, Take(i)))
  {
    TakeInv(c, i, s.shards[i], s.running, s.Finalized());
    OneShardMoves(c, s, Next(c, s, Take(i)), i);
  }

  lemma OpenStepInv(c: Config, s: System, i: nat)
    requires c.Valid() && Inv(c, s) && Enabled(c, s, Open(i))
    ensures Inv(c, Next(c, s, Open(i)))
  {
    OpenInv(c, i, s.shards[i], s.running, s.Finalized());
    OneShardMoves(c, s, Next(c, s, Open(i)), i);
  }

  lemma ApplyStepInv(c: Config, s: System, i: nat)
    requires c.Valid() && Inv(c, s) && Enabled(c, s, Apply(i))
    ensures Inv(c, Next(c, s, Apply(i)))
  {
    ApplyInv(c, i, s.shards[i], s.running, s.Finalized());
    OneShardMoves(c, s, Next(c, s, Apply(i)), i);
  }

  lemma FinishStepInv(c: Config, s: System, i: nat)
    requires c.Valid() && Inv(c, s) && Enabled(c, s, Finish(i))
    ensures Inv(c, Next(c, s, Finish(i)))
  {
    WorkerMovesInv(c, i, s.shards[i], s.running, s.Finalized(), Waiting);
    OneShardMoves(c, s, Next(c, s, Finish(i)), i);
  }

  lemma ExitStepInv(c: Config, s: System, i: nat)
    requires c.Valid() && Inv(c, s) && Enabled(c, s, Exit(i))
    ensures Inv(c, Next(c, s, Exit(i)))
  {
    WorkerMovesInv(c, i, s.shards[i], s.running, s.Finalized(), Exited);
    OneShardMoves(c, s, Next(c, s, Exit(i)), i);
  }

  /** Finalizing a window of another shard changes nothing for the windows of this one. */
  lemma OtherShardFinalized(c: Config, j: nat, sh: Shard, running: bool, out: seq<Published>,
                            p: string, k: nat, cs: seq<Candle>)
    requires c.Valid() && ShardInv(c, j, sh, running, out) && c.ShardFor(p) != j
    ensures ShardInv(c, j, sh, running, out + Tagged(p, k, cs))
  {
    forall p', k' | c.ShardFor(p') == j && 0 <= k' < GRANULARITIES
      ensures WindowInv(sh, out + Tagged(p, k, cs), p', k')
    {
      assert WindowInv(sh, out, p', k');
      PublishedForTagged(p, k, cs, p', k');
      OtherPublished(sh, out, Tagged(p, k, cs), p', k');
    }
  }

  lemma FinalizeStepInv(c: Config, s: System, i: nat, p: string, k: nat, watermark: u64)
    requires c.Valid() && Inv(c, s) && Enabled(c, s, FinalizeWindow(i, p, k, watermark))
    ensures Inv(c, Next(c, s, FinalizeWindow(i, p, k, watermark)))
  {
    var s' := Next(c, s, FinalizeWindow(i, p, k, watermark));
    var cs := FinalizedBy(s.shards[i], p, k, watermark);
    assert s.Finalized() == s.published;
    forall j | 0 <= j < |s.shards|
      ensures ShardInv(c, j, s'.shards[j], s'.running, s'.Finalized())
    {
      assert ShardInv(c, i, s.shards[i], s.running, s.published);
      assert ShardInv(c, j, s.shards[j], s.running, s.published);
      if j == i {
        FinalizeInv(c, i, s.shards[i], s.running, s.published, p, k, watermark);
      } else {
        OtherShardFinalized(c, j, s.shards[j], s.running, s.published, p, k, cs);
      }
    }
  }

  lemma EmitStepInv(c: Config, s: System)
    requires c.Valid() && Inv(c, s) && Enabled(c, s, Emit)
    ensures Inv(c, Next(c, s, Emit))
  {
    assert Next(c, s, Emit).Finalized() == s.Finalized();
  }

  lemma StopStepInv(c: Config, s: System)
    requires c.Valid() && Inv(c, s) && Enabled(c, s, Stop)
    ensures Inv(c, Next(c, s, Stop))
  {
    var s' := Next(c, s, Stop);
    forall j | 0 <= j < |s'.shards|
      ensures ShardInv(c, j, s'.shards[j], s'.running, s'.Finalized())
    {
      assert ShardInv(c, j, s.shards[j], s.running, s.Finalized());
    }
  }

  lemma InvIsPreserved(c: Config, s: System, a: Action)
    requires c.Valid() && Inv(c, s) && Enabled(c, s, a)
    ensures Inv(c, Next(c, s, a))
  {
    match a
    case Check(e) =>
    case Push(e) => PushStepInv(c, s, e);
    case Take(i) => TakeStepInv(c, s, i);
    case Open(i) => OpenStepInv(c, s, i);
    case Apply(i) => ApplyStepInv(c, s, i);
    case Finish(i) => FinishStepInv(c, s, i);
    case Exit(i) => ExitStepInv(c, s, i);
    case FinalizeWindow(i, p, k, watermark) => FinalizeStepInv(c, s, i, p, k, watermark);
    case Emit => EmitStepInv(c, s);
    case FinalizerExit =>
    case Stop => StopStepInv(c, s);
  }

  lemma {:induction false} InvHoldsAlongRuns(c: Config, s: System, actions: seq<Action>, s': System)
    requires c.Valid() && Inv(c, s) && Runs(c, s, actions, s')
    ensures Inv(c, s')
    decreases |actions|
  {
    if actions != [] {
      InvIsPreserved(c, s, actions[0]);
      InvHoldsAlongRuns(c, Next(c, s, actions[0]), actions[1..], s');
    }
  }

  lemma ReachableInv(c: Config, s': System)
    requires c.Valid() && Reachable(c, s')
    ensures Inv(c, s')
  {
    var s, actions :| Initial(c, s) && Runs(c, s, actions, s');
    InitialInv(c, s);
    InvHoldsAlongRuns(c, s, actions, s');
  }

  // ---------------------------------------------------------------- order and ownership

  lemma {:induction false} TradesForConcat(xs: seq<Event>, ys: seq<Event>, p: string)
    ensures TradesFor(xs + ys, p) == TradesFor(xs, p) + TradesFor(ys, p)
  {
    if ys == [] {
      assert xs + ys == xs;
    } else {
      assert (xs + ys)[..|xs + ys| - 1] == xs + ys[..|ys| - 1];
      TradesForConcat(xs, ys[..|ys| - 1], p);
    }
  }

  /** In every reachable state and for every window of a pair: the trades it has absorbed, the one in the
      worker's hand and the queued ones are the pair's accepted trades in order; no other shard has any. */
  lemma TradesKeepTheirOrder(c: Config, s: System, p: string, k: nat)
    requires c.Valid() && Reachable(c, s) && k < GRANULARITIES
    ensures |s.shards| == c.numShards
    ensures
      var sh := s.shards[c.ShardFor(p)];
      TradesFor(Absorbed(sh, k), p) + TradesFor(InHand(sh, k), p) + TradesFor(sh.queue, p) == TradesFor(sh.accepted, p)
    ensures forall j, e :: 0 <= j < |s.shards| && e in s.shards[j].accepted && e.pair == p ==> j == c.ShardFor(p)
  {
    ReachableInv(c, s);
    var i := c.ShardFor(p);
    var sh := s.shards[i];
    assert ShardInv(c, i, sh, s.running, s.Finalized());
    assert sh.taken == Absorbed(sh, k) + InHand(sh, k);
    TradesForConcat(Absorbed(sh, k), InHand(sh, k), p);
    TradesForConcat(sh.taken, sh.queue, p);
  }

  // ---------------------------------------------------------------- candles

  /** One window as the system shows it: its live state, what has been published for it, and what the
      finalizer has in hand to publish next. */
  function SystemWindow(c: Config, s: System, p: string, k: nat): Run
    requires c.Valid() && |s.shards| == c.numShards
  {
    var windows := s.shards[c.ShardFor(p)].windows;
    Run(if p in windows && k < |windows[p]| then windows[p][k].state else NEW_WINDOW.state,
        PublishedFor(s.Finalized(), p, k))
  }

  function AbsorbedTrades(c: Config, s: System, p: string, k: nat): seq<Trade>
    requires c.Valid() && |s.shards| == c.numShards
  {
    TradesFor(Absorbed(s.shards[c.ShardFor(p)], k), p)
  }

  /** The history of calls behind one window. */
  lemma HistoryOf(c: Config, s: System, p: string, k: nat) returns (ops: seq<Op>)
    requires c.Valid() && Reachable(c, s) && k < GRANULARITIES
    ensures |s.shards| == c.numShards
    ensures Trades(ops) == AbsorbedTrades(c, s, p, k)
    ensures SystemWindow(c, s, p, k) == RunOps(SizeOf(k), ops)
  {
    ReachableInv(c, s);
    var sh := s.shards[c.ShardFor(p)];
    assert ShardInv(c, c.ShardFor(p), sh, s.running, s.Finalized());
    assert WindowInv(sh, s.Finalized(), p, k);
    ops := if p in sh.windows then sh.windows[p][k].history else [];
  }

  /** Under every interleaving of producers, workers, finalizer and shutdown, a window's published candles,
      those the finalizer has in hand and its live candle merge to the batch candle of the trades of its pair absorbed so far. */
  lemma SystemCandlesAreBatches(c: Config, s: System, p: string, k: nat, w: u64)
    requires c.Valid() && Reachable(c, s) && k < GRANULARITIES
    ensures |s.shards| == c.numShards
    ensures
      var r, ts := SystemWindow(c, s, p, k), InWindow(SizeOf(k), AbsorbedTrades(c, s, p, k), w);
      && (Fragments(r, w) == [] <==> ts == [])
      && (ts != [] ==> (
            MergeAll(Fragments(r, w)) == BatchCandle(SizeOf(k), w, ts).(provisional := w in r.state.candles)))
  {
    var ops := HistoryOf(c, s, p, k);
    MergedFragmentsAreBatch(SizeOf(k), ops, w);
  }

  /** The number of shards and the hash that assigns pairs to them make no difference to any candle. */
  lemma ShardingIsInvisible(c1: Config, s1: System, c2: Config, s2: System, p: string, k: nat, w: u64)
    requires c1.Valid() && Reachable(c1, s1) && c2.Valid() && Reachable(c2, s2) && k < GRANULARITIES
    requires |s1.shards| == c1.numShards && |s2.shards| == c2.numShards
    requires AbsorbedTrades(c1, s1, p, k) == AbsorbedTrades(c2, s2, p, k)
    ensures WindowOhlcv(SystemWindow(c1, s1, p, k), w) == WindowOhlcv(SystemWindow(c2, s2, p, k), w)
  {
    SystemCandlesAreBatches(c1, s1, p, k, w);
    SystemCandlesAreBatches(c2, s2, p, k, w);
  }

  /** No trade of the pair has reached some of its windows and not yet the others. */
  ghost predicate NoneHalfApplied(c: Config, s: System, p: string)
    requires c.Valid() && |s.shards| == c.numShards
  {
    var worker := s.shards[c.ShardFor(p)].worker;
    worker.Applying? && worker.e.pair == p ==> worker.next == 0 || worker.next == GRANULARITIES
  }

  lemma SameTradesEverywhere(c: Config, s: System, p: string, j: nat, k: nat)
    requires c.Valid() && Reachable(c, s) && j < GRANULARITIES && k < GRANULARITIES
    requires |s.shards| == c.numShards && NoneHalfApplied(c, s, p)
    ensures AbsorbedTrades(c, s, p, j) == AbsorbedTrades(c, s, p, k)
  {
    ReachableInv(c, s);
    var sh := s.shards[c.ShardFor(p)];
    assert ShardInv(c, c.ShardFor(p), sh, s.running, s.Finalized());
    if sh.worker.Applying? && sh.worker.e.pair != p {
      assert sh.taken == sh.taken[..|sh.taken| - 1] + [sh.worker.e];
      TradesForSnoc(sh.taken[..|sh.taken| - 1], sh.worker.e, p);
    }
  }

  /** In every reachable state without a half-applied trade, the totals of a coarse window are those of
      the finer windows inside it, whatever has been finalized and whatever order the trades came in. */
  lemma GranularitiesRollUp(c: Config, s: System, p: string, fine: nat, coarse: nat, w: u64)
    requires c.Valid() && Reachable(c, s) && fine <= coarse < GRANULARITIES
    requires |s.shards| == c.numShards && NoneHalfApplied(c, s, p) && w % SizeOf(coarse) == 0
    ensures TotalsIn(WindowOhlcv(SystemWindow(c, s, p, coarse), w))
         == RolledTotals(SizeOf(fine), SystemWindow(c, s, p, fine), w, w + SizeOf(coarse))
  {
    GranularitiesAreNested(fine, coarse);
    SameTradesEverywhere(c, s, p, fine, coarse);
    var fineOps := HistoryOf(c, s, p, fine);
    var coarseOps := HistoryOf(c, s, p, coarse);
    RollUpTotals(SizeOf(fine), SizeOf(coarse), fineOps, coarseOps, w);
  }

  /** If the trades came in time order, open and close roll up as well. */
  lemma GranularitiesRollUpInTimeOrder(c: Config, s: System, p: string, fine: nat, coarse: nat, w: u64)
    requires c.Valid() && Reachable(c, s) && fine <= coarse < GRANULARITIES
    requires |s.shards| == c.numShards && NoneHalfApplied(c, s, p) && w % SizeOf(coarse) == 0
    requires InTimeOrder(AbsorbedTrades(c, s, p, fine))
    ensures WindowOhlcv(SystemWindow(c, s, p, coarse), w)
         == RolledOhlcv(SizeOf(fine), SystemWindow(c, s, p, fine), w, w + SizeOf(coarse))
  {
    GranularitiesAreNested(fine, coarse);
    SameTradesEverywhere(c, s, p, fine, coarse);
    var fineOps := HistoryOf(c, s, p, fine);
    var coarseOps := HistoryOf(c, s, p, coarse);
    RollUpInTimeOrder(SizeOf(fine), SizeOf(coarse), fineOps, coarseOps, w);
  }
}

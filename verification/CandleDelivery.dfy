/** What goes into the candle system and what comes out of it: every pushed trade is kept, and a finalization
    publishes exactly the closed candles (on_trade, shard_loop and finalize_loop in
    state/candle_cpp/src/candle_worker.cpp). */
module CandleDelivery {
  import opened Words
  import opened Candles
  import opened CandleWindows
  import opened CandleWorkers
  import opened CandleShutdown

  // ---------------------------------------------------------------- what goes in

  /** The trades pushed to a shard by a list of actions. */
  function PushesTo(c: Config, actions: seq<Action>, i: nat): seq<Event>
    requires c.Valid()
  {
    if actions == [] then []
    else
      var rest := PushesTo(c, actions[1..], i);
      if actions[0].Push? && c.ShardFor(actions[0].e.pair) == i then [actions[0].e] + rest else rest
  }

  /** The trades of a pair that a list of actions pushes, in order. */
  function PushedTrades(actions: seq<Action>, p: string): seq<Trade> {
    if actions == [] then []
    else
      var rest := PushedTrades(actions[1..], p);
      if actions[0].Push? && actions[0].e.pair == p then [actions[0].e.trade] + rest else rest
  }

  lemma StepAccepts(c: Config, s: System, a: Action, i: nat)
    requires c.Valid() && |s.shards| == c.numShards && i < c.numShards && Enabled(c, s, a)
    ensures |Next(c, s, a).shards| == c.numShards
    ensures Next(c, s, a).shards[i].accepted ==
      if a.Push? && c.ShardFor(a.e.pair) == i then s.shards[i].accepted + [a.e] else s.shards[i].accepted
  {}

  lemma Regroup(xs: seq<Event>, e: Event, ys: seq<Event>)
    ensures (xs + [e]) + ys == xs + ([e] + ys)
  {}

  /** Along every run a shard accepts exactly what is pushed to it, in order: nothing is lost or invented. */
  lemma {:induction false} AcceptedArePushed(c: Config, s: System, actions: seq<Action>, s': System, i: nat)
    requires c.Valid() && |s.shards| == c.numShards && i < c.numShards && Runs(c, s, actions, s')
    ensures |s'.shards| == c.numShards
    ensures s'.shards[i].accepted == s.shards[i].accepted + PushesTo(c, actions, i)
    decreases |actions|
  {
    if actions == [] {
      assert s.shards[i].accepted + [] == s.shards[i].accepted;
    } else {
      var s1 := AfterFirst(c, s, actions, s');
      StepAccepts(c, s, actions[0], i);
      AcceptedArePushed(c, s1, actions[1..], s', i);
      if actions[0].Push? {
        Regroup(s.shards[i].accepted, actions[0].e, PushesTo(c, actions[1..], i));
      }
    }
  }

  lemma {:induction false} PushedForPair(c: Config, actions: seq<Action>, p: string)
    requires c.Valid()
    ensures TradesFor(PushesTo(c, actions, c.ShardFor(p)), p) == PushedTrades(actions, p)
    decreases |actions|
  {
    if actions != [] {
      var i, rest := c.ShardFor(p), PushesTo(c, actions[1..], c.ShardFor(p));
      PushedForPair(c, actions[1..], p);
      if actions[0].Push? && c.ShardFor(actions[0].e.pair) == i {
        TradesForConcat([actions[0].e], rest, p);
        TradesForSnoc([], actions[0].e, p);
        assert [] + [actions[0].e] == [actions[0].e];
      }
    }
  }

  /** In every run from the start and for every window of a pair: what the window has absorbed, what its
      worker has in hand and what is queued are the trades pushed for the pair, in the order of the pushes. */
  lemma EveryPushIsKept(c: Config, start: System, actions: seq<Action>, s: System, p: string, k: nat)
    requires c.Valid() && Initial(c, start) && Runs(c, start, actions, s) && k < GRANULARITIES
    ensures |s.shards| == c.numShards
    ensures
      var sh := s.shards[c.ShardFor(p)];
      AbsorbedTrades(c, s, p, k) + TradesFor(InHand(sh, k), p) + TradesFor(sh.queue, p) == PushedTrades(actions, p)
  {
    AcceptedArePushed(c, start, actions, s, c.ShardFor(p));
    TradesKeepTheirOrder(c, s, p, k);
    PushedForPair(c, actions, p);
    assert [] + PushesTo(c, actions, c.ShardFor(p)) == PushesTo(c, actions, c.ShardFor(p));
  }

  function CheckIn(a: Action): multiset<Event> { if a.Check? then multiset{a.e} else multiset{} }

  function PushIn(a: Action): multiset<Event> { if a.Push? then multiset{a.e} else multiset{} }

  function Checked(actions: seq<Action>): multiset<Event> {
    if actions == [] then multiset{} else CheckIn(actions[0]) + Checked(actions[1..])
  }

  function AllPushed(actions: seq<Action>): multiset<Event> {
    if actions == [] then multiset{} else PushIn(actions[0]) + AllPushed(actions[1..])
  }

  lemma StepKeepsCalls(c: Config, s: System, a: Action)
    requires c.Valid() && |s.shards| == c.numShards && Enabled(c, s, a)
    ensures Next(c, s, a).entering + PushIn(a) == s.entering + CheckIn(a)
  {}

  lemma Balance(before: multiset<Event>, inOne: multiset<Event>, mid: multiset<Event>, outOne: multiset<Event>,
                after: multiset<Event>, outRest: multiset<Event>, inRest: multiset<Event>)
    requires mid + outOne == before + inOne && after + outRest == mid + inRest
    ensures after + (outOne + outRest) == before + (inOne + inRest)
  {
    assert after + (outOne + outRest) == (after + outRest) + outOne;
    assert (mid + inRest) + outOne == (mid + outOne) + inRest;
    assert (before + inOne) + inRest == before + (inOne + inRest);
  }

  /** Each on_trade call that passed the running check is under way until its one push. */
  lemma {:induction false} CallsPushOnce(c: Config, s: System, actions: seq<Action>, s': System)
    requires c.Valid() && |s.shards| == c.numShards && Runs(c, s, actions, s')
    ensures s'.entering + AllPushed(actions) == s.entering + Checked(actions)
    decreases |actions|
  {
    if actions != [] {
      var s1 := AfterFirst(c, s, actions, s');
      StepKeepsCalls(c, s, actions[0]);
      CallsPushOnce(c, s1, actions[1..], s');
      Balance(s.entering, CheckIn(actions[0]), s1.entering, PushIn(actions[0]),
              s'.entering, AllPushed(actions[1..]), Checked(actions[1..]));
    }
  }

  // ---------------------------------------------------------------- what comes out

  /** Exactly when the finalizer, with nothing in hand, may finalize a window: once the window has absorbed a
      trade with a nonzero timestamp. */
  lemma FinalizerSkipsUntraded(c: Config, s: System, p: string, k: nat, watermark: u64)
    requires c.Valid() && Reachable(c, s) && k < GRANULARITIES
    requires s.finalizing && s.inHand == []
    ensures |s.shards| == c.numShards
    ensures Enabled(c, s, FinalizeWindow(c.ShardFor(p), p, k, watermark))
      <==> exists t :: t in AbsorbedTrades(c, s, p, k) && t.timestamp != 0
  {
    ReachableInv(c, s);
    var sh := s.shards[c.ShardFor(p)];
    assert ShardInv(c, c.ShardFor(p), sh, s.running, s.Finalized());
    assert WindowInv(sh, s.Finalized(), p, k);
    if p in sh.windows {
      LastTradeTimeIsLatest(SizeOf(k), sh.windows[p][k].history);
    }
  }

  /** Publishing what is in hand, one candle at a time. */
  lemma {:induction false} EmitsAll(c: Config, s: System, n: nat) returns (s': System)
    requires c.Valid() && |s.shards| == c.numShards && n == |s.inHand|
    ensures Runs(c, s, seq(n, _ => Emit), s')
    ensures s' == s.(published := s.published + s.inHand, inHand := [])
    decreases n
  {
    if n == 0 {
      s' := s;
      assert s.inHand == [] && s.published + s.inHand == s.published;
    } else {
      var s1 := Next(c, s, Emit);
      s' := EmitsAll(c, s1, n - 1);
      assert s1.published + s1.inHand == s.published + s.inHand;
      RunsOneMore(c, s, Emit, seq(n - 1, _ => Emit), s');
      assert [Emit] + seq(n - 1, _ => Emit) == seq(n, _ => Emit);
    }
  }

  /** `out` holds exactly the candles of `before` that have closed by the watermark, marked final and in
      increasing open time, and `after` exactly the later ones as they were. */
  ghost predicate ClosesExactly(before: map<u64, Candle>, watermark: u64, out: seq<Candle>, after: map<u64, Candle>) {
    && IncreasingOpenTimes(out)
    && (forall d :: d in out <==> exists w :: w in before && before[w].closeTime <= watermark && d == before[w].(provisional := false))
    && (forall w :: w in after <==> w in before && before[w].closeTime > watermark)
    && (forall w :: w in after ==> after[w] == before[w])
  }

  lemma FinalizedByCloses(c: Config, s: System, p: string, k: nat, watermark: u64)
    requires c.Valid() && Reachable(c, s) && k < GRANULARITIES
    requires |s.shards| == c.numShards && p in s.shards[c.ShardFor(p)].windows
    ensures |s.shards[c.ShardFor(p)].windows[p]| == GRANULARITIES
    ensures
      var sh := s.shards[c.ShardFor(p)];
      ClosesExactly(sh.windows[p][k].state.candles, watermark, FinalizedBy(sh, p, k, watermark),
                    WithOp(sh.windows, p, k, Finalize(watermark))[p][k].state.candles)
  {
    ReachableInv(c, s);
    var sh := s.shards[c.ShardFor(p)];
    assert ShardInv(c, c.ShardFor(p), sh, s.running, s.Finalized());
    assert WindowInv(sh, s.Finalized(), p, k);
    var w := sh.windows[p][k];
    ExtendHistory(k, w, PublishedFor(s.Finalized(), p, k), Finalize(watermark));
    FinalizeIsExact(SizeOf(k), w.history, watermark);
  }

  /** A finalization of a traded window, and the publishes that follow it, publish for that window exactly its
      closed candles, publish nothing for any other, and leave exactly the later candles live. */
  lemma FinalizerPublishesClosed(c: Config, s: System, p: string, k: nat, watermark: u64)
      returns (out: seq<Candle>, s': System)
    requires c.Valid() && Reachable(c, s) && k < GRANULARITIES && |s.shards| == c.numShards
    requires s.finalizing && s.inHand == []
    requires exists t :: t in AbsorbedTrades(c, s, p, k) && t.timestamp != 0
    ensures Runs(c, s, [FinalizeWindow(c.ShardFor(p), p, k, watermark)] + seq(|out|, _ => Emit), s')
    ensures s'.inHand == [] && |s'.shards| == c.numShards
    ensures ClosesExactly(SystemWindow(c, s, p, k).state.candles, watermark, out, SystemWindow(c, s', p, k).state.candles)
    ensures forall p', k' ::
              PublishedFor(s'.published, p', k')
              == PublishedFor(s.published, p', k') + if p' == p && k' == k then out else []
  {
    var i := c.ShardFor(p);
    var a := FinalizeWindow(i, p, k, watermark);
    FinalizerSkipsUntraded(c, s, p, k, watermark);
    FinalizedByCloses(c, s, p, k, watermark);
    out := FinalizedBy(s.shards[i], p, k, watermark);
    var s1 := Next(c, s, a);
    TaggedLength(p, k, out);
    s' := EmitsAll(c, s1, |out|);
    RunsOneMore(c, s, a, seq(|out|, _ => Emit), s');
    forall p', k'
      ensures PublishedFor(s'.published, p', k')
           == PublishedFor(s.published, p', k') + if p' == p && k' == k then out else []
    {
      PublishedForConcat(s.published, Tagged(p, k, out), p', k');
      PublishedForTagged(p, k, out, p', k');
    }
  }

  lemma {:induction false} TaggedLength(p: string, k: nat, cs: seq<Candle>)
    ensures |Tagged(p, k, cs)| == |cs|
  {
    if cs != [] { TaggedLength(p, k, cs[..|cs| - 1]); }
  }

  // ---------------------------------------------------------------- the finalizer at the end

  lemma {:induction false} HandIsEmptyAtTheEnd(c: Config, s: System, actions: seq<Action>, s': System)
    requires c.Valid() && |s.shards| == c.numShards && Runs(c, s, actions, s')
    requires s.finalizing || s.inHand == []
    ensures s'.finalizing || s'.inHand == []
    decreases |actions|
  {
    if actions != [] {
      var s1 := AfterFirst(c, s, actions, s');
      HandIsEmptyAtTheEnd(c, s1, actions[1..], s');
    }
  }

  lemma {:induction false} NoFinalizerNoCandles(c: Config, s: System, actions: seq<Action>, s': System)
    requires c.Valid() && |s.shards| == c.numShards && Runs(c, s, actions, s')
    requires !s.finalizing && s.inHand == []
    ensures s'.published == s.published && !s'.finalizing && s'.inHand == []
    decreases |actions|
  {
    if actions != [] {
      var s1 := AfterFirst(c, s, actions, s');
      NoFinalizerNoCandles(c, s1, actions[1..], s');
    }
  }

  /** Once the finalizer has exited nothing is published any more: candles still live then, and those the
      workers go on to make while they drain their queues, are never emitted. */
  lemma LiveCandlesStayUnpublished(c: Config, s: System, actions: seq<Action>, s': System)
    requires c.Valid() && Reachable(c, s) && |s.shards| == c.numShards && !s.finalizing
    requires Runs(c, s, actions, s')
    ensures s'.published == s.published && s'.inHand == []
  {
    var start, before :| Initial(c, start) && Runs(c, start, before, s);
    HandIsEmptyAtTheEnd(c, start, before, s);
    NoFinalizerNoCandles(c, s, actions, s');
  }

  /** After the stop the finalizer can always publish what it has in hand and exit. */
  lemma FinalizerReachesExit(c: Config, s: System) returns (s': System)
    requires c.Valid() && |s.shards| == c.numShards && !s.running && s.finalizing
    ensures Runs(c, s, seq(|s.inHand|, _ => Emit) + [FinalizerExit], s')
    ensures s' == s.(published := s.published + s.inHand, inHand := [], finalizing := false)
  {
    var done := EmitsAll(c, s, |s.inHand|);
    s' := Next(c, done, FinalizerExit);
    RunsOneMore(c, done, FinalizerExit, [], s');
    assert [FinalizerExit] + [] == [FinalizerExit];
    RunsAppend(c, s, seq(|s.inHand|, _ => Emit), done, [FinalizerExit], s');
  }
}

/** The time-windowed aggregator of one pair at one granularity (CandleWindow in
    state/candle_cpp/src/candle_worker.cpp). */
module CandleWindows {
  import opened Words
  import opened Candles

  // ---------------------------------------------------------------- state and steps

  datatype WindowState = WindowState(candles: map<u64, Candle>, lastTradeTime: u64)

  datatype Op = Update(trade: Trade) | Finalize(watermark: u64)

  /** A window's state after some calls, with everything its finalizations returned, in order. */
  datatype Run = Run(state: WindowState, emitted: seq<Candle>)

  function Updated(size: WindowSize, st: WindowState, t: Trade): WindowState {
    var start := WindowStart(size, t.timestamp);
    WindowState(
      st.candles[start := if start !in st.candles then NewCandle(size, start, t)
                          else UpdateCandle(st.candles[start], t)],
      if t.timestamp > st.lastTradeTime then t.timestamp else st.lastTradeTime)
  }

  predicate Closing(c: Candle, watermark: u64) { c.closeTime <= watermark && c.provisional }

  function ClosingKeys(candles: map<u64, Candle>, watermark: u64): set<u64> {
    set k | k in candles && Closing(candles[k], watermark)
  }

  lemma {:induction false} FindLeast(s: set<u64>) returns (least: u64)
    requires s != {}
    ensures least in s && forall j :: j in s ==> least <= j
  {
    var x :| x in s;
    var rest := s - {x};
    if rest == {} {
      least := x;
      assert forall j :: j in s ==> j == x || j in rest;
    } else {
      var k := FindLeast(rest);
      least := if k <= x then k else x;
      assert forall j :: j in s ==> j == x || j in rest;
    }
  }

  /** The first key in the order of an ordered map. */
  function Least(s: set<u64>): (least: u64)
    requires s != {}
    ensures least in s && forall j :: j in s ==> least <= j
  {
    assert exists k :: k in s && forall j :: j in s ==> k <= j by {
      var k := FindLeast(s);
    }
    var k :| k in s && forall j :: j in s ==> k <= j;
    k
  }

  function Final(c: Candle): Candle { c.(provisional := false) }

  /** The candles at `keys`, in key order, no longer provisional. */
  function Emission(candles: map<u64, Candle>, keys: set<u64>): seq<Candle>
    requires keys <= candles.Keys
  {
    if keys == {} then []
    else
      var k := Least(keys);
      [Final(candles[k])] + Emission(candles, keys - {k})
  }

  lemma EmissionHead(candles: map<u64, Candle>, keys: set<u64>, k: u64)
    requires keys <= candles.Keys && k in keys
    requires forall j :: j in keys ==> k <= j
    ensures Emission(candles, keys) == [Final(candles[k])] + Emission(candles, keys - {k})
  {
    assert Least(keys) == k;
  }

  /** What changes when an ordered walk over the keys passes its first key. */
  lemma WalkStep(candles: map<u64, Candle>, closing: set<u64>, ahead: set<u64>, it: u64)
    requires ahead <= candles.Keys && closing <= candles.Keys && it in ahead
    requires forall j :: j in ahead ==> it <= j
    ensures it in closing ==>
      && Emission(candles, closing * ahead) == [Final(candles[it])] + Emission(candles, closing * (ahead - {it}))
      && candles - (closing - (ahead - {it})) == candles - (closing - ahead) - {it}
    ensures it !in closing ==>
      && closing * ahead == closing * (ahead - {it})
      && closing - (ahead - {it}) == closing - ahead
  {
    if it in closing {
      EmissionHead(candles, closing * ahead, it);
      assert closing * ahead - {it} == closing * (ahead - {it});
      assert closing - (ahead - {it}) == (closing - ahead) + {it};
    } else {
      assert closing * ahead == closing * (ahead - {it});
      assert closing - (ahead - {it}) == closing - ahead;
    }
  }

  function Step(size: WindowSize, r: Run, op: Op): Run {
    match op
    case Update(t) => r.(state := Updated(size, r.state, t))
    case Finalize(w) =>
      var keys := ClosingKeys(r.state.candles, w);
      Run(r.state.(candles := r.state.candles - keys), r.emitted + Emission(r.state.candles, keys))
  }

  const FRESH: Run := Run(WindowState(map[], 0), [])

  function RunOps(size: WindowSize, ops: seq<Op>): Run {
    if ops == [] then FRESH else Step(size, RunOps(size, ops[..|ops| - 1]), ops[|ops| - 1])
  }

  lemma RunSnoc(size: WindowSize, ops: seq<Op>, op: Op)
    ensures RunOps(size, ops + [op]) == Step(size, RunOps(size, ops), op)
  {
    assert (ops + [op])[..|ops|] == ops;
  }

  // ---------------------------------------------------------------- the mutable object

  class CandleWindow {
    const windowSize: WindowSize
    var candles: map<u64, Candle>
    var lastTradeTime: u64
    ghost var history: seq<Op>       // every call so far
    ghost var emitted: seq<Candle>   // every candle returned so far

    ghost predicate Valid()
      reads this
    {
      RunOps(windowSize, history) == Run(WindowState(candles, lastTradeTime), emitted)
    }

    constructor (size: WindowSize)
      ensures Valid() && windowSize == size && history == []
      ensures candles == map[] && lastTradeTime == 0 && emitted == []
    {
      windowSize := size;
      candles, lastTradeTime := map[], 0;
      history, emitted := [], [];
    }

    method Update(t: Trade)
      requires Valid()
      modifies this
      ensures Valid() && history == old(history) + [Op.Update(t)] && emitted == old(emitted)
      ensures WindowState(candles, lastTradeTime)
           == Updated(windowSize, old(WindowState(candles, lastTradeTime)), t)
    {
      RunSnoc(windowSize, history, Op.Update(t));
      var windowStart := WindowStart(windowSize, t.timestamp);
      var windowEnd := WindowEnd(windowSize, windowStart);
      if t.timestamp > lastTradeTime {
        lastTradeTime := t.timestamp;
      }
      if windowStart !in candles {
        var newCandle := Candle(windowStart, windowEnd, t.price, t.price, t.price, t.price,
                                t.base, t.quote, 1, true);
        candles := candles[windowStart := newCandle];
      } else {
        var candle := candles[windowStart];
        if t.price > candle.high {
          candle := candle.(high := t.price);
        }
        if t.price < candle.low {
          candle := candle.(low := t.price);
        }
        candle := candle.(close := t.price);
        candle := candle.(volume := AddI64(candle.volume, t.base));
        candle := candle.(quoteVolume := AddI64(candle.quoteVolume, t.quote));
        candle := candle.(trades := AddU32(candle.trades, 1));
        assert candle == UpdateCandle(candles[windowStart], t);
        candles := candles[windowStart := candle];
      }
      history := history + [Op.Update(t)];
    }

    /** Walks the ordered map from its first key, erasing what it returns. */
    method FinalizeOldCandles(watermark: u64) returns (finalized: seq<Candle>)
      requires Valid()
      modifies this
      ensures Valid() && history == old(history) + [Finalize(watermark)]
      ensures finalized == Emission(old(candles), ClosingKeys(old(candles), watermark))
      ensures emitted == old(emitted) + finalized
      ensures candles == old(candles) - ClosingKeys(old(candles), watermark)
      ensures lastTradeTime == old(lastTradeTime)
    {
      RunSnoc(windowSize, history, Finalize(watermark));
      ghost var before := candles;
      ghost var closing := ClosingKeys(candles, watermark);
      finalized := [];
      var ahead := candles.Keys;  // the keys the iterator has not passed
      assert closing * ahead == closing;
      while ahead != {}
        invariant ahead <= before.Keys && lastTradeTime == old(lastTradeTime)
        invariant history == old(history) && emitted == old(emitted)
        invariant candles == before - (closing - ahead)
        invariant finalized + Emission(before, closing * ahead) == Emission(before, closing)
        decreases ahead
      {
        var it := Least(ahead);
        WalkStep(before, closing, ahead, it);
        var candle := candles[it];
        if candle.closeTime <= watermark && candle.provisional {
          candle := candle.(provisional := false);
          finalized := finalized + [candle];
          candles := candles - {it};
        }
        ahead := ahead - {it};
      }
      assert closing * ahead == {} && closing - ahead == closing;
      history := history + [Finalize(watermark)];
      emitted := emitted + finalized;
    }
  }

  // ---------------------------------------------------------------- fragments of a window

  /** The trades of a history, in arrival order. */
  function Trades(ops: seq<Op>): seq<Trade> {
    if ops == [] then []
    else
      var last := ops[|ops| - 1];
      Trades(ops[..|ops| - 1]) + if last.Update? then [last.trade] else []
  }

  /** The trades among `ts` that fall in the window starting at `w`. */
  function InWindow(size: WindowSize, ts: seq<Trade>, w: u64): seq<Trade> {
    if ts == [] then []
    else
      var last := ts[|ts| - 1];
      InWindow(size, ts[..|ts| - 1], w) + if WindowStart(size, last.timestamp) == w then [last] else []
  }

  predicate NoneEmpty(blocks: seq<seq<Trade>>) { forall i :: 0 <= i < |blocks| ==> blocks[i] != [] }

  /** The trades of one window, cut wherever a finalization had passed the end of the window. */
  datatype Blocks = Blocks(done: seq<seq<Trade>>, live: seq<Trade>)

  function BlocksStep(size: WindowSize, w: u64, b: Blocks, op: Op): Blocks {
    match op
    case Update(t) => if WindowStart(size, t.timestamp) == w then b.(live := b.live + [t]) else b
    case Finalize(watermark) =>
      if WindowEnd(size, w) <= watermark && b.live != [] then Blocks(b.done + [b.live], []) else b
  }

  function BlocksOf(size: WindowSize, ops: seq<Op>, w: u64): (b: Blocks)
    ensures NoneEmpty(b.done)
  {
    if ops == [] then Blocks([], [])
    else BlocksStep(size, w, BlocksOf(size, ops[..|ops| - 1], w), ops[|ops| - 1])
  }

  function Flatten(blocks: seq<seq<Trade>>): seq<Trade> {
    if blocks == [] then [] else Flatten(blocks[..|blocks| - 1]) + blocks[|blocks| - 1]
  }

  function FinalCandles(size: WindowSize, w: u64, blocks: seq<seq<Trade>>): seq<Candle>
    requires NoneEmpty(blocks)
  {
    if blocks == [] then []
    else FinalCandles(size, w, blocks[..|blocks| - 1]) + [Final(BatchCandle(size, w, blocks[|blocks| - 1]))]
  }

  /** The emitted candles of one window, in the order they were emitted. */
  function EmittedFor(emitted: seq<Candle>, w: u64): seq<Candle> {
    if emitted == [] then []
    else
      var last := emitted[|emitted| - 1];
      EmittedFor(emitted[..|emitted| - 1], w) + if last.openTime == w then [last] else []
  }

  lemma {:induction false} EmittedForConcat(xs: seq<Candle>, ys: seq<Candle>, w: u64)
    ensures EmittedFor(xs + ys, w) == EmittedFor(xs, w) + EmittedFor(ys, w)
  {
    if ys == [] {
      assert xs + ys == xs;
    } else {
      assert (xs + ys)[..|xs + ys| - 1] == xs + ys[..|ys| - 1];
      EmittedForConcat(xs, ys[..|ys| - 1], w);
    }
  }

  lemma {:induction false} EmissionFor(candles: map<u64, Candle>, keys: set<u64>, w: u64)
    requires keys <= candles.Keys
    requires forall k :: k in keys ==> candles[k].openTime == k
    ensures EmittedFor(Emission(candles, keys), w) == if w in keys then [Final(candles[w])] else []
  {
    if keys != {} {
      var k := Least(keys);
      var head := [Final(candles[k])];
      EmissionFor(candles, keys - {k}, w);
      EmittedForConcat(head, Emission(candles, keys - {k}), w);
      assert head[..0] == [];
      assert EmittedFor(head, w) == if k == w then head else [];
    }
  }

  /** The run shows window `w` as the blocks say: emitted candles for the closed ones, in order, and a live
      candle exactly while a block is open. */
  ghost predicate Shows(size: WindowSize, r: Run, w: u64, b: Blocks)
    requires NoneEmpty(b.done)
  {
    && EmittedFor(r.emitted, w) == FinalCandles(size, w, b.done)
    && (w in r.state.candles <==> b.live != [])
    && (w in r.state.candles ==> r.state.candles[w] == BatchCandle(size, w, b.live))
  }

  lemma UpdateShows(size: WindowSize, r: Run, w: u64, b: Blocks, t: Trade)
    requires NoneEmpty(b.done) && Shows(size, r, w, b)
    ensures Shows(size, Step(size, r, Update(t)), w, BlocksStep(size, w, b, Update(t)))
  {
    if WindowStart(size, t.timestamp) == w {
      UpdateExtendsBatch(size, w, b.live, t);
      assert [] + [t] == [t];
    }
  }

  lemma CloseBlock(size: WindowSize, w: u64, b: Blocks)
    requires NoneEmpty(b.done) && b.live != []
    ensures NoneEmpty(b.done + [b.live])
    ensures FinalCandles(size, w, b.done + [b.live])
         == FinalCandles(size, w, b.done) + [Final(BatchCandle(size, w, b.live))]
  {
    assert (b.done + [b.live])[..|b.done|] == b.done;
  }

  lemma FinalizeShows(size: WindowSize, r: Run, w: u64, b: Blocks, watermark: u64)
    requires NoneEmpty(b.done) && Shows(size, r, w, b)
    requires forall k :: k in r.state.candles ==> r.state.candles[k].openTime == k
    ensures NoneEmpty(BlocksStep(size, w, b, Finalize(watermark)).done)
    ensures Shows(size, Step(size, r, Finalize(watermark)), w, BlocksStep(size, w, b, Finalize(watermark)))
  {
    var keys := ClosingKeys(r.state.candles, watermark);
    EmittedForConcat(r.emitted, Emission(r.state.candles, keys), w);
    EmissionFor(r.state.candles, keys, w);
    if b.live != [] { CloseBlock(size, w, b); }
  }

  lemma {:induction false} BlocksHoldTheTrades(size: WindowSize, ops: seq<Op>, w: u64)
    ensures Flatten(BlocksOf(size, ops, w).done) + BlocksOf(size, ops, w).live == InWindow(size, Trades(ops), w)
  {
    if ops != [] {
      var init, last := ops[..|ops| - 1], ops[|ops| - 1];
      BlocksHoldTheTrades(size, init, w);
      var b := BlocksOf(size, init, w);
      if last.Update? {
        assert (Trades(init) + [last.trade])[..|Trades(init)|] == Trades(init);
      } else {
        assert Trades(ops) == Trades(init);
        assert (b.done + [b.live])[..|b.done|] == b.done;
      }
    }
  }

  lemma {:induction false} RunShowsBlocks(size: WindowSize, ops: seq<Op>, w: u64)
    ensures Shows(size, RunOps(size, ops), w, BlocksOf(size, ops, w))
  {
    if ops != [] {
      var init, last := ops[..|ops| - 1], ops[|ops| - 1];
      var r, b := RunOps(size, init), BlocksOf(size, init, w);
      RunShowsBlocks(size, init, w);
      match last {
        case Update(t) => UpdateShows(size, r, w, b, t);
        case Finalize(watermark) =>
          forall k | k in r.state.candles
            ensures r.state.candles[k].openTime == k
          {
            RunShowsBlocks(size, init, k);
          }
          FinalizeShows(size, r, w, b, watermark);
      }
    }
  }

  /** For any interleaving of updates and finalizations: a window's emitted candles are the batch candles
      of consecutive blocks of its trades, its live candle is that of the block still open, and the blocks
      in order are all its trades in arrival order. */
  lemma FragmentsAreBlocks(size: WindowSize, ops: seq<Op>, w: u64)
    ensures
      var r := RunOps(size, ops);
      var b := BlocksOf(size, ops, w);
      && EmittedFor(r.emitted, w) == FinalCandles(size, w, b.done)
      && (w in r.state.candles <==> b.live != [])
      && (w in r.state.candles ==> r.state.candles[w] == BatchCandle(size, w, b.live))
      && Flatten(b.done) + b.live == InWindow(size, Trades(ops), w)
  {
    RunShowsBlocks(size, ops, w);
    BlocksHoldTheTrades(size, ops, w);
  }

  // ---------------------------------------------------------------- times

  /** The last trade time is the latest timestamp seen, zero before any trade; finalizing does not reset it. */
  lemma {:induction false} LastTradeTimeIsLatest(size: WindowSize, ops: seq<Op>)
    ensures
      var last := RunOps(size, ops).state.lastTradeTime;
      && (forall t :: t in Trades(ops) ==> t.timestamp <= last)
      && (last == 0 || exists t :: t in Trades(ops) && t.timestamp == last)
  {
    if ops != [] {
      var init, last := ops[..|ops| - 1], ops[|ops| - 1];
      LastTradeTimeIsLatest(size, init);
      if last.Update? {
        assert Trades(ops) == Trades(init) + [last.trade];
        assert last.trade in Trades(ops);
      }
    }
  }

  /** A candle closes one window size after it opens, wrapping with the clock, and opens on the grid. */
  predicate TimesFit(size: WindowSize, c: Candle) {
    && c.openTime % size == 0
    && c.closeTime == if c.openTime + size < TWO64 then c.openTime + size else c.openTime + size - TWO64
  }

  lemma {:induction false} EmissionTimes(size: WindowSize, candles: map<u64, Candle>, keys: set<u64>)
    requires keys <= candles.Keys && forall k :: k in keys ==> TimesFit(size, candles[k])
    ensures forall c :: c in Emission(candles, keys) ==> TimesFit(size, c)
  {
    if keys != {} { EmissionTimes(size, candles, keys - {Least(keys)}); }
  }

  ghost predicate AllTimesFit(size: WindowSize, r: Run) {
    && (forall k :: k in r.state.candles ==> r.state.candles[k].openTime == k && TimesFit(size, r.state.candles[k]))
    && (forall c :: c in r.emitted ==> TimesFit(size, c))
  }

  lemma StepKeepsTimes(size: WindowSize, r: Run, op: Op)
    requires AllTimesFit(size, r)
    ensures AllTimesFit(size, Step(size, r, op))
  {
    if op.Finalize? {
      EmissionTimes(size, r.state.candles, ClosingKeys(r.state.candles, op.watermark));
    } else {
      var start := WindowStart(size, op.trade.timestamp);
      if start !in r.state.candles {
        assert TimesFit(size, NewCandle(size, start, op.trade));
      }
    }
  }

  /** Every candle, live or emitted, spans exactly its window. */
  lemma {:induction false} CandlesSpanTheirWindows(size: WindowSize, ops: seq<Op>)
    ensures AllTimesFit(size, RunOps(size, ops))
  {
    if ops != [] {
      CandlesSpanTheirWindows(size, ops[..|ops| - 1]);
      StepKeepsTimes(size, RunOps(size, ops[..|ops| - 1]), ops[|ops| - 1]);
    }
  }

  // ---------------------------------------------------------------- merged fragments

  /** The emitted fragments of a window followed by its live candle, if it has one. */
  function Fragments(r: Run, w: u64): seq<Candle> {
    EmittedFor(r.emitted, w) + if w in r.state.candles then [r.state.candles[w]] else []
  }

  lemma {:induction false} MergeFinalCandles(size: WindowSize, w: u64, blocks: seq<seq<Trade>>)
    requires blocks != [] && NoneEmpty(blocks)
    ensures FinalCandles(size, w, blocks) != [] && Flatten(blocks) != []
    ensures MergeAll(FinalCandles(size, w, blocks)) == Final(BatchCandle(size, w, Flatten(blocks)))
  {
    var init, last := blocks[..|blocks| - 1], blocks[|blocks| - 1];
    var cs := FinalCandles(size, w, blocks);
    assert cs[..|cs| - 1] == FinalCandles(size, w, init);
    if init == [] {
      assert Flatten(blocks) == last;
    } else {
      MergeFinalCandles(size, w, init);
      MergeOfBatches(size, w, Flatten(init), last);
    }
  }

  /** Merging a window's fragments gives the batch candle of all its trades, open and close included;
      the window has fragments exactly when it has trades, and is provisional exactly while one is live. */
  lemma MergedFragmentsAreBatch(size: WindowSize, ops: seq<Op>, w: u64)
    ensures
      var r, ts := RunOps(size, ops), InWindow(size, Trades(ops), w);
      && (Fragments(r, w) == [] <==> ts == [])
      && (ts != [] ==> (
            MergeAll(Fragments(r, w)) == BatchCandle(size, w, ts).(provisional := w in r.state.candles)))
  {
    FragmentsAreBlocks(size, ops, w);
    var b := BlocksOf(size, ops, w);
    MergeBlocks(size, w, b);
    assert Fragments(RunOps(size, ops), w) == BlockCandles(size, w, b);
  }

  function BlockCandles(size: WindowSize, w: u64, b: Blocks): seq<Candle>
    requires NoneEmpty(b.done)
  {
    FinalCandles(size, w, b.done) + if b.live != [] then [BatchCandle(size, w, b.live)] else []
  }

  lemma MergeBlocks(size: WindowSize, w: u64, b: Blocks)
    requires NoneEmpty(b.done)
    ensures
      var ts := Flatten(b.done) + b.live;
      && (BlockCandles(size, w, b) == [] <==> ts == [])
      && (ts != [] ==> (
            MergeAll(BlockCandles(size, w, b)) == BatchCandle(size, w, ts).(provisional := b.live != [])))
  {
    var cs := BlockCandles(size, w, b);
    if b.done != [] {
      MergeFinalCandles(size, w, b.done);
    }
    if b.live == [] {
      assert Flatten(b.done) + b.live == Flatten(b.done);
      assert cs == FinalCandles(size, w, b.done);
    } else {
      assert cs[..|cs| - 1] == FinalCandles(size, w, b.done);
      if b.done == [] {
        assert Flatten(b.done) + b.live == b.live;
      } else {
        MergeOfBatches(size, w, Flatten(b.done), b.live);
      }
    }
  }

  // ---------------------------------------------------------------- finalization

  ghost predicate IncreasingOpenTimes(cs: seq<Candle>) {
    forall i, j :: 0 <= i < j < |cs| ==> cs[i].openTime < cs[j].openTime
  }

  lemma {:induction false} EmissionIsOrdered(candles: map<u64, Candle>, keys: set<u64>)
    requires keys <= candles.Keys
    requires forall k :: k in keys ==> candles[k].openTime == k
    ensures IncreasingOpenTimes(Emission(candles, keys))
    ensures forall c :: c in Emission(candles, keys) <==> exists k :: k in keys && c == Final(candles[k])
  {
    if keys != {} {
      var k := Least(keys);
      EmissionIsOrdered(candles, keys - {k});
      var rest := Emission(candles, keys - {k});
      forall j | 0 <= j < |rest|
        ensures k < rest[j].openTime
      {
        assert rest[j] in rest;
      }
    }
  }

  /** Whatever happened before, a finalization emits exactly the candles whose window has closed by the
      watermark, each once and in increasing open time, and leaves exactly the later ones, unchanged. */
  lemma FinalizeIsExact(size: WindowSize, ops: seq<Op>, watermark: u64)
    ensures
      var before := RunOps(size, ops).state.candles;
      var r := RunOps(size, ops + [Finalize(watermark)]);
      var out := Emission(before, ClosingKeys(before, watermark));
      && r.emitted == RunOps(size, ops).emitted + out
      && IncreasingOpenTimes(out)
      && (forall c :: c in out <==> exists k :: k in before && before[k].closeTime <= watermark && c == Final(before[k]))
      && (forall k :: k in r.state.candles <==> k in before && before[k].closeTime > watermark)
      && (forall k :: k in r.state.candles ==> r.state.candles[k] == before[k])
  {
    RunSnoc(size, ops, Finalize(watermark));
    var before := RunOps(size, ops).state.candles;
    forall k | k in before
      ensures before[k].openTime == k && before[k].provisional
    {
      FragmentsAreBlocks(size, ops, k);
    }
    EmissionIsOrdered(before, ClosingKeys(before, watermark));
  }

  /** No trade falls in a window that an earlier finalization had already closed. */
  ghost predicate NoLateTrades(size: WindowSize, ops: seq<Op>) {
    forall i, j :: 0 <= i < j < |ops| && ops[i].Finalize? && ops[j].Update? ==>
      WindowEnd(size, WindowStart(size, ops[j].trade.timestamp)) > ops[i].watermark
  }

  lemma {:induction false} ClosedStaysClosed(size: WindowSize, ops: seq<Op>, w: u64)
    requires NoLateTrades(size, ops)
    ensures
      var b := BlocksOf(size, ops, w);
      && |b.done| <= 1
      && (b.done != [] ==> b.live == [] && exists i :: 0 <= i < |ops| && ops[i].Finalize? && WindowEnd(size, w) <= ops[i].watermark)
  {
    if ops != [] {
      var init := ops[..|ops| - 1];
      ClosedStaysClosed(size, init, w);
      var b := BlocksOf(size, init, w);
      if b.done != [] {
        var i :| 0 <= i < |init| && init[i].Finalize? && WindowEnd(size, w) <= init[i].watermark;
        assert ops[i] == init[i];
      } else if ops[|ops| - 1].Finalize? {
        assert BlocksOf(size, ops, w).done != [] ==> WindowEnd(size, w) <= ops[|ops| - 1].watermark;
      }
    }
  }

  lemma OneBlock(size: WindowSize, w: u64, blocks: seq<seq<Trade>>)
    requires |blocks| == 1 && NoneEmpty(blocks)
    ensures Flatten(blocks) == blocks[0]
    ensures FinalCandles(size, w, blocks) == [Final(BatchCandle(size, w, blocks[0]))]
  {
    assert blocks[..0] == [];
  }

  /** Without late trades every window is emitted at most once, and then as the candle of all its trades. */
  lemma EmittedOnceWithoutLateTrades(size: WindowSize, ops: seq<Op>, w: u64)
    requires NoLateTrades(size, ops)
    ensures
      var r, ts := RunOps(size, ops), InWindow(size, Trades(ops), w);
      var out := EmittedFor(r.emitted, w);
      && |out| <= 1
      && (out != [] ==> ts != [] && out[0] == Final(BatchCandle(size, w, ts)) && w !in r.state.candles)
  {
    ClosedStaysClosed(size, ops, w);
    FragmentsAreBlocks(size, ops, w);
    var b := BlocksOf(size, ops, w);
    if b.done != [] {
      OneBlock(size, w, b.done);
      assert Flatten(b.done) + b.live == b.done[0];
    }
  }
}

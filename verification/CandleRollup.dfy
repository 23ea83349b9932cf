/** Roll-up of fine windows into a coarse one: Shard::process_trade feeds every granularity the same trades. */
module CandleRollup {
  import opened Wrappers
  import opened Words
  import opened Candles
  import opened CandleWindows

  /** What a candle says regardless of the order of its trades. */
  datatype Totals = Totals(high: i64, low: i64, volume: i64, quoteVolume: i64, trades: u32)

  /** A candle without its window: totals, first and last price. */
  datatype Ohlcv = Ohlcv(open: i64, close: i64, totals: Totals)

  function OhlcvOf(c: Candle): Ohlcv {
    Ohlcv(c.open, c.close, Totals(c.high, c.low, c.volume, c.quoteVolume, c.trades))
  }

  function Plus(a: Totals, b: Totals): Totals {
    Totals(Max(a.high, b.high), Min(a.low, b.low), AddI64(a.volume, b.volume),
           AddI64(a.quoteVolume, b.quoteVolume), AddU32(a.trades, b.trades))
  }

  function Combine(a: Option<Totals>, b: Option<Totals>): Option<Totals> {
    if a.None? then b else if b.None? then a else Some(Plus(a.value, b.value))
  }

  /** One stretch after another: the first open, the last close. */
  function Chain(a: Option<Ohlcv>, b: Option<Ohlcv>): Option<Ohlcv> {
    if a.None? then b else if b.None? then a
    else Some(Ohlcv(a.value.open, b.value.close, Plus(a.value.totals, b.value.totals)))
  }

  function TotalsIn(o: Option<Ohlcv>): Option<Totals> {
    if o.None? then None else Some(o.value.totals)
  }

  /** The merged fragments of the window starting at `w`, if it has any. */
  function WindowOhlcv(r: Run, w: int): Option<Ohlcv> {
    if 0 <= w < TWO64 && Fragments(r, w) != [] then Some(OhlcvOf(MergeAll(Fragments(r, w)))) else None
  }

  /** The totals over the windows of `size` seconds that start at `lo`, `lo + size`, ... before `hi`. */
  function RolledTotals(size: WindowSize, r: Run, lo: int, hi: int): Option<Totals>
    decreases hi - lo
  {
    if lo >= hi then None
    else Combine(TotalsIn(WindowOhlcv(r, lo)), RolledTotals(size, r, lo + size, hi))
  }

  /** The chained candles of the same windows, in time order. */
  function RolledOhlcv(size: WindowSize, r: Run, lo: int, hi: int): Option<Ohlcv>
    decreases hi - lo
  {
    if lo >= hi then None
    else Chain(WindowOhlcv(r, lo), RolledOhlcv(size, r, lo + size, hi))
  }

  // ---------------------------------------------------------------- trades in a span of time

  function Between(ts: seq<Trade>, lo: int, hi: int): seq<Trade> {
    if ts == [] then []
    else
      var last := ts[|ts| - 1];
      Between(ts[..|ts| - 1], lo, hi) + if lo <= last.timestamp < hi then [last] else []
  }

  function TradesOhlcv(ts: seq<Trade>): Option<Ohlcv> {
    if ts == [] then None else Some(OhlcvOf(BatchCandle(1, 0, ts)))
  }

  lemma WindowIsSpan(size: WindowSize, w: int, timestamp: u64)
    requires w % size == 0
    ensures WindowStart(size, timestamp) == w <==> w <= timestamp < w + size
  {
    if w <= timestamp < w + size {
      ModShift(w, size);
      DivModUnique(timestamp, size, w / size, timestamp - w);
    }
  }

  lemma {:induction false} InWindowIsBetween(size: WindowSize, ts: seq<Trade>, w: u64)
    requires w % size == 0
    ensures InWindow(size, ts, w) == Between(ts, w, w + size)
  {
    if ts != [] {
      WindowIsSpan(size, w, ts[|ts| - 1].timestamp);
      InWindowIsBetween(size, ts[..|ts| - 1], w);
    }
  }

  lemma {:induction false} NothingBeyondTheClock(ts: seq<Trade>, lo: int, hi: int)
    requires lo >= TWO64
    ensures Between(ts, lo, hi) == []
  {
    if ts != [] { NothingBeyondTheClock(ts[..|ts| - 1], lo, hi); }
  }

  /** A window's merged fragments say exactly what its trades say. */
  lemma WindowSaysItsTrades(size: WindowSize, ops: seq<Op>, w: int)
    requires w >= 0 && w % size == 0
    ensures WindowOhlcv(RunOps(size, ops), w) == TradesOhlcv(Between(Trades(ops), w, w + size))
  {
    if w >= TWO64 {
      NothingBeyondTheClock(Trades(ops), w, w + size);
    } else {
      MergedFragmentsAreBatch(size, ops, w);
      InWindowIsBetween(size, Trades(ops), w);
    }
  }

  // ---------------------------------------------------------------- totals, in any arrival order

  lemma PlusIsAssociative(a: Totals, b: Totals, c: Totals)
    ensures Plus(Plus(a, b), c) == Plus(a, Plus(b, c))
  {
    AddI64Associates(a.volume, b.volume, c.volume);
    AddI64Associates(a.quoteVolume, b.quoteVolume, c.quoteVolume);
    AddU32Associates(a.trades, b.trades, c.trades);
  }

  lemma PlusCommutes(a: Totals, b: Totals)
    ensures Plus(a, b) == Plus(b, a)
  {}

  /** Combining is associative, and a part may be moved past another. */
  lemma CombineRearranges(a: Option<Totals>, b: Option<Totals>, c: Option<Totals>)
    ensures Combine(Combine(a, b), c) == Combine(a, Combine(b, c))
    ensures Combine(Combine(a, b), c) == Combine(Combine(a, c), b)
  {
    if a.Some? && b.Some? && c.Some? {
      PlusIsAssociative(a.value, b.value, c.value);
      PlusIsAssociative(a.value, c.value, b.value);
      PlusCommutes(b.value, c.value);
    } else if b.Some? && c.Some? {
      PlusCommutes(b.value, c.value);
    }
  }

  lemma ChainOfConcat(xs: seq<Trade>, ys: seq<Trade>)
    ensures TradesOhlcv(xs + ys) == Chain(TradesOhlcv(xs), TradesOhlcv(ys))
  {
    if xs == [] {
      assert xs + ys == ys;
    } else if ys == [] {
      assert xs + ys == xs;
    } else {
      MergeOfBatches(1, 0, xs, ys);
    }
  }

  function TotalsOfTrades(ts: seq<Trade>): Option<Totals> { TotalsIn(TradesOhlcv(ts)) }

  lemma BetweenLast(ts: seq<Trade>, lo: int, hi: int)
    requires ts != []
    ensures
      var init, last := Between(ts[..|ts| - 1], lo, hi), ts[|ts| - 1];
      Between(ts, lo, hi) == if lo <= last.timestamp < hi then init + [last] else init
  {
    var init := Between(ts[..|ts| - 1], lo, hi);
    assert init + [] == init;
  }

  lemma TotalsSnoc(ts: seq<Trade>, t: Trade)
    ensures TotalsOfTrades(ts + [t]) == Combine(TotalsOfTrades(ts), TotalsOfTrades([t]))
  {
    ChainOfConcat(ts, [t]);
  }

  lemma {:induction false} TotalsOfSplit(ts: seq<Trade>, lo: int, mid: int, hi: int)
    requires lo <= mid <= hi
    ensures TotalsOfTrades(Between(ts, lo, hi))
         == Combine(TotalsOfTrades(Between(ts, lo, mid)), TotalsOfTrades(Between(ts, mid, hi)))
  {
    if ts != [] {
      var init, t := ts[..|ts| - 1], ts[|ts| - 1];
      TotalsOfSplit(init, lo, mid, hi);
      BetweenLast(ts, lo, hi);
      BetweenLast(ts, lo, mid);
      BetweenLast(ts, mid, hi);
      if lo <= t.timestamp < hi {
        var whole, left, right := Between(init, lo, hi), Between(init, lo, mid), Between(init, mid, hi);
        TotalsSnoc(whole, t);
        CombineRearranges(TotalsOfTrades(left), TotalsOfTrades(right), TotalsOfTrades([t]));
        if t.timestamp < mid { TotalsSnoc(left, t); } else { TotalsSnoc(right, t); }
      }
    }
  }

  lemma NextWindow(size: WindowSize, lo: int, hi: int)
    requires lo % size == 0 && (hi - lo) % size == 0 && lo < hi
    ensures (lo + size) % size == 0 && (hi - (lo + size)) % size == 0 && lo + size <= hi
  {
    ModAddMultiple(lo, 1, size);
    ModAddMultiple(hi - lo, -1, size);
    ModShift(hi - lo, size);
    if hi - lo < size { DivModUnique(hi - lo, size, 0, hi - lo); }
  }

  lemma {:induction false} RolledTotalsAreTotals(size: WindowSize, ops: seq<Op>, lo: int, hi: int)
    requires 0 <= lo <= hi && lo % size == 0 && (hi - lo) % size == 0
    ensures RolledTotals(size, RunOps(size, ops), lo, hi) == TotalsOfTrades(Between(Trades(ops), lo, hi))
    decreases hi - lo
  {
    if lo == hi {
      EmptySpan(Trades(ops), lo);
    } else {
      NextWindow(size, lo, hi);
      RolledTotalsAreTotals(size, ops, lo + size, hi);
      WindowSaysItsTrades(size, ops, lo);
      TotalsOfSplit(Trades(ops), lo, lo + size, hi);
    }
  }

  lemma {:induction false} EmptySpan(ts: seq<Trade>, at: int)
    ensures Between(ts, at, at) == []
  {
    if ts != [] { EmptySpan(ts[..|ts| - 1], at); }
  }

  /** Two granularities that have seen the same trades, however their finalizations interleaved with them:
      a coarse window's high, low, volumes and trade count are those of the fine windows inside it. */
  lemma RollUpTotals(fine: WindowSize, coarse: WindowSize, fineOps: seq<Op>, coarseOps: seq<Op>, w: u64)
    requires coarse % fine == 0 && w % coarse == 0
    requires Trades(fineOps) == Trades(coarseOps)
    ensures TotalsIn(WindowOhlcv(RunOps(coarse, coarseOps), w))
         == RolledTotals(fine, RunOps(fine, fineOps), w, w + coarse)
  {
    Nested(fine, coarse, w);
    WindowSaysItsTrades(coarse, coarseOps, w);
    RolledTotalsAreTotals(fine, fineOps, w, w + coarse);
  }

  lemma Nested(fine: WindowSize, coarse: WindowSize, w: u64)
    requires coarse % fine == 0 && w % coarse == 0
    ensures w % fine == 0
  {
    ModShift(coarse, fine);
    ModShift(w, coarse);
    var q, k := coarse / fine, w / coarse;
    assert w == fine * (q * k) by { assert (fine * q) * k == fine * (q * k); }
    DivModUnique(w, fine, q * k, 0);
  }

  // ---------------------------------------------------------------- open and close, in time order

  ghost predicate InTimeOrder(ts: seq<Trade>) {
    forall i, j :: 0 <= i < j < |ts| ==> ts[i].timestamp <= ts[j].timestamp
  }

  lemma {:induction false} NothingAfter(ts: seq<Trade>, lo: int, hi: int)
    requires forall i :: 0 <= i < |ts| ==> ts[i].timestamp < lo
    ensures Between(ts, lo, hi) == []
  {
    if ts != [] { NothingAfter(ts[..|ts| - 1], lo, hi); }
  }

  lemma {:induction false} SplitInTimeOrder(ts: seq<Trade>, lo: int, mid: int, hi: int)
    requires InTimeOrder(ts) && lo <= mid <= hi
    ensures Between(ts, lo, hi) == Between(ts, lo, mid) + Between(ts, mid, hi)
  {
    if ts != [] {
      var init, t := ts[..|ts| - 1], ts[|ts| - 1];
      SplitInTimeOrder(init, lo, mid, hi);
      BetweenLast(ts, lo, hi);
      BetweenLast(ts, lo, mid);
      BetweenLast(ts, mid, hi);
      if t.timestamp < mid {
        NothingAfter(init, mid, hi);
        assert Between(ts, mid, hi) == [] && Between(ts, lo, mid) + [] == Between(ts, lo, mid);
      } else {
        assert Between(ts, lo, mid) == Between(init, lo, mid);
        assert Between(init, lo, mid) + (Between(init, mid, hi) + [t]) == Between(init, lo, hi) + [t];
      }
    }
  }

  lemma ChainOfSplit(ts: seq<Trade>, lo: int, mid: int, hi: int)
    requires lo <= mid <= hi && InTimeOrder(ts)
    ensures TradesOhlcv(Between(ts, lo, hi)) == Chain(TradesOhlcv(Between(ts, lo, mid)), TradesOhlcv(Between(ts, mid, hi)))
  {
    SplitInTimeOrder(ts, lo, mid, hi);
    ChainOfConcat(Between(ts, lo, mid), Between(ts, mid, hi));
  }

  lemma {:induction false} RolledOhlcvIsOhlcv(size: WindowSize, ops: seq<Op>, lo: int, hi: int)
    requires 0 <= lo <= hi && lo % size == 0 && (hi - lo) % size == 0 && InTimeOrder(Trades(ops))
    ensures RolledOhlcv(size, RunOps(size, ops), lo, hi) == TradesOhlcv(Between(Trades(ops), lo, hi))
    decreases hi - lo
  {
    if lo == hi {
      EmptySpan(Trades(ops), lo);
    } else {
      NextWindow(size, lo, hi);
      RolledOhlcvIsOhlcv(size, ops, lo + size, hi);
      WindowSaysItsTrades(size, ops, lo);
      ChainOfSplit(Trades(ops), lo, lo + size, hi);
    }
  }

  /** When the trades arrive in time order, open and close roll up as well. */
  lemma RollUpInTimeOrder(fine: WindowSize, coarse: WindowSize, fineOps: seq<Op>, coarseOps: seq<Op>, w: u64)
    requires coarse % fine == 0 && w % coarse == 0
    requires Trades(fineOps) == Trades(coarseOps) && InTimeOrder(Trades(fineOps))
    ensures WindowOhlcv(RunOps(coarse, coarseOps), w)
         == RolledOhlcv(fine, RunOps(fine, fineOps), w, w + coarse)
  {
    Nested(fine, coarse, w);
    WindowSaysItsTrades(coarse, coarseOps, w);
    RolledOhlcvIsOhlcv(fine, fineOps, w, w + coarse);
  }

  /** The seven granularities are nested, each in the next. */
  lemma GranularitiesAreNested(i: nat, j: nat)
    requires i <= j < |WINDOW_SIZES|
    ensures (WINDOW_SIZES[j] as int) % (WINDOW_SIZES[i] as int) == 0
  {}
}

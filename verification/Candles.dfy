/** Candles, and the reference candle of a batch of trades (state/candle_cpp/include/candle_types.hpp). */
module Candles {
  import opened Words

  /** The granularities that every pair is aggregated at, in seconds. */
  const WINDOW_SIZES: seq<WindowSize> := [1, 60, 300, 900, 3600, 14400, 86400]

  type WindowSize = s: int | 1 <= s < TWO32 witness 1

  datatype Trade = Trade(timestamp: u64, price: i64, base: i64, quote: i64)

  datatype Candle = Candle(
    openTime: u64, closeTime: u64,
    open: i64, high: i64, low: i64, close: i64,
    volume: i64, quoteVolume: i64, trades: u32, provisional: bool)

  function WindowStart(size: WindowSize, timestamp: u64): (start: u64)
    ensures start <= timestamp < start + size && start % size == 0
  {
    ModShift(timestamp, size);
    DivModUnique((timestamp / size) * size, size, timestamp / size, 0);
    (timestamp / size) * size
  }

  function WindowEnd(size: WindowSize, start: u64): u64 { WrapU64(start + size) }

  // ---------------------------------------------------------------- the incremental candle

  function NewCandle(size: WindowSize, start: u64, t: Trade): Candle {
    Candle(start, WindowEnd(size, start), t.price, t.price, t.price, t.price, t.base, t.quote, 1, true)
  }

  function UpdateCandle(c: Candle, t: Trade): Candle {
    c.(high := if t.price > c.high then t.price else c.high,
       low := if t.price < c.low then t.price else c.low,
       close := t.price,
       volume := AddI64(c.volume, t.base),
       quoteVolume := AddI64(c.quoteVolume, t.quote),
       trades := AddU32(c.trades, 1))
  }

  // ---------------------------------------------------------------- the reference candle

  function MaxPrice(ts: seq<Trade>): i64
    requires ts != []
  {
    if |ts| == 1 then ts[0].price else Max(MaxPrice(ts[..|ts| - 1]), ts[|ts| - 1].price)
  }

  function MinPrice(ts: seq<Trade>): i64
    requires ts != []
  {
    if |ts| == 1 then ts[0].price else Min(MinPrice(ts[..|ts| - 1]), ts[|ts| - 1].price)
  }

  function BaseSum(ts: seq<Trade>): int {
    if ts == [] then 0 else BaseSum(ts[..|ts| - 1]) + ts[|ts| - 1].base
  }

  function QuoteSum(ts: seq<Trade>): int {
    if ts == [] then 0 else QuoteSum(ts[..|ts| - 1]) + ts[|ts| - 1].quote
  }

  /** The candle of a whole batch: first and last price, extremes, and the wrapped totals. */
  function BatchCandle(size: WindowSize, start: u64, ts: seq<Trade>): Candle
    requires ts != []
  {
    Candle(start, WindowEnd(size, start),
           ts[0].price, MaxPrice(ts), MinPrice(ts), ts[|ts| - 1].price,
           WrapI64(BaseSum(ts)), WrapI64(QuoteSum(ts)), WrapU32(|ts|), true)
  }

  lemma {:induction false} ExtremesBoundEveryPrice(ts: seq<Trade>)
    requires ts != []
    ensures forall t :: t in ts ==> MinPrice(ts) <= t.price <= MaxPrice(ts)
    ensures exists t :: t in ts && t.price == MaxPrice(ts)
    ensures exists t :: t in ts && t.price == MinPrice(ts)
  {
    if |ts| == 1 {
      assert ts[0] in ts;
    } else {
      var init := ts[..|ts| - 1];
      ExtremesBoundEveryPrice(init);
      assert ts == init + [ts[|ts| - 1]];
      assert ts[|ts| - 1] in ts;
    }
  }

  /** One incremental update is one more trade in the batch. */
  lemma UpdateExtendsBatch(size: WindowSize, start: u64, ts: seq<Trade>, t: Trade)
    ensures ts == [] ==> NewCandle(size, start, t) == BatchCandle(size, start, [t])
    ensures ts != [] ==> UpdateCandle(BatchCandle(size, start, ts), t) == BatchCandle(size, start, ts + [t])
  {
    if ts == [] {
      assert [t][..0] == [];
      assert BaseSum([t]) == t.base && QuoteSum([t]) == t.quote;
    } else {
      assert (ts + [t])[..|ts|] == ts;
      WrapI64Absorbs(BaseSum(ts), t.base);
      WrapI64Absorbs(QuoteSum(ts), t.quote);
      WrapU32Absorbs(|ts|, 1);
    }
  }

  // ---------------------------------------------------------------- merging candles

  /** The candle of two consecutive stretches of one window, from the candles of the stretches. */
  function Merge(c: Candle, d: Candle): Candle {
    Candle(c.openTime, c.closeTime, c.open, Max(c.high, d.high), Min(c.low, d.low), d.close,
           AddI64(c.volume, d.volume), AddI64(c.quoteVolume, d.quoteVolume),
           AddU32(c.trades, d.trades), d.provisional)
  }

  function MergeAll(cs: seq<Candle>): Candle
    requires cs != []
  {
    if |cs| == 1 then cs[0] else Merge(MergeAll(cs[..|cs| - 1]), cs[|cs| - 1])
  }

  lemma {:induction false} SumsOfConcat(xs: seq<Trade>, ys: seq<Trade>)
    ensures BaseSum(xs + ys) == BaseSum(xs) + BaseSum(ys)
    ensures QuoteSum(xs + ys) == QuoteSum(xs) + QuoteSum(ys)
  {
    if ys == [] {
      assert xs + ys == xs;
    } else {
      assert (xs + ys)[..|xs + ys| - 1] == xs + ys[..|ys| - 1];
      SumsOfConcat(xs, ys[..|ys| - 1]);
    }
  }

  lemma {:induction false} ExtremesOfConcat(xs: seq<Trade>, ys: seq<Trade>)
    requires xs != [] && ys != []
    ensures MaxPrice(xs + ys) == Max(MaxPrice(xs), MaxPrice(ys))
    ensures MinPrice(xs + ys) == Min(MinPrice(xs), MinPrice(ys))
  {
    assert (xs + ys)[..|xs + ys| - 1] == xs + ys[..|ys| - 1];
    if |ys| == 1 {
      assert xs + ys[..0] == xs;
    } else {
      ExtremesOfConcat(xs, ys[..|ys| - 1]);
    }
  }

  /** Merging is what concatenating the batches does. */
  lemma MergeOfBatches(size: WindowSize, start: u64, xs: seq<Trade>, ys: seq<Trade>)
    requires xs != [] && ys != []
    ensures Merge(BatchCandle(size, start, xs), BatchCandle(size, start, ys)) == BatchCandle(size, start, xs + ys)
  {
    SumsOfConcat(xs, ys);
    ExtremesOfConcat(xs, ys);
    AddOfWrapped(BaseSum(xs), BaseSum(ys));
    AddOfWrapped(QuoteSum(xs), QuoteSum(ys));
    AddOfWrapped(|xs|, |ys|);
  }
}

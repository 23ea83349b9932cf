/** Raydium swap events: parsed from vault balances, normalised to the canonical pair, and converted to the
    canonical message (decoder/raydium/parser.go, convertRaydiumSwap in ingestor/decoder/decoder.go). */
module RaydiumSwaps {
  import opened Wrappers
  import opened Words
  import opened CanonicalPairs

  /** What an event takes over unchanged from the transaction. */
  datatype Origin = Origin(pool: string, sqrtLow: u64, sqrtHigh: u64, slot: u64, signature: string, timestamp: i64)

  /** Vault balances before and after, with mints and decimals. */
  datatype SwapContext = SwapContext(
    origin: Origin, mintA: string, mintB: string, decimalsA: byte, decimalsB: byte, feeBps: u16,
    preA: u64, postA: u64, preB: u64, postB: u64)

  datatype Event = Event(
    origin: Origin, mintA: string, mintB: string, decimalsA: byte, decimalsB: byte, feeBps: u16,
    amountIn: u64, amountOut: u64, isBaseInput: bool)

  // ---------------------------------------------------------------- legs and flows

  /** What the pool gains of token A, or of token B. */
  function LegA(e: Event): int { if e.isBaseInput then e.amountIn else -(e.amountOut as int) }

  function LegB(e: Event): int { if e.isBaseInput then -(e.amountOut as int) else e.amountIn }

  /** What the pool gains of a mint. */
  function Flow(e: Event, mint: string): int {
    (if e.mintA == mint then LegA(e) else 0) + (if e.mintB == mint then LegB(e) else 0)
  }

  /** Each side of the swap: mint, decimals and gain. */
  function Sides(e: Event): multiset<(string, byte, int)> {
    multiset{(e.mintA, e.decimalsA, LegA(e)), (e.mintB, e.decimalsB, LegB(e))}
  }

  /** The same swap told from the other side. */
  function Twin(e: Event): Event {
    e.(mintA := e.mintB, mintB := e.mintA, decimalsA := e.decimalsB, decimalsB := e.decimalsA,
       isBaseInput := !e.isBaseInput)
  }

  function Normalized(t: Tables, e: Event): Event {
    var pair := ResolvePair(t, e.mintA, e.mintB);
    if pair.Some? && pair.value.inverted then Twin(e) else e
  }

  /** Signed subtraction of balances as 64-bit words. */
  function Delta(post: u64, pre: u64): i64 { WrapI64(AsSigned(post) - AsSigned(pre)) }

  lemma DeltaIsWrappedDifference(post: u64, pre: u64)
    ensures Delta(post, pre) == WrapI64(post - pre)
    ensures Delta(post, pre) == post - pre <==> FitsI64(post - pre)
  {}

  function Magnitude(d: i64): u64 { Abs(d) }

  /** `uint64(-d)`: the negation wraps at the least word, and its bits are then read as unsigned. */
  function Negated(d: i64): (m: u64)
    ensures d < 0 ==> m == Magnitude(d)
  {
    AsUnsigned(WrapI64(-(d as int)))
  }

  function ParsedEvent(ctx: SwapContext): Option<Event> {
    var deltaA, deltaB := Delta(ctx.postA, ctx.preA), Delta(ctx.postB, ctx.preB);
    if deltaA > 0 && deltaB < 0 then
      Some(Event(ctx.origin, ctx.mintA, ctx.mintB, ctx.decimalsA, ctx.decimalsB, ctx.feeBps, deltaA, Magnitude(deltaB), true))
    else if deltaA < 0 && deltaB > 0 then
      Some(Event(ctx.origin, ctx.mintA, ctx.mintB, ctx.decimalsA, ctx.decimalsB, ctx.feeBps, deltaB, Magnitude(deltaA), false))
    else None
  }

  // ---------------------------------------------------------------- the mutable event

  class SwapEvent {
    const origin: Origin
    const feeBps: u16
    var mintA: string
    var mintB: string
    var decimalsA: byte
    var decimalsB: byte
    var amountIn: u64
    var amountOut: u64
    var isBaseInput: bool

    function View(): Event
      reads this
    {
      Event(origin, mintA, mintB, decimalsA, decimalsB, feeBps, amountIn, amountOut, isBaseInput)
    }

    constructor (ctx: SwapContext, isBaseInput: bool)
      ensures View() == Event(ctx.origin, ctx.mintA, ctx.mintB, ctx.decimalsA, ctx.decimalsB, ctx.feeBps, 0, 0, isBaseInput)
    {
      origin, feeBps := ctx.origin, ctx.feeBps;
      mintA, mintB, decimalsA, decimalsB := ctx.mintA, ctx.mintB, ctx.decimalsA, ctx.decimalsB;
      amountIn, amountOut := 0, 0;
      this.isBaseInput := isBaseInput;
    }

    method NormalizeToCanonicalPair(t: Tables) returns (pair: Option<CanonicalPair>)
      modifies this
      ensures pair == ResolvePair(t, old(mintA), old(mintB))
      ensures View() == Normalized(t, old(View()))
    {
      pair := ResolvePair(t, mintA, mintB);
      if pair.None? {
        return;
      }
      if pair.value.inverted {
        mintA, mintB := mintB, mintA;
        decimalsA, decimalsB := decimalsB, decimalsA;
        isBaseInput := !isBaseInput;
      }
    }
  }

  /** The flag of the instruction is overwritten by the direction of the balances; the zero-amount checks at
      the end can never fire. */
  method ParseSwapEvent(instrIsBaseInput: bool, ctx: SwapContext) returns (event: SwapEvent?)
    ensures event == null <==> ParsedEvent(ctx).None?
    ensures event != null ==> fresh(event) && event.View() == ParsedEvent(ctx).value
  {
    var e := new SwapEvent(ctx, instrIsBaseInput);
    var deltaA, deltaB: i64 := Delta(ctx.postA, ctx.preA), Delta(ctx.postB, ctx.preB);
    if deltaA > 0 && deltaB < 0 {
      e.amountIn := AsUnsigned(deltaA);
      e.amountOut := Negated(deltaB);
      e.isBaseInput := true;
    } else if deltaA < 0 && deltaB > 0 {
      e.amountIn := AsUnsigned(deltaB);
      e.amountOut := Negated(deltaA);
      e.isBaseInput := false;
    } else {
      return null;
    }
    if e.amountIn == 0 {
      return null;
    }
    if e.amountOut == 0 {
      return null;
    }
    return e;
  }

  // ---------------------------------------------------------------- normalisation

  /** Normalising keeps both sides of the swap, and so the flow and the decimals of every mint, and puts the
      canonical base mint first. */
  lemma NormalizePreservesFlows(t: Tables, e: Event, mint: string)
    ensures Sides(Normalized(t, e)) == Sides(e)
    ensures Flow(Normalized(t, e), mint) == Flow(e, mint)
    ensures Normalized(t, e).origin == e.origin && Normalized(t, e).feeBps == e.feeBps
    ensures
      var pair := ResolvePair(t, e.mintA, e.mintB);
      if pair.Some? then Normalized(t, e).mintA == pair.value.baseMint && Normalized(t, e).mintB == pair.value.quoteMint
      else Normalized(t, e) == e
  {
    var n := Normalized(t, e);
    if n != e {
      assert Sides(n) == multiset{(e.mintB, e.decimalsB, LegB(e)), (e.mintA, e.decimalsA, LegA(e))};
    }
    if e.mintA != "" && e.mintB != "" { PairIsOrdered(t, e.mintA, e.mintB); }
  }

  lemma NormalizeIsIdempotent(t: Tables, e: Event)
    ensures Normalized(t, Normalized(t, e)) == Normalized(t, e)
  {
    if e.mintA != "" && e.mintB != "" { PairIsOrdered(t, e.mintA, e.mintB); }
  }

  /** An event and its twin normalise to the same event exactly when they name two different mints. */
  lemma TwinsNormalizeAlike(t: Tables, e: Event)
    ensures Normalized(t, e) == Normalized(t, Twin(e)) <==> e.mintA != "" && e.mintB != "" && e.mintA != e.mintB
  {
    assert Twin(e) != e && Twin(Twin(e)) == e;
    if e.mintA != "" && e.mintB != "" { PairIsOrdered(t, e.mintA, e.mintB); }
  }

  // ---------------------------------------------------------------- the canonical message

  datatype SwapMessage = SwapMessage(
    origin: Origin, mintBase: string, mintQuote: string, decBase: byte, decQuote: byte, feeBps: u16,
    baseIn: u64, baseOut: u64, quoteIn: u64, quoteOut: u64, provisional: bool)

  /** The fee comes from the pool index, not from the event. */
  function ConvertRaydiumSwap(e: Event, feeBps: u16): SwapMessage {
    var msg := SwapMessage(e.origin, e.mintA, e.mintB, e.decimalsA, e.decimalsB, feeBps, 0, 0, 0, 0, true);
    if e.isBaseInput then msg.(baseIn := e.amountIn, quoteOut := e.amountOut)
    else msg.(baseOut := e.amountOut, quoteIn := e.amountIn)
  }

  /** The message names the vaults' tokens in their own order, with their decimals, and takes over the rest. */
  lemma MessageNamesItsTokens(ctx: SwapContext, feeBps: u16)
    requires ParsedEvent(ctx).Some?
    ensures
      var m := ConvertRaydiumSwap(ParsedEvent(ctx).value, feeBps);
      && (m.mintBase, m.decBase) == (ctx.mintA, ctx.decimalsA)
      && (m.mintQuote, m.decQuote) == (ctx.mintB, ctx.decimalsB)
      && m.origin == ctx.origin && m.feeBps == feeBps && m.provisional
    ensures ParsedEvent(ctx).value.feeBps == ctx.feeBps
  {}

  /** What the pool gains of a mint according to a message. */
  function MessageFlow(m: SwapMessage, mint: string): int {
    (if m.mintBase == mint then m.baseIn - m.baseOut else 0) + (if m.mintQuote == mint then m.quoteIn - m.quoteOut else 0)
  }

  /** What the vaults gain of a mint. */
  function VaultFlow(ctx: SwapContext, mint: string): int {
    (if ctx.mintA == mint then ctx.postA - ctx.preA else 0) + (if ctx.mintB == mint then ctx.postB - ctx.preB else 0)
  }

  /** Parsed, with or without normalising under any tables, and converted: when both changes of balance fit in
      a signed word, the message states each mint's true flow, and each mint with its own decimals. */
  lemma MessageKeepsEachMintsFlow(t: Tables, ctx: SwapContext, feeBps: u16, mint: string)
    requires ParsedEvent(ctx).Some?
    requires FitsI64(ctx.postA - ctx.preA) && FitsI64(ctx.postB - ctx.preB)
    ensures
      var e := ParsedEvent(ctx).value;
      var m, n := ConvertRaydiumSwap(e, feeBps), ConvertRaydiumSwap(Normalized(t, e), feeBps);
      && MessageFlow(m, mint) == VaultFlow(ctx, mint) && MessageFlow(n, mint) == VaultFlow(ctx, mint)
      && multiset{(n.mintBase, n.decBase), (n.mintQuote, n.decQuote)}
         == multiset{(ctx.mintA, ctx.decimalsA), (ctx.mintB, ctx.decimalsB)}
      && n.origin == ctx.origin && n.feeBps == feeBps && n.provisional
  {
    MessageAccountsForVaults(ctx, feeBps);
    MessageNamesItsTokens(ctx, feeBps);
    var e := ParsedEvent(ctx).value;
    NormalizePreservesFlows(t, e, mint);
    VolumeIsTheQuoteLeg(e, feeBps);
    VolumeIsTheQuoteLeg(Normalized(t, e), feeBps);
  }

  /** A parsed and converted swap accounts for a vault's change of balance exactly when that change fits in
      a signed word; one leg goes in, the other out, and neither is zero. */
  lemma MessageAccountsForVaults(ctx: SwapContext, feeBps: u16)
    requires ParsedEvent(ctx).Some?
    ensures
      var m := ConvertRaydiumSwap(ParsedEvent(ctx).value, feeBps);
      && (m.baseIn - m.baseOut == ctx.postA - ctx.preA <==> FitsI64(ctx.postA - ctx.preA))
      && (m.quoteIn - m.quoteOut == ctx.postB - ctx.preB <==> FitsI64(ctx.postB - ctx.preB))
      && ((m.baseIn > 0 && m.quoteOut > 0 && m.baseOut == m.quoteIn == 0)
          || (m.quoteIn > 0 && m.baseOut > 0 && m.baseIn == m.quoteOut == 0))
  {
    DeltaIsWrappedDifference(ctx.postA, ctx.preA);
    DeltaIsWrappedDifference(ctx.postB, ctx.preB);
  }

  /** One vault gained and the other lost. */
  predicate IsSwap(ctx: SwapContext) {
    (ctx.postA > ctx.preA && ctx.postB < ctx.preB) || (ctx.postA < ctx.preA && ctx.postB > ctx.preB)
  }

  /** Exactly when parsing recognises swaps and nothing else: a change that does not fit in a signed word
      shows the opposite sign, so both or neither must fit unless one vault did not change at all. */
  lemma ParsesExactlySwaps(ctx: SwapContext)
    ensures (ParsedEvent(ctx).Some? <==> IsSwap(ctx))
      <==> (ctx.postA == ctx.preA || ctx.postB == ctx.preB
            || (FitsI64(ctx.postA - ctx.preA) <==> FitsI64(ctx.postB - ctx.preB)))
  {
    DeltaIsWrappedDifference(ctx.postA, ctx.preA);
    DeltaIsWrappedDifference(ctx.postB, ctx.preB);
    SignOfDelta(ctx.postA, ctx.preA);
    SignOfDelta(ctx.postB, ctx.preB);
  }

  lemma SignOfDelta(post: u64, pre: u64)
    ensures post == pre ==> Delta(post, pre) == 0
    ensures post != pre && FitsI64(post - pre) ==> (Delta(post, pre) > 0 <==> post > pre) && Delta(post, pre) != 0
    ensures !FitsI64(post - pre) ==> (Delta(post, pre) > 0 <==> post < pre) && Delta(post, pre) != 0
  {}

  /** Nobody gave anything and the event says token A came in and token B went out. */
  lemma GiftIsTakenForASwap(ctx: SwapContext)
    requires ctx.preA == 0 && ctx.postA == 1 && ctx.preB == 0 && ctx.postB == TWO63
    ensures !IsSwap(ctx) && ParsedEvent(ctx).Some?
    ensures ParsedEvent(ctx).value.isBaseInput && ParsedEvent(ctx).value.amountOut == TWO63
  {
    DeltaIsWrappedDifference(ctx.postB, ctx.preB);
  }

  /** A swap whose gain of token A is one more than a signed word holds is refused. */
  lemma HugeSwapIsRefused(ctx: SwapContext)
    requires ctx.preA == 0 && ctx.postA == TWO63 && ctx.preB == 1 && ctx.postB == 0
    ensures IsSwap(ctx) && ParsedEvent(ctx).None?
  {
    DeltaIsWrappedDifference(ctx.postA, ctx.preA);
  }

  /** A swap is recorded with both its true changes of balance exactly when both fit. */
  lemma RecordsExactlyFittingSwaps(ctx: SwapContext, feeBps: u16)
    ensures
      var e := ParsedEvent(ctx);
      (e.Some? && (var m := ConvertRaydiumSwap(e.value, feeBps);
                   m.baseIn - m.baseOut == ctx.postA - ctx.preA && m.quoteIn - m.quoteOut == ctx.postB - ctx.preB))
      <==> IsSwap(ctx) && FitsI64(ctx.postA - ctx.preA) && FitsI64(ctx.postB - ctx.preB)
  {
    if ParsedEvent(ctx).Some? { MessageAccountsForVaults(ctx, feeBps); }
    ParsesExactlySwaps(ctx);
  }

  /** Volume in terms of token B. */
  function CalculateVolume(e: Event): u64 { if e.isBaseInput then e.amountOut else e.amountIn }

  lemma VolumeIsTheQuoteLeg(e: Event, feeBps: u16)
    ensures CalculateVolume(e) == Abs(LegB(e))
    ensures
      var m := ConvertRaydiumSwap(e, feeBps);
      CalculateVolume(e) == m.quoteIn + m.quoteOut && LegB(e) == m.quoteIn - m.quoteOut && LegA(e) == m.baseIn - m.baseOut
  {}
}

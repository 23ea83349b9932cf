/** The canonical order of a token pair, over arbitrary token and priority tables (decoder/common/pair.go). */
module CanonicalPairs {
  import opened Wrappers
  import opened StringOrder

  /** The registries of known tokens and of quote priorities, as they stand at some moment. */
  datatype Tables = Tables(knownTokens: map<string, string>, quotePriority: map<string, int>)

  datatype CanonicalPair = CanonicalPair(
    baseToken: string, baseMint: string, quoteToken: string, quoteMint: string, inverted: bool)

  function ResolveTokenSymbol(t: Tables, mint: string): string {
    if mint in t.knownTokens then t.knownTokens[mint]
    else if |mint| > 8 then mint[..8]
    else mint
  }

  /** A missing default reads as zero. */
  function QuotePriority(t: Tables, symbol: string): int {
    if symbol in t.quotePriority then t.quotePriority[symbol]
    else if "default" in t.quotePriority then t.quotePriority["default"]
    else 0
  }

  function PriorityOf(t: Tables, mint: string): int { QuotePriority(t, ResolveTokenSymbol(t, mint)) }

  function ResolvePair(t: Tables, mintA: string, mintB: string): Option<CanonicalPair> {
    if mintA == "" || mintB == "" then None
    else
      var symbolA, symbolB := ResolveTokenSymbol(t, mintA), ResolveTokenSymbol(t, mintB);
      var priorityA, priorityB := QuotePriority(t, symbolA), QuotePriority(t, symbolB);
      if priorityA == priorityB then
        if !LexLess(mintB, mintA) then Some(CanonicalPair(symbolA, mintA, symbolB, mintB, false))
        else Some(CanonicalPair(symbolB, mintB, symbolA, mintA, true))
      else if priorityA > priorityB then Some(CanonicalPair(symbolB, mintB, symbolA, mintA, true))
      else Some(CanonicalPair(symbolA, mintA, symbolB, mintB, false))
  }

  /** A known mint goes by its registered symbol, an unknown one by its first eight characters. */
  lemma SymbolsComeFromTheTable(t: Tables, mint: string)
    ensures mint in t.knownTokens ==> ResolveTokenSymbol(t, mint) == t.knownTokens[mint]
    ensures mint !in t.knownTokens ==>
      ResolveTokenSymbol(t, mint) <= mint && |ResolveTokenSymbol(t, mint)| == if |mint| < 8 then |mint| else 8
  {}

  /** Of two known tokens with listed priorities the one listed higher is the quote, whichever comes first. */
  lemma HigherPriorityIsQuote(t: Tables, low: string, high: string)
    requires low != "" && high != "" && low in t.knownTokens && high in t.knownTokens
    requires t.knownTokens[low] in t.quotePriority && t.knownTokens[high] in t.quotePriority
    requires t.quotePriority[t.knownTokens[low]] < t.quotePriority[t.knownTokens[high]]
    ensures ResolvePair(t, low, high) == Some(CanonicalPair(t.knownTokens[low], low, t.knownTokens[high], high, false))
    ensures ResolvePair(t, high, low) == Some(CanonicalPair(t.knownTokens[low], low, t.knownTokens[high], high, true))
  {}

  /** Tokens whose symbols are not listed count as the default, zero when there is none; among equals the
      address that is lexicographically later is the quote. */
  lemma UnlistedTokensRankAsDefault(t: Tables, unlisted: string, listed: string)
    requires unlisted != "" && listed != "" && unlisted !in t.knownTokens && |unlisted| <= 8
    requires unlisted !in t.quotePriority && listed in t.knownTokens && t.knownTokens[listed] in t.quotePriority
    ensures
      var default := if "default" in t.quotePriority then t.quotePriority["default"] else 0;
      var p := ResolvePair(t, unlisted, listed);
      && p.Some?
      && (p.value.quoteMint == listed <==>
            default < t.quotePriority[t.knownTokens[listed]]
            || (default == t.quotePriority[t.knownTokens[listed]] && !LexLess(listed, unlisted)))
  {
    LexTotal(unlisted, listed);
  }

  /** A mint without a name pairs with nothing. */
  lemma EmptyMintsHaveNoPair(t: Tables, mint: string)
    ensures ResolvePair(t, "", mint).None? && ResolvePair(t, mint, "").None?
  {}

  /** `b` may be the quote leg opposite `a`: a total order on mints by priority, then by address. */
  predicate QuotesOver(t: Tables, b: string, a: string) {
    PriorityOf(t, a) < PriorityOf(t, b) || (PriorityOf(t, a) == PriorityOf(t, b) && !LexLess(b, a))
  }

  /** The pair holds both mints, the quote being the greater, whatever the order they came in; it is marked
      inverted exactly when they had to be exchanged. */
  lemma PairIsOrdered(t: Tables, mintA: string, mintB: string)
    requires mintA != "" && mintB != ""
    ensures ResolvePair(t, mintA, mintB).Some? && ResolvePair(t, mintB, mintA).Some?
    ensures
      var p, q := ResolvePair(t, mintA, mintB).value, ResolvePair(t, mintB, mintA).value;
      && (p.baseMint, p.quoteMint) == (if p.inverted then (mintB, mintA) else (mintA, mintB))
      && QuotesOver(t, p.quoteMint, p.baseMint)
      && p.baseToken == ResolveTokenSymbol(t, p.baseMint) && p.quoteToken == ResolveTokenSymbol(t, p.quoteMint)
      && p.(inverted := q.inverted) == q
      && (p.inverted <==> !QuotesOver(t, mintB, mintA))
      && (mintA != mintB ==> p.inverted != q.inverted)
  {
    LexTotal(mintA, mintB);
  }
}

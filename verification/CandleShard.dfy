/** One shard's windows, created on first use and all fed every trade of their pair
    (Shard in state/candle_cpp/src/candle_worker.cpp). */
module CandleShards {
  import opened Candles
  import opened CandleWindows

  class Shard {
    var windows: map<string, seq<CandleWindow>>

    ghost predicate Owned(p: string, q: string, j: int, k: int)
      requires p in windows && q in windows && 0 <= j < |windows[p]| && 0 <= k < |windows[q]|
      reads this
    {
      windows[p][j] == windows[q][k] ==> p == q && j == k
    }

    ghost predicate Holds(p: string, k: int)
      requires p in windows && 0 <= k < |windows[p]| && |windows[p]| == |WINDOW_SIZES|
      reads this, windows[p][k]
    {
      windows[p][k].Valid() && windows[p][k].windowSize == WINDOW_SIZES[k]
    }

    /** Every pair has one valid window of each granularity, shared with nothing else. */
    ghost predicate Valid()
      reads this, set p, k | p in windows && 0 <= k < |windows[p]| :: windows[p][k]
    {
      && (forall p :: p in windows ==> |windows[p]| == |WINDOW_SIZES|)
      && (forall p, k :: p in windows && 0 <= k < |windows[p]| ==> Holds(p, k))
      && (forall p, q, j, k :: p in windows && q in windows && 0 <= j < |windows[p]| && 0 <= k < |windows[q]| ==>
            Owned(p, q, j, k))
    }

    constructor ()
      ensures Valid() && windows == map[]
    {
      windows := map[];
    }

    method GetOrCreateWindows(pair: string) returns (ws: seq<CandleWindow>)
      requires Valid()
      modifies this
      ensures Valid() && pair in windows && ws == windows[pair]
      ensures pair in old(windows) ==> windows == old(windows)
      ensures pair !in old(windows) ==> windows == old(windows)[pair := ws]
      ensures pair !in old(windows) ==> forall k :: 0 <= k < |ws| ==> fresh(ws[k]) && ws[k].history == []
    {
      if pair in windows {
        return windows[pair];
      }
      ws := [];
      while |ws| < |WINDOW_SIZES|
        invariant |ws| <= |WINDOW_SIZES|
        invariant unchanged(this)
        invariant forall k :: 0 <= k < |ws| ==>
          fresh(ws[k]) && ws[k].Valid() && ws[k].windowSize == WINDOW_SIZES[k] && ws[k].history == []
        invariant forall j, k :: 0 <= j < k < |ws| ==> ws[j] != ws[k]
      {
        var window := new CandleWindow(WINDOW_SIZES[|ws|]);
        ws := ws + [window];
      }
      ghost var before := windows;
      windows := windows[pair := ws];
      forall p, k | p in windows && 0 <= k < |windows[p]|
        ensures Holds(p, k)
      {
        if p != pair {
          assert windows[p] == before[p] && old(Holds(p, k));
        }
      }
      forall p, q, j, k | p in windows && q in windows && 0 <= j < |windows[p]| && 0 <= k < |windows[q]|
        ensures Owned(p, q, j, k)
      {
        if p != pair && q != pair {
          assert old(Owned(p, q, j, k));
        }
      }
    }

    /** One window changes; the others are different objects, so the shard stays valid. */
    method UpdateWindow(pair: string, i: nat, t: Trade)
      requires Valid() && pair in windows && i < |windows[pair]|
      modifies windows[pair][i]
      ensures Valid()
      ensures windows[pair][i].history == old(windows[pair][i].history) + [Update(t)]
      ensures windows[pair][i].emitted == old(windows[pair][i].emitted)
    {
      assert Holds(pair, i);
      windows[pair][i].Update(t);
      forall p, k | p in windows && 0 <= k < |windows[p]|
        ensures Holds(p, k)
      {
        assert old(Holds(p, k));
        assert old(Owned(p, pair, k, i));
      }
      forall p, q, j, k | p in windows && q in windows && 0 <= j < |windows[p]| && 0 <= k < |windows[q]|
        ensures Owned(p, q, j, k)
      {
        assert old(Owned(p, q, j, k));
      }
    }

    /** Every window of the pair sees the trade, and no window of another pair sees anything. */
    method ProcessTrade(pair: string, t: Trade)
      requires Valid()
      modifies this, set p, k | p in windows && 0 <= k < |windows[p]| :: windows[p][k]
      ensures Valid() && windows.Keys == old(windows.Keys) + {pair}
      ensures forall p :: p in old(windows) ==> windows[p] == old(windows)[p]
      ensures forall p, k :: p in old(windows) && 0 <= k < |windows[p]| ==>
        windows[p][k].history == old(windows[p][k].history) + if p == pair then [Update(t)] else []
      ensures forall p, k :: p in old(windows) && 0 <= k < |windows[p]| ==>
        windows[p][k].emitted == old(windows[p][k].emitted)
      ensures pair !in old(windows) ==> forall k :: 0 <= k < |windows[pair]| ==> windows[pair][k].history == [Update(t)]
    {
      var pairWindows := GetOrCreateWindows(pair);
      label created:
      var i := 0;
      while i < |pairWindows|
        invariant 0 <= i <= |pairWindows|
        invariant Valid() && windows == old@created(windows) && windows[pair] == pairWindows
        invariant forall k :: 0 <= k < |pairWindows| ==>
          && pairWindows[k].history == old@created(pairWindows[k].history) + (if k < i then [Update(t)] else [])
          && pairWindows[k].emitted == old@created(pairWindows[k].emitted)
        invariant forall p, k :: p in windows && p != pair && 0 <= k < |windows[p]| ==>
          unchanged@created(windows[p][k])
      {
        forall p, k | p in windows && 0 <= k < |windows[p]| && (p != pair || k != i)
          ensures windows[p][k] != pairWindows[i]
        {
          assert Owned(p, pair, k, i);
        }
        UpdateWindow(pair, i, t);
        i := i + 1;
      }
    }
  }
}

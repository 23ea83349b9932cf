/** The incrementally maintained index from pools to fees (handleRaydiumAccount in ingestor/decoder/decoder.go). */
module PoolIndex {
  import opened Wrappers
  import opened Words
  import opened RaydiumAccounts

  datatype Index = Index(poolConfig: map<Key, Key>, poolFees: map<Key, u16>, configFees: map<Key, u16>)

  const EMPTY: Index := Index(map[], map[], map[])

  datatype Update = Update(pubkey: Key, account: Account)

  function PoolsOf(poolConfig: map<Key, Key>, config: Key): set<Key> {
    set p | p in poolConfig && poolConfig[p] == config
  }

  function WithPool(ix: Index, pubkey: Key, config: Key): Index {
    Index(ix.poolConfig[pubkey := config],
          if config in ix.configFees then ix.poolFees[pubkey := ix.configFees[config]] else ix.poolFees,
          ix.configFees)
  }

  function WithFee(ix: Index, pubkey: Key, feeBps: u16): Index {
    Index(ix.poolConfig,
          ix.poolFees + (map p | p in PoolsOf(ix.poolConfig, pubkey) :: feeBps),
          ix.configFees[pubkey := feeBps])
  }

  function Applied(ix: Index, u: Update): Index {
    match u.account
    case Pool(config) => WithPool(ix, u.pubkey, config)
    case FeeConfig(feeBps) => WithFee(ix, u.pubkey, feeBps)
    case Unrecognized => ix
  }

  function IndexOf(us: seq<Update>): Index {
    if us == [] then EMPTY else Applied(IndexOf(us[..|us| - 1]), us[|us| - 1])
  }

  // ---------------------------------------------------------------- the mutable object

  class RaydiumIndex {
    var poolConfig: map<Key, Key>
    var poolFees: map<Key, u16>
    var configFees: map<Key, u16>

    function Now(): Index
      reads this
    {
      Index(poolConfig, poolFees, configFees)
    }

    constructor ()
      ensures Now() == EMPTY
    {
      poolConfig, poolFees, configFees := map[], map[], map[];
    }

    method SetPool(pubkey: Key, config: Key)
      modifies this
      ensures Now() == WithPool(old(Now()), pubkey, config)
    {
      poolConfig := poolConfig[pubkey := config];
      if config in configFees {
        poolFees := poolFees[pubkey := configFees[config]];
      }
    }

    /** The pools are visited in an arbitrary order, as Go visits a map. */
    method SetFee(pubkey: Key, tradeRate: u32)
      modifies this
      ensures Now() == WithFee(old(Now()), pubkey, FeeBps(tradeRate))
    {
      var feeBps := FeeBps(tradeRate);
      configFees := configFees[pubkey := feeBps];
      var unvisited := poolConfig.Keys;
      ghost var fees, pools := poolFees, PoolsOf(poolConfig, pubkey);
      while unvisited != {}
        invariant unvisited <= poolConfig.Keys
        invariant poolConfig == old(poolConfig) && configFees == old(configFees)[pubkey := feeBps]
        invariant poolFees.Keys == fees.Keys + (pools - unvisited)
        invariant forall p :: p in poolFees ==> poolFees[p] == if p in pools - unvisited then feeBps else fees[p]
        decreases unvisited
      {
        var pool :| pool in unvisited;
        if poolConfig[pool] == pubkey {
          poolFees := poolFees[pool := feeBps];
        }
        unvisited := unvisited - {pool};
      }
      assert pools - unvisited == pools;
      assert poolFees == fees + (map p | p in pools :: feeBps);
    }

    method HandleRaydiumAccount(pubkey: Key, data: seq<byte>)
      modifies this
      ensures Now() == Applied(old(Now()), Update(pubkey, Classify(data)))
    {
      if HasPoolDiscriminator(data) {
        var config := DecodeRaydiumPool(data);
        if config.Some? {
          SetPool(pubkey, config.value);
          return;
        }
      }
      if HasAmmConfigDiscriminator(data) {
        var tradeRate := DecodeAmmConfig(data);
        if tradeRate.Some? {
          SetFee(pubkey, tradeRate.value);
          return;
        }
      }
      if |data| > APPROX_CONFIG_ACCOUNT_MAX {
        var config := DecodeRaydiumPool(data);
        if config.Some? {
          SetPool(pubkey, config.value);
          return;
        }
      }
      var tradeRate := DecodeAmmConfig(data);
      if tradeRate.Some? {
        SetFee(pubkey, tradeRate.value);
        return;
      }
      var config := DecodeRaydiumPool(data);
      if config.Some? {
        SetPool(pubkey, config.value);
      }
    }
  }

  // ---------------------------------------------------------------- the latest update

  predicate SameKind(a: Account, b: Account) {
    (a.Pool? && b.Pool?) || (a.FeeConfig? && b.FeeConfig?)
  }

  /** The update was made, and no later one of its kind for the same account. */
  ghost predicate SaidLast(us: seq<Update>, u: Update) {
    exists i :: 0 <= i < |us| && us[i] == u && NotRevised(us, i)
  }

  ghost predicate NotRevised(us: seq<Update>, i: nat)
    requires i < |us|
  {
    forall j :: i < j < |us| ==> us[j].pubkey != us[i].pubkey || !SameKind(us[j].account, us[i].account)
  }

  lemma SaidLastSnoc(us: seq<Update>, last: Update, u: Update)
    requires !u.account.Unrecognized?
    ensures SaidLast(us + [last], u) <==>
      last == u || (SaidLast(us, u) && (last.pubkey != u.pubkey || !SameKind(last.account, u.account)))
  {
    var all := us + [last];
    if last == u {
      assert all[|us|] == u && NotRevised(all, |us|);
    }
    if SaidLast(all, u) && last != u {
      var i :| 0 <= i < |all| && all[i] == u && NotRevised(all, i);
      assert us[i] == u && all[|us|] == last;
      assert forall j :: i < j < |us| ==> all[j] == us[j];
      assert NotRevised(us, i);
    }
    if SaidLast(us, u) && (last.pubkey != u.pubkey || !SameKind(last.account, u.account)) {
      var i :| 0 <= i < |us| && us[i] == u && NotRevised(us, i);
      assert all[i] == u && NotRevised(all, i);
    }
  }

  /** After any sequence of updates the two primary maps hold exactly what was said last of each account. */
  lemma {:induction false} LatestUpdatesWin(us: seq<Update>, p: Key, config: Key, fee: u16)
    ensures (p in IndexOf(us).poolConfig && IndexOf(us).poolConfig[p] == config) <==> SaidLast(us, Update(p, Pool(config)))
    ensures (p in IndexOf(us).configFees && IndexOf(us).configFees[p] == fee) <==> SaidLast(us, Update(p, FeeConfig(fee)))
  {
    if us != [] {
      var init, last := us[..|us| - 1], us[|us| - 1];
      LatestUpdatesWin(init, p, config, fee);
      assert us == init + [last];
      SaidLastSnoc(init, last, Update(p, Pool(config)));
      SaidLastSnoc(init, last, Update(p, FeeConfig(fee)));
    }
  }

  // ---------------------------------------------------------------- the join

  /** The fee of every pool whose configuration is known. */
  function Join(ix: Index): map<Key, u16> {
    map p | p in ix.poolConfig && ix.poolConfig[p] in ix.configFees :: ix.configFees[ix.poolConfig[p]]
  }

  /** A pool whose configuration is known has that configuration's fee; a pool has a fee otherwise only while
      its configuration is unknown. */
  ghost predicate FeeIsCurrent(ix: Index, p: Key) {
    if p in Join(ix) then p in ix.poolFees && ix.poolFees[p] == Join(ix)[p]
    else p in ix.poolFees ==> p in ix.poolConfig && ix.poolConfig[p] !in ix.configFees
  }

  /** After any sequence of updates, for every pool. */
  lemma {:induction false} FeesAreCurrent(us: seq<Update>, p: Key)
    ensures FeeIsCurrent(IndexOf(us), p)
  {
    if us != [] {
      FeesAreCurrent(us[..|us| - 1], p);
      var ix, u := IndexOf(us[..|us| - 1]), us[|us| - 1];
      assert p in PoolsOf(ix.poolConfig, u.pubkey) <==> p in ix.poolConfig && ix.poolConfig[p] == u.pubkey;
    }
  }

  /** The fee of a pool's configuration when last known: now, or at the latest moment before. */
  function LastKnownFee(us: seq<Update>, p: Key): Option<u16> {
    if p in Join(IndexOf(us)) then Some(Join(IndexOf(us))[p])
    else if us == [] then None
    else LastKnownFee(us[..|us| - 1], p)
  }

  /** The fee on record is exactly that, for every pool and every sequence of updates. */
  lemma {:induction false} FeesAreTheLastKnown(us: seq<Update>, p: Key)
    ensures LastKnownFee(us, p) == if p in IndexOf(us).poolFees then Some(IndexOf(us).poolFees[p]) else None
  {
    FeesAreCurrent(us, p);
    if us != [] && p !in Join(IndexOf(us)) {
      FeesAreTheLastKnown(us[..|us| - 1], p);
      var ix, u := IndexOf(us[..|us| - 1]), us[|us| - 1];
      assert p in PoolsOf(ix.poolConfig, u.pubkey) <==> p in ix.poolConfig && ix.poolConfig[p] == u.pubkey;
    }
  }

  /** No pool account is ever seen with two different configurations. */
  ghost predicate NeverRepointed(us: seq<Update>) {
    forall i, j :: 0 <= i < j < |us| && us[i].pubkey == us[j].pubkey && us[i].account.Pool? && us[j].account.Pool? ==>
      us[i].account == us[j].account
  }

  lemma {:induction false} PoolConfigComesFromUpdates(us: seq<Update>, p: Key)
    requires p in IndexOf(us).poolConfig
    ensures exists i :: 0 <= i < |us| && us[i] == Update(p, Pool(IndexOf(us).poolConfig[p]))
  {
    var init, last := us[..|us| - 1], us[|us| - 1];
    if last.pubkey != p || !last.account.Pool? {
      PoolConfigComesFromUpdates(init, p);
      var i :| 0 <= i < |init| && init[i] == Update(p, Pool(IndexOf(init).poolConfig[p]));
      assert us[i] == init[i];
    }
  }

  /** A pool that has a fee moves to a configuration whose fee is unknown. */
  predicate LosesItsFee(ix: Index, u: Update) {
    u.account.Pool? && u.account.config !in ix.configFees && u.pubkey in ix.poolFees
  }

  /** An update takes the index out of step with the join exactly when it makes a pool lose its fee. */
  lemma UpdateKeepsJoin(ix: Index, u: Update)
    requires ix.poolFees == Join(ix)
    ensures Applied(ix, u).poolFees == Join(Applied(ix, u)) <==> !LosesItsFee(ix, u)
  {
    var ix' := Applied(ix, u);
    if LosesItsFee(ix, u) {
      assert u.pubkey in ix'.poolFees && u.pubkey !in Join(ix');
    }
  }

  /** At every moment of the sequence the incremental fees are the join. */
  ghost predicate AlwaysJoin(us: seq<Update>) {
    IndexOf(us).poolFees == Join(IndexOf(us)) && (us != [] ==> AlwaysJoin(us[..|us| - 1]))
  }

  ghost predicate NeverLosesAFee(us: seq<Update>) {
    us != [] ==> NeverLosesAFee(us[..|us| - 1]) && !LosesItsFee(IndexOf(us[..|us| - 1]), us[|us| - 1])
  }

  /** Exactly when the incremental index is the join all along. */
  lemma {:induction false} JoinUnlessAFeeIsLost(us: seq<Update>)
    ensures AlwaysJoin(us) <==> NeverLosesAFee(us)
  {
    if us != [] {
      var init := us[..|us| - 1];
      JoinUnlessAFeeIsLost(init);
      if AlwaysJoin(init) { UpdateKeepsJoin(IndexOf(init), us[|us| - 1]); }
    }
  }

  /** In particular while no pool changes its configuration, whatever the order of the updates and however
      often the fees change. */
  lemma {:induction false} IndexIsJoin(us: seq<Update>)
    requires NeverRepointed(us)
    ensures IndexOf(us).poolFees == Join(IndexOf(us))
  {
    if us != [] {
      var init, last := us[..|us| - 1], us[|us| - 1];
      IndexIsJoin(init);
      var ix := IndexOf(init);
      if last.account.Pool? && last.pubkey in ix.poolConfig {
        PoolConfigComesFromUpdates(init, last.pubkey);
        var i :| 0 <= i < |init| && init[i] == Update(last.pubkey, Pool(ix.poolConfig[last.pubkey]));
        assert us[i] == init[i];
      }
      UpdateKeepsJoin(ix, last);
    }
  }

  /** A pool moved to an unknown configuration keeps the fee of the old one. */
  lemma RepointedPoolKeepsAStaleFee(pool: Key, config: Key, other: Key, fee: u16)
    requires config != other
    ensures
      var ix := IndexOf([Update(config, FeeConfig(fee)), Update(pool, Pool(config)), Update(pool, Pool(other))]);
      pool in ix.poolFees && ix.poolFees[pool] == fee && pool !in Join(ix)
  {
    var us := [Update(config, FeeConfig(fee)), Update(pool, Pool(config)), Update(pool, Pool(other))];
    assert us[..2] == [us[0], us[1]] && [us[0], us[1]][..1] == [us[0]] && [us[0]][..0] == [];
    assert IndexOf([us[0]]) == Applied(EMPTY, us[0]);
    assert IndexOf(us[..2]) == Applied(IndexOf([us[0]]), us[1]);
  }

  // ---------------------------------------------------------------- order

  ghost predicate EachOnce(us: seq<Update>) {
    forall i, j :: 0 <= i < j < |us| ==> us[i].pubkey != us[j].pubkey
  }

  /** With each account seen once, the two primary maps say exactly what the updates said. */
  lemma {:induction false} MapsAreTheUpdates(us: seq<Update>)
    requires EachOnce(us)
    ensures forall p, c :: (p in IndexOf(us).poolConfig && IndexOf(us).poolConfig[p] == c) <==> Update(p, Pool(c)) in us
    ensures forall c, f :: (c in IndexOf(us).configFees && IndexOf(us).configFees[c] == f) <==> Update(c, FeeConfig(f)) in us
  {
    if us != [] {
      var init, last := us[..|us| - 1], us[|us| - 1];
      MapsAreTheUpdates(init);
      assert us == init + [last];
      assert forall u :: u in init ==> u.pubkey != last.pubkey;
    }
  }

  /** With each account seen once, the whole index does not depend on the order of the updates. */
  lemma OrderDoesNotMatter(us: seq<Update>, vs: seq<Update>)
    requires EachOnce(us) && EachOnce(vs) && multiset(us) == multiset(vs)
    ensures IndexOf(us) == IndexOf(vs)
  {
    MapsAreTheUpdates(us);
    MapsAreTheUpdates(vs);
    SameUpdates(us, vs);
    var a, b := IndexOf(us), IndexOf(vs);
    forall p
      ensures p in a.poolConfig <==> p in b.poolConfig
      ensures p in a.poolConfig ==> a.poolConfig[p] == b.poolConfig[p]
    {
      if p in a.poolConfig { assert Update(p, Pool(a.poolConfig[p])) in vs; }
      if p in b.poolConfig { assert Update(p, Pool(b.poolConfig[p])) in us; }
    }
    forall c
      ensures c in a.configFees <==> c in b.configFees
      ensures c in a.configFees ==> a.configFees[c] == b.configFees[c]
    {
      if c in a.configFees { assert Update(c, FeeConfig(a.configFees[c])) in vs; }
      if c in b.configFees { assert Update(c, FeeConfig(b.configFees[c])) in us; }
    }
    assert a.poolConfig == b.poolConfig && a.configFees == b.configFees;
    IndexIsJoin(us);
    IndexIsJoin(vs);
  }

  lemma SameUpdates(us: seq<Update>, vs: seq<Update>)
    requires multiset(us) == multiset(vs)
    ensures forall u :: u in us <==> u in vs
  {
    forall u
      ensures u in us <==> u in vs
    {
      assert u in us <==> u in multiset(us);
      assert u in vs <==> u in multiset(vs);
    }
  }
}

/** The published swaps and heads as a consumer of the stream sees them (ingestor/geyser/processor.go). */
module SlotLedger {
  import opened Wrappers
  import opened Words
  import opened SlotProtocol

  datatype Closed = Closed(ev: Swap, undo: bool)

  /** What a consumer of the published swaps holds for one slot: open swaps and closed ones, each settled
      or undone, in order; or `Broken` once a final or undo does not mirror the oldest open swap. */
  datatype Ledger = Ledger(open: seq<Swap>, closed: seq<Closed>) | Broken

  function Booked(l: Ledger, ev: Swap): Ledger {
    if l.Broken? then Broken
    else if ev.provisional then Ledger(l.open + [ev], l.closed)
    else if l.open != [] && ev == Mirror(l.open[0], ev.isUndo) then
      Ledger(l.open[1..], l.closed + [Closed(l.open[0], ev.isUndo)])
    else Broken
  }

  function Replay(trace: seq<Entry>, slot: u64): Ledger {
    if trace == [] then Ledger([], [])
    else
      var before, last := Replay(trace[..|trace| - 1], slot), trace[|trace| - 1];
      if last.PubSwap? && last.ev.slot == slot then Booked(before, last.ev) else before
  }

  function ProvisionalsOf(trace: seq<Entry>, slot: u64): seq<Swap> {
    if trace == [] then []
    else
      var before, last := ProvisionalsOf(trace[..|trace| - 1], slot), trace[|trace| - 1];
      if last.PubSwap? && last.ev.slot == slot && last.ev.provisional then before + [last.ev] else before
  }

  function ClosedSwaps(cs: seq<Closed>): (evs: seq<Swap>)
    ensures |evs| == |cs| && forall i :: 0 <= i < |cs| ==> evs[i] == cs[i].ev
  {
    seq(|cs|, i requires 0 <= i < |cs| => cs[i].ev)
  }

  /** While the ledger is not broken, the closed swaps followed by the open ones are the provisional swaps
      published, each once: none is both settled and undone, and none closed twice. */
  lemma {:induction false} LedgerConserves(trace: seq<Entry>, slot: u64)
    requires Replay(trace, slot).Ledger?
    ensures ClosedSwaps(Replay(trace, slot).closed) + Replay(trace, slot).open == ProvisionalsOf(trace, slot)
  {
    if trace != [] {
      var init := trace[..|trace| - 1];
      LedgerConserves(init, slot);
      var l, l' := Replay(init, slot), Replay(trace, slot);
      if l' != l && l'.closed != l.closed {
        assert ClosedSwaps(l'.closed) == ClosedSwaps(l.closed) + [l.open[0]];
        assert l.open == [l.open[0]] + l.open[1..];
      }
    }
  }

  /** Every slot's open swaps are its pending list. */
  ghost predicate InStep(st: State) {
    forall slot: u64 :: Replay(st.trace, slot).Ledger? && Replay(st.trace, slot).open == PendingIn(st.pending, slot)
  }

  /** How many of `n` attempts, starting with number `at`, are accepted before one fails. */
  function AcceptedRun(env: Env, at: nat, n: nat): (k: nat)
    ensures k <= n
    decreases n
  {
    if n == 0 || !env.accepts(at) then 0 else 1 + AcceptedRun(env, at + 1, n - 1)
  }

  /** A resolution that publishes at least one mirror and then fails before the last. */
  ghost predicate CutShort(env: Env, st: State, u: Update) {
    && u.SlotStatus? && (u.status.Finalized? || u.status.Dead?)
    && var n := |PendingIn(st.pending, u.slot)|;
       0 < AcceptedRun(env, st.attempts, n) < n
  }

  lemma ReplaySnoc(trace: seq<Entry>, e: Entry, slot: u64)
    ensures Replay(trace + [e], slot) ==
      if e.PubSwap? && e.ev.slot == slot then Booked(Replay(trace, slot), e.ev) else Replay(trace, slot)
  {
    assert (trace + [e])[..|trace|] == trace;
  }

  lemma ReplayIgnores(trace: seq<Entry>, e: Entry)
    requires !e.PubSwap?
    ensures forall slot: u64 :: Replay(trace + [e], slot) == Replay(trace, slot)
  {
    forall slot: u64
      ensures Replay(trace + [e], slot) == Replay(trace, slot)
    {
      ReplaySnoc(trace, e, slot);
    }
  }

  lemma {:induction false} ProvisionalInStep(env: Env, st: State, evs: seq<Swap>)
    requires InStep(st) && forall i :: 0 <= i < |evs| ==> evs[i].provisional
    ensures InStep(PublishProvisional(env, st, evs).state)
    decreases |evs|
  {
    if evs != [] {
      var o := Publish(env, st, PubSwap(evs[0]));
      if o.ok {
        forall slot: u64
          ensures Replay(o.state.trace, slot).Ledger?
          ensures Replay(o.state.trace, slot).open == PendingIn(AppendPending(o.state, evs[0]).pending, slot)
        {
          ReplaySnoc(st.trace, PubSwap(evs[0]), slot);
        }
        ProvisionalInStep(env, AppendPending(o.state, evs[0]), evs[1..]);
      }
    }
  }

  /** One accepted mirror of the oldest open swap closes it. */
  lemma CloseOne(trace: seq<Entry>, slot: u64, evs: seq<Swap>, closed: seq<Closed>, undo: bool)
    requires evs != [] && Replay(trace, slot) == Ledger(evs, closed) && evs[0].slot == slot
    ensures Replay(trace + [PubSwap(Mirror(evs[0], undo))], slot) == Ledger(evs[1..], closed + [Closed(evs[0], undo)])
  {
    ReplaySnoc(trace, PubSwap(Mirror(evs[0], undo)), slot);
  }

  lemma {:induction false} MirrorsAccepted(env: Env, st: State, evs: seq<Swap>, undo: bool)
    ensures PublishMirrors(env, st, evs, undo).ok <==> AcceptedRun(env, st.attempts, |evs|) == |evs|
    decreases |evs|
  {
    if evs != [] {
      var o := Publish(env, st, PubSwap(Mirror(evs[0], undo)));
      MirrorsAccepted(env, o.state, evs[1..], undo);
    }
  }

  lemma ProvisionalTail(evs: seq<Swap>, slot: u64)
    requires ProvisionalIn(evs, slot) && evs != []
    ensures evs[0].slot == slot && ProvisionalIn(evs[1..], slot)
  {
    assert evs[1..] == evs[1..|evs|];
  }

  /** An accepted mirror of one slot is followed by the others from the state with the trace extended by it. */
  lemma MirrorsStep(env: Env, st: State, evs: seq<Swap>, undo: bool, st': State)
    requires evs != [] && env.accepts(st.attempts)
    requires st' == st.(attempts := st.attempts + 1, trace := st.trace + [PubSwap(Mirror(evs[0], undo))])
    ensures PublishMirrors(env, st, evs, undo) == PublishMirrors(env, st', evs[1..], undo)
  {}

  /** Mirrors touch no other slot's ledger. */
  lemma {:induction false} MirrorsStayInSlot(env: Env, st: State, slot: u64, evs: seq<Swap>, undo: bool, s: u64)
    requires ProvisionalIn(evs, slot) && s != slot
    ensures Replay(PublishMirrors(env, st, evs, undo).state.trace, s) == Replay(st.trace, s)
    decreases |evs|
  {
    if evs != [] && env.accepts(st.attempts) {
      var e := PubSwap(Mirror(evs[0], undo));
      var st' := st.(attempts := st.attempts + 1, trace := st.trace + [e]);
      MirrorsStep(env, st, evs, undo, st');
      ProvisionalTail(evs, slot);
      ReplaySnoc(st.trace, e, s);
      MirrorsStayInSlot(env, st', slot, evs[1..], undo, s);
    }
  }

  function Closings(evs: seq<Swap>, undo: bool): (cs: seq<Closed>)
    ensures |cs| == |evs| && forall i :: 0 <= i < |evs| ==> cs[i] == Closed(evs[i], undo)
  {
    seq(|evs|, i requires 0 <= i < |evs| => Closed(evs[i], undo))
  }

  /** The ledger of a slot once the mirrors of the `n` oldest of its open swaps have been published. */
  function ClosedTo(evs: seq<Swap>, closed: seq<Closed>, n: nat, undo: bool): Ledger
    requires n <= |evs|
  {
    Ledger(evs[n..], closed + Closings(evs[..n], undo))
  }

  lemma ClosedToStep(evs: seq<Swap>, closed: seq<Closed>, n: nat, undo: bool)
    requires n < |evs|
    ensures ClosedTo(evs[1..], closed + [Closed(evs[0], undo)], n, undo) == ClosedTo(evs, closed, n + 1, undo)
    ensures ClosedTo(evs, closed, 0, undo) == Ledger(evs, closed)
  {
    assert evs[1..][n..] == evs[n + 1..];
    assert [Closed(evs[0], undo)] + Closings(evs[1..][..n], undo) == Closings(evs[..n + 1], undo);
    assert evs[0..] == evs && closed + Closings(evs[..0], undo) == closed;
  }

  /** Publishing mirrors closes the oldest open swaps one by one, settled or undone as the mirrors say, as
      many as are accepted in a row. */
  lemma {:induction false} MirrorsClose(env: Env, st: State, slot: u64, evs: seq<Swap>, closed: seq<Closed>, undo: bool)
    requires evs != [] && Replay(st.trace, slot) == Ledger(evs, closed) && ProvisionalIn(evs, slot)
    ensures Replay(PublishMirrors(env, st, evs, undo).state.trace, slot)
         == ClosedTo(evs, closed, AcceptedRun(env, st.attempts, |evs|), undo)
    decreases |evs|
  {
    if env.accepts(st.attempts) {
      var st' := st.(attempts := st.attempts + 1, trace := st.trace + [PubSwap(Mirror(evs[0], undo))]);
      MirrorsStep(env, st, evs, undo, st');
      ProvisionalTail(evs, slot);
      CloseOne(st.trace, slot, evs, closed, undo);
      var n := AcceptedRun(env, st'.attempts, |evs| - 1);
      ClosedToStep(evs, closed, n, undo);
      if |evs| > 1 {
        MirrorsClose(env, st', slot, evs[1..], closed + [Closed(evs[0], undo)], undo);
      } else {
        ClosedToStep(evs, closed, 0, undo);
        assert PublishMirrors(env, st', evs[1..], undo).state == st';
      }
      assert AcceptedRun(env, st.attempts, |evs|) == n + 1;
    } else {
      ClosedToStep(evs, closed, 0, undo);
      assert PublishMirrors(env, st, evs, undo).state.trace == st.trace;
    }
  }

  lemma ResolveInStep(env: Env, st: State, slot: u64, undo: bool)
    requires Inv(st) && InStep(st) && PendingIn(st.pending, slot) != []
    ensures
      var n := |PendingIn(st.pending, slot)|;
      InStep(ResolveSlot(env, st, slot, undo).state) <==> !(0 < AcceptedRun(env, st.attempts, n) < n)
  {
    var evs := PendingIn(st.pending, slot);
    var n := AcceptedRun(env, st.attempts, |evs|);
    assert SlotInv(st.pending, st.trace, slot);
    MirrorsClose(env, st, slot, evs, Replay(st.trace, slot).closed, undo);
    forall s: u64 | s != slot
      ensures Replay(PublishMirrors(env, st, evs, undo).state.trace, s) == Replay(st.trace, s)
    {
      MirrorsStayInSlot(env, st, slot, evs, undo, s);
    }
    MirrorsAccepted(env, st, evs, undo);
    MirrorsKeepMaps(env, st, evs, undo);
    var o, st' := PublishMirrors(env, st, evs, undo), ResolveSlot(env, st, slot, undo).state;
    if o.ok {
      ReplayIgnores(o.state.trace, Resolved(slot));
    } else if 0 < n {
      assert Replay(st'.trace, slot).open != PendingIn(st'.pending, slot);
    }
  }

  /** A head that follows changes no ledger. */
  lemma HeadInStep(env: Env, st: State, slot: u64, status: Status)
    ensures InStep(PublishHeadStatus(env, st, slot, status).state) <==> InStep(st)
  {
    if slot in st.blockHeads {
      ReplayIgnores(st.trace, PubHead(st.blockHeads[slot].(status := status)));
    }
  }

  lemma NothingToResolve(env: Env, st: State, slot: u64, undo: bool)
    requires InStep(st) && PendingIn(st.pending, slot) == []
    ensures InStep(ResolveSlot(env, st, slot, undo).state)
  {
    var st' := ResolveSlot(env, st, slot, undo).state;
    forall s: u64
      ensures Replay(st'.trace, s).Ledger? && Replay(st'.trace, s).open == PendingIn(st'.pending, s)
    {
      assert PendingIn(st'.pending, s) == PendingIn(st.pending, s);
    }
  }

  /** Handling a slot status keeps the ledgers in step exactly when it is not cut short. */
  lemma StatusInStep(env: Env, st: State, slot: u64, status: Status)
    requires Inv(st) && InStep(st) && (status.Finalized? || status.Dead?)
    ensures InStep(HandleSlot(env, st, slot, status).state) <==> !CutShort(env, st, SlotStatus(slot, status))
  {
    var o := ResolveSlot(env, st, slot, status.Dead?);
    if PendingIn(st.pending, slot) == [] {
      NothingToResolve(env, st, slot, status.Dead?);
    } else {
      ResolveInStep(env, st, slot, status.Dead?);
    }
    if o.ok { HeadInStep(env, o.state, slot, status); }
  }

  lemma HandleInStep(env: Env, st: State, u: Update)
    requires Inv(st) && InStep(st) && WellFormed(u)
    ensures InStep(Handle(env, st, u).state) <==> !CutShort(env, st, u)
  {
    match u
    case Transaction(decoded, meta) =>
      if decoded.Some? {
        var o := if meta.Some? then Publish(env, st, PubMeta(meta.value)) else Outcome(st, true);
        if meta.Some? { ReplayIgnores(st.trace, PubMeta(meta.value)); }
        if o.ok { ProvisionalInStep(env, o.state, decoded.value); }
      }
    case BlockMeta(slot, blockTime) =>
      ReplayIgnores(st.trace, PubHead(Head(slot, if blockTime.Some? then AsUnsigned(blockTime.value) else 0, Confirmed)));
    case SlotStatus(slot, status) =>
      if status.Finalized? || status.Dead? {
        StatusInStep(env, st, slot, status);
      }
  }

  /** After every update of the run, the first to the last, the ledgers are in step. */
  ghost predicate AlwaysInStep(env: Env, us: seq<Update>) {
    InStep(RunUpdates(env, us)) && (us != [] ==> AlwaysInStep(env, us[..|us| - 1]))
  }

  ghost predicate NeverCutShort(env: Env, us: seq<Update>) {
    us != [] ==>
      NeverCutShort(env, us[..|us| - 1]) && !CutShort(env, RunUpdates(env, us[..|us| - 1]), us[|us| - 1])
  }

  /** Exactly when the published stream is a faithful ledger: all along the run each slot's open swaps are
      its pending list, in order, if and only if no resolution was ever cut short. */
  lemma {:induction false} LedgerFollowsPending(env: Env, us: seq<Update>)
    requires forall i :: 0 <= i < |us| ==> WellFormed(us[i])
    ensures AlwaysInStep(env, us) <==> NeverCutShort(env, us)
  {
    if us != [] {
      var init, last := us[..|us| - 1], us[|us| - 1];
      LedgerFollowsPending(env, init);
      PendingIsUnresolved(env, init);
      if AlwaysInStep(env, init) {
        assert InStep(RunUpdates(env, init));
        HandleInStep(env, RunUpdates(env, init), last);
      }
    }
  }

  // ---------------------------------------------------------------- runs without failures

  /** One slot as the updates alone determine it: swaps open and closed, the head on record, and every head
      version published. */
  datatype Account = Account(open: seq<Swap>, closed: seq<Closed>, head: Option<Head>, heads: seq<Head>)

  function InSlot(evs: seq<Swap>, slot: u64): seq<Swap> {
    if evs == [] then [] else (if evs[0].slot == slot then [evs[0]] else []) + InSlot(evs[1..], slot)
  }

  /** A transaction opens its swaps; finalized settles everything open, dead undoes it, and either completes
      the recorded head under its own name; block metadata records a confirmed head. */
  function AfterUpdate(acc: Account, u: Update, slot: u64): Account {
    match u
    case Transaction(decoded, _) =>
      if decoded.Some? then acc.(open := acc.open + InSlot(decoded.value, slot)) else acc
    case BlockMeta(s, blockTime) =>
      var head := Head(s, if blockTime.Some? then AsUnsigned(blockTime.value) else 0, Confirmed);
      if s == slot then acc.(head := Some(head), heads := acc.heads + [head]) else acc
    case SlotStatus(s, status) =>
      if s == slot && (status.Finalized? || status.Dead?) then
        Account([], acc.closed + Closings(acc.open, status.Dead?), None,
                acc.heads + if acc.head.Some? then [acc.head.value.(status := status)] else [])
      else acc
  }

  function Expected(us: seq<Update>, slot: u64): Account {
    if us == [] then Account([], [], None, [])
    else AfterUpdate(Expected(us[..|us| - 1], slot), us[|us| - 1], slot)
  }

  function HeadsOf(trace: seq<Entry>, slot: u64): seq<Head> {
    if trace == [] then []
    else
      var before, last := HeadsOf(trace[..|trace| - 1], slot), trace[|trace| - 1];
      if last.PubHead? && last.head.slot == slot then before + [last.head] else before
  }

  function HeadIn(blockHeads: map<u64, Head>, slot: u64): Option<Head> {
    if slot in blockHeads then Some(blockHeads[slot]) else None
  }

  /** What was published about the slot, and what is kept of it, are what the account says. */
  ghost predicate Agrees(st: State, acc: Account, slot: u64) {
    && Replay(st.trace, slot) == Ledger(acc.open, acc.closed) && PendingIn(st.pending, slot) == acc.open
    && HeadsOf(st.trace, slot) == acc.heads && HeadIn(st.blockHeads, slot) == acc.head
  }

  lemma HeadsOfSnoc(trace: seq<Entry>, e: Entry, slot: u64)
    ensures HeadsOf(trace + [e], slot) ==
      HeadsOf(trace, slot) + if e.PubHead? && e.head.slot == slot then [e.head] else []
  {
    assert (trace + [e])[..|trace|] == trace;
  }

  lemma InSlotStep(open: seq<Swap>, evs: seq<Swap>, slot: u64)
    requires evs != []
    ensures open + InSlot([evs[0]], slot) + InSlot(evs[1..], slot) == open + InSlot(evs, slot)
  {
    var own := if evs[0].slot == slot then [evs[0]] else [];
    assert InSlot([evs[0]], slot) == own by {
      assert [evs[0]][1..] == [] && own + [] == own;
    }
    Regroup(open, own, InSlot(evs[1..], slot));
  }

  lemma Regroup(xs: seq<Swap>, ys: seq<Swap>, zs: seq<Swap>)
    ensures (xs + ys) + zs == xs + (ys + zs)
  {}

  lemma ProvisionalStep(env: Env, st: State, evs: seq<Swap>, st': State)
    requires evs != [] && env.accepts(st.attempts)
    requires st' == AppendPending(Publish(env, st, PubSwap(evs[0])).state, evs[0])
    ensures PublishProvisional(env, st, evs) == PublishProvisional(env, st', evs[1..])
  {}

  lemma OneProvisionalAgrees(env: Env, st: State, acc: Account, ev: Swap, slot: u64)
    requires Agrees(st, acc, slot) && env.accepts(st.attempts) && ev.provisional
    ensures Agrees(AppendPending(Publish(env, st, PubSwap(ev)).state, ev), acc.(open := acc.open + InSlot([ev], slot)), slot)
  {
    ReplaySnoc(st.trace, PubSwap(ev), slot);
    HeadsOfSnoc(st.trace, PubSwap(ev), slot);
    assert [ev][1..] == [];
    assert InSlot([ev], slot) == if ev.slot == slot then [ev] else [];
    assert acc.open + [] == acc.open;
  }

  lemma {:induction false} ProvisionalAgrees(env: Env, st: State, acc: Account, evs: seq<Swap>, slot: u64)
    requires Agrees(st, acc, slot) && forall n: nat :: env.accepts(n)
    requires forall i :: 0 <= i < |evs| ==> evs[i].provisional
    ensures Agrees(PublishProvisional(env, st, evs).state, acc.(open := acc.open + InSlot(evs, slot)), slot)
    decreases |evs|
  {
    if evs == [] {
      assert acc.open + [] == acc.open;
    } else {
      OneProvisionalAgrees(env, st, acc, evs[0], slot);
      var acc' := acc.(open := acc.open + InSlot([evs[0]], slot));
      var st' := AppendPending(Publish(env, st, PubSwap(evs[0])).state, evs[0]);
      ProvisionalStep(env, st, evs, st');
      ProvisionalAgrees(env, st', acc', evs[1..], slot);
      InSlotStep(acc.open, evs, slot);
    }
  }

  lemma {:induction false} MirrorsPublishNoHeads(env: Env, st: State, evs: seq<Swap>, undo: bool, slot: u64)
    ensures HeadsOf(PublishMirrors(env, st, evs, undo).state.trace, slot) == HeadsOf(st.trace, slot)
    decreases |evs|
  {
    if evs != [] {
      var e := PubSwap(Mirror(evs[0], undo));
      HeadsOfSnoc(st.trace, e, slot);
      MirrorsPublishNoHeads(env, Publish(env, st, e).state, evs[1..], undo, slot);
    }
  }

  lemma {:induction false} AcceptsEverything(env: Env, at: nat, n: nat)
    requires forall i: nat :: env.accepts(i)
    ensures AcceptedRun(env, at, n) == n
    decreases n
  {
    if n > 0 { AcceptsEverything(env, at + 1, n - 1); }
  }

  /** Resolving the slot itself closes everything open, one way or the other. */
  lemma ResolveAgrees(env: Env, st: State, acc: Account, slot: u64, undo: bool)
    requires Inv(st) && Agrees(st, acc, slot) && forall n: nat :: env.accepts(n)
    ensures ResolveSlot(env, st, slot, undo).ok
    ensures Agrees(ResolveSlot(env, st, slot, undo).state,
                   acc.(open := [], closed := acc.closed + Closings(acc.open, undo)), slot)
  {
    var evs := acc.open;
    if evs == [] {
      assert acc.closed + Closings(evs, undo) == acc.closed;
    } else {
      assert SlotInv(st.pending, st.trace, slot);
      AcceptsEverything(env, st.attempts, |evs|);
      MirrorsAccepted(env, st, evs, undo);
      MirrorsClose(env, st, slot, evs, acc.closed, undo);
      MirrorsKeepMaps(env, st, evs, undo);
      MirrorsPublishNoHeads(env, st, evs, undo, slot);
      assert evs[..|evs|] == evs;
      var trace := PublishMirrors(env, st, evs, undo).state.trace;
      ReplaySnoc(trace, Resolved(slot), slot);
      HeadsOfSnoc(trace, Resolved(slot), slot);
    }
  }

  lemma HeadAgrees(env: Env, st: State, acc: Account, slot: u64, status: Status)
    requires HeadsInv(st.blockHeads) && Agrees(st, acc, slot) && forall n: nat :: env.accepts(n)
    ensures Agrees(PublishHeadStatus(env, st, slot, status).state,
                   acc.(head := None, heads := acc.heads + if acc.head.Some? then [acc.head.value.(status := status)] else []), slot)
  {
    if acc.head.Some? {
      var e := PubHead(acc.head.value.(status := status));
      ReplaySnoc(st.trace, e, slot);
      HeadsOfSnoc(st.trace, e, slot);
    } else {
      assert acc.heads + [] == acc.heads;
    }
  }

  lemma OtherMirrorsAgree(env: Env, st: State, acc: Account, s: u64, evs: seq<Swap>, undo: bool, slot: u64)
    requires Agrees(st, acc, slot) && ProvisionalIn(evs, s) && s != slot
    ensures Agrees(PublishMirrors(env, st, evs, undo).state, acc, slot)
  {
    MirrorsStayInSlot(env, st, s, evs, undo, slot);
    MirrorsKeepMaps(env, st, evs, undo);
    MirrorsPublishNoHeads(env, st, evs, undo, slot);
  }

  /** Resolving another slot leaves this one alone. */
  lemma OtherResolveAgrees(env: Env, st: State, acc: Account, s: u64, undo: bool, slot: u64)
    requires Inv(st) && Agrees(st, acc, slot) && s != slot
    ensures Agrees(ResolveSlot(env, st, s, undo).state, acc, slot)
  {
    var evs := PendingIn(st.pending, s);
    assert SlotInv(st.pending, st.trace, s);
    OtherMirrorsAgree(env, st, acc, s, evs, undo, slot);
    var trace := PublishMirrors(env, st, evs, undo).state.trace;
    ReplaySnoc(trace, Resolved(s), slot);
    HeadsOfSnoc(trace, Resolved(s), slot);
  }

  lemma OtherHeadAgrees(env: Env, st: State, acc: Account, s: u64, status: Status, slot: u64)
    requires HeadsInv(st.blockHeads) && Agrees(st, acc, slot) && s != slot
    ensures Agrees(PublishHeadStatus(env, st, s, status).state, acc, slot)
  {
    if s in st.blockHeads {
      var e := PubHead(st.blockHeads[s].(status := status));
      ReplayIgnores(st.trace, e);
      HeadsOfSnoc(st.trace, e, slot);
    }
  }

  lemma StatusAgrees(env: Env, st: State, acc: Account, s: u64, status: Status, slot: u64)
    requires Inv(st) && Agrees(st, acc, slot) && forall n: nat :: env.accepts(n)
    ensures Agrees(HandleSlot(env, st, s, status).state, AfterUpdate(acc, SlotStatus(s, status), slot), slot)
  {
    if s != slot {
      OtherResolveAgrees(env, st, acc, s, status.Dead?, slot);
      ResolveInv(env, st, s, status.Dead?);
      OtherHeadAgrees(env, ResolveSlot(env, st, s, status.Dead?).state, acc, s, status, slot);
    } else if status.Finalized? || status.Dead? {
      ResolveAgrees(env, st, acc, slot, status.Dead?);
      ResolveInv(env, st, slot, status.Dead?);
      HeadAgrees(env, ResolveSlot(env, st, slot, status.Dead?).state,
                 acc.(open := [], closed := acc.closed + Closings(acc.open, status.Dead?)), slot, status);
    }
  }

  lemma HandleAgrees(env: Env, st: State, acc: Account, u: Update, slot: u64)
    requires Inv(st) && WellFormed(u) && Agrees(st, acc, slot) && forall n: nat :: env.accepts(n)
    ensures Agrees(Handle(env, st, u).state, AfterUpdate(acc, u, slot), slot)
  {
    match u
    case Transaction(decoded, meta) =>
      if decoded.Some? {
        var o := if meta.Some? then Publish(env, st, PubMeta(meta.value)) else Outcome(st, true);
        if meta.Some? {
          ReplayIgnores(st.trace, PubMeta(meta.value));
          HeadsOfSnoc(st.trace, PubMeta(meta.value), slot);
        }
        ProvisionalAgrees(env, o.state, acc, decoded.value, slot);
      }
    case BlockMeta(s, blockTime) =>
      var e := PubHead(Head(s, if blockTime.Some? then AsUnsigned(blockTime.value) else 0, Confirmed));
      ReplayIgnores(st.trace, e);
      HeadsOfSnoc(st.trace, e, slot);
    case SlotStatus(s, status) => StatusAgrees(env, st, acc, s, status, slot);
  }

  /** When no publish fails, folding the updates gives the whole published history of every slot: which swaps
      are open (and pending), which are settled and which undone, and every version of its head. */
  lemma {:induction false} FailureFreeLedger(env: Env, us: seq<Update>, slot: u64)
    requires forall i :: 0 <= i < |us| ==> WellFormed(us[i])
    requires forall n: nat :: env.accepts(n)
    ensures Agrees(RunUpdates(env, us), Expected(us, slot), slot)
  {
    if us != [] {
      var init := us[..|us| - 1];
      FailureFreeLedger(env, init, slot);
      PendingIsUnresolved(env, init);
      HandleAgrees(env, RunUpdates(env, init), Expected(init, slot), us[|us| - 1], slot);
    }
  }

  /** And each provisional swap of the slot is open or closed, once, never both settled and undone. */
  lemma FailureFreeConservation(env: Env, us: seq<Update>, slot: u64)
    requires forall i :: 0 <= i < |us| ==> WellFormed(us[i])
    requires forall n: nat :: env.accepts(n)
    ensures ClosedSwaps(Expected(us, slot).closed) + Expected(us, slot).open
         == ProvisionalsOf(RunUpdates(env, us).trace, slot)
  {
    FailureFreeLedger(env, us, slot);
    LedgerConserves(RunUpdates(env, us).trace, slot);
  }

  // ---------------------------------------------------------------- a resolution cut short

  lemma PublishTheLast(env: Env, st: State, a: Swap, undo: bool)
    ensures PublishProvisional(env, st, [a]) ==
      var o := Publish(env, st, PubSwap(a));
      if o.ok then Outcome(AppendPending(o.state, a), true) else o
    ensures PublishMirrors(env, st, [a], undo) == Publish(env, st, PubSwap(Mirror(a, undo)))
  {
    assert [a][1..] == [];
  }

  lemma PublishPair(env: Env, st: State, a: Swap, b: Swap, undo: bool)
    ensures PublishProvisional(env, st, [a, b]) ==
      var o := Publish(env, st, PubSwap(a));
      if o.ok then PublishProvisional(env, AppendPending(o.state, a), [b]) else o
    ensures PublishMirrors(env, st, [a, b], undo) ==
      var o := Publish(env, st, PubSwap(Mirror(a, undo)));
      if o.ok then PublishMirrors(env, o.state, [b], undo) else o
  {
    assert [a, b][1..] == [b];
  }

  /** Two swaps of one slot; finalizing publishes the first and fails on the second; then the slot dies: the
      first swap ends up both settled and undone. */
  lemma CutShortResolvesTwice(a: Swap, b: Swap, slot: u64)
    requires a.slot == b.slot == slot && a.provisional && b.provisional && !a.isUndo && !b.isUndo
    ensures
      var us := [Transaction(Some([a, b]), None), SlotStatus(slot, Finalized), SlotStatus(slot, Dead)];
      var trace := RunUpdates(Env(n => n != 3), us).trace;
      PubSwap(Mirror(a, false)) in trace && PubSwap(Mirror(a, true)) in trace
  {
    var env := Env(n => n != 3);
    var us := [Transaction(Some([a, b]), None), SlotStatus(slot, Finalized), SlotStatus(slot, Dead)];
    assert us[..2] == [us[0], us[1]] && [us[0], us[1]][..1] == [us[0]] && [us[0]][..0] == [];
    PublishPair(env, START, a, b, false);
    var half := AppendPending(Publish(env, START, PubSwap(a)).state, a);
    PublishTheLast(env, half, b, false);
    var s0 := RunUpdates(env, [us[0]]);
    assert RunUpdates(env, []) == START;
    assert s0 == Handle(env, START, us[0]).state;
    assert s0 == PublishProvisional(env, START, [a, b]).state;
    assert half.pending[slot] == [a] && s0.pending[slot] == [a] + [b] == [a, b] && s0.attempts == 2;
    PublishPair(env, s0, a, b, false);
    PublishTheLast(env, Publish(env, s0, PubSwap(Mirror(a, false))).state, b, false);
    var s1 := RunUpdates(env, [us[0], us[1]]);
    assert s1 == Handle(env, s0, us[1]).state;
    assert s1.trace == s0.trace + [PubSwap(Mirror(a, false))] && s1.attempts == 4 && s1.pending == s0.pending;
    PublishPair(env, s1, a, b, true);
    PublishTheLast(env, Publish(env, s1, PubSwap(Mirror(a, true))).state, b, true);
  }
}

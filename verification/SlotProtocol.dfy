/** Provisional swaps, settled or undone slot by slot through a publisher that may fail
    (ingestor/geyser/processor.go). */
module SlotProtocol {
  import opened Wrappers
  import opened Words

  /** A canonical swap event; `payload` stands for the fields this component only copies. */
  datatype Swap = Swap(slot: u64, payload: string, provisional: bool, isUndo: bool)

  datatype Status = Confirmed | Finalized | Dead | Other

  datatype Head = Head(slot: u64, tsSec: u64, status: Status)

  /** What the publisher has accepted, in order. `Resolved(slot)` is no message: it marks the point where
      the slot's pending swaps were discarded after all of them had been published. */
  datatype Entry = PubSwap(ev: Swap) | PubHead(head: Head) | PubMeta(meta: string) | Resolved(slot: u64)

  /** One incoming update; a transaction arrives as what the decoder made of it. */
  datatype Update =
    | Transaction(decoded: Option<seq<Swap>>, meta: Option<string>)
    | BlockMeta(slot: u64, blockTime: Option<i64>)
    | SlotStatus(slot: u64, status: Status)

  /** The decoder emits provisional events only. */
  predicate WellFormed(u: Update) {
    u.Transaction? && u.decoded.Some? ==>
      forall i :: 0 <= i < |u.decoded.value| ==> u.decoded.value[i].provisional && !u.decoded.value[i].isUndo
  }

  /** The publisher's answers: attempt number `n` succeeds exactly when `accepts(n)`. */
  datatype Env = Env(accepts: nat -> bool)

  datatype State = State(
    pending: map<u64, seq<Swap>>, blockHeads: map<u64, Head>, trace: seq<Entry>, attempts: nat)

  datatype Outcome = Outcome(state: State, ok: bool)

  const START: State := State(map[], map[], [], 0)

  function PendingIn(pending: map<u64, seq<Swap>>, slot: u64): seq<Swap> {
    if slot in pending then pending[slot] else []
  }

  function Mirror(ev: Swap, undo: bool): Swap { ev.(provisional := false, isUndo := undo) }

  // ---------------------------------------------------------------- the steps

  function Publish(env: Env, st: State, e: Entry): Outcome {
    var st' := st.(attempts := st.attempts + 1);
    if env.accepts(st.attempts) then Outcome(st'.(trace := st.trace + [e]), true) else Outcome(st', false)
  }

  function AppendPending(st: State, ev: Swap): State {
    st.(pending := st.pending[ev.slot := PendingIn(st.pending, ev.slot) + [ev]])
  }

  function PublishProvisional(env: Env, st: State, evs: seq<Swap>): Outcome
    decreases |evs|
  {
    if evs == [] then Outcome(st, true)
    else
      var o := Publish(env, st, PubSwap(evs[0]));
      if o.ok then PublishProvisional(env, AppendPending(o.state, evs[0]), evs[1..]) else o
  }

  function HandleTransaction(env: Env, st: State, decoded: Option<seq<Swap>>, meta: Option<string>): Outcome {
    if decoded.None? then Outcome(st, false)
    else
      var o := if meta.Some? then Publish(env, st, PubMeta(meta.value)) else Outcome(st, true);
      if o.ok then PublishProvisional(env, o.state, decoded.value) else o
  }

  function HandleBlockMeta(env: Env, st: State, slot: u64, blockTime: Option<i64>): Outcome {
    var head := Head(slot, if blockTime.Some? then AsUnsigned(blockTime.value) else 0, Confirmed);
    Publish(env, st.(blockHeads := st.blockHeads[slot := head]), PubHead(head))
  }

  function PublishMirrors(env: Env, st: State, evs: seq<Swap>, undo: bool): Outcome
    decreases |evs|
  {
    if evs == [] then Outcome(st, true)
    else
      var o := Publish(env, st, PubSwap(Mirror(evs[0], undo)));
      if o.ok then PublishMirrors(env, o.state, evs[1..], undo) else o
  }

  /** finalizeSlot and undoSlot, which differ only in the flag. */
  function ResolveSlot(env: Env, st: State, slot: u64, undo: bool): Outcome {
    var evs := PendingIn(st.pending, slot);
    if evs == [] then Outcome(st.(pending := st.pending - {slot}), true)
    else
      var o := PublishMirrors(env, st, evs, undo);
      if o.ok then Outcome(o.state.(pending := o.state.pending - {slot}, trace := o.state.trace + [Resolved(slot)]), true)
      else o
  }

  function PublishHeadStatus(env: Env, st: State, slot: u64, status: Status): Outcome {
    if slot !in st.blockHeads then Outcome(st, true)
    else
      var o := Publish(env, st, PubHead(st.blockHeads[slot].(status := status)));
      if o.ok then Outcome(o.state.(blockHeads := o.state.blockHeads - {slot}), true) else o
  }

  function HandleSlot(env: Env, st: State, slot: u64, status: Status): Outcome {
    if status.Finalized? || status.Dead? then
      var o := ResolveSlot(env, st, slot, status.Dead?);
      if o.ok then PublishHeadStatus(env, o.state, slot, status) else o
    else Outcome(st, true)
  }

  function Handle(env: Env, st: State, u: Update): Outcome {
    match u
    case Transaction(decoded, meta) => HandleTransaction(env, st, decoded, meta)
    case BlockMeta(slot, blockTime) => HandleBlockMeta(env, st, slot, blockTime)
    case SlotStatus(slot, status) => HandleSlot(env, st, slot, status)
  }

  /** The state after some updates; an update that failed is not undone and the next one is handled as usual. */
  function RunFrom(env: Env, st: State, us: seq<Update>): State {
    if us == [] then st else Handle(env, RunFrom(env, st, us[..|us| - 1]), us[|us| - 1]).state
  }

  function RunUpdates(env: Env, us: seq<Update>): State { RunFrom(env, START, us) }

  // ---------------------------------------------------------------- under arbitrary failures

  function UnresolvedAfter(before: seq<Swap>, e: Entry, slot: u64): seq<Swap> {
    match e
    case PubSwap(ev) => if ev.provisional && ev.slot == slot then before + [ev] else before
    case Resolved(s) => if s == slot then [] else before
    case _ => before
  }

  /** The provisional swaps of a slot accepted since its last completed resolution. */
  function Unresolved(trace: seq<Entry>, slot: u64): seq<Swap> {
    if trace == [] then []
    else UnresolvedAfter(Unresolved(trace[..|trace| - 1], slot), trace[|trace| - 1], slot)
  }

  function Mirrors(evs: seq<Swap>, undo: bool): (ms: seq<Swap>)
    ensures |ms| == |evs| && forall i :: 0 <= i < |evs| ==> ms[i] == Mirror(evs[i], undo)
  {
    seq(|evs|, i requires 0 <= i < |evs| => Mirror(evs[i], undo))
  }

  function Swaps(evs: seq<Swap>): (es: seq<Entry>)
    ensures |es| == |evs| && forall i :: 0 <= i < |evs| ==> es[i] == PubSwap(evs[i])
  {
    seq(|evs|, i requires 0 <= i < |evs| => PubSwap(evs[i]))
  }

  /** `trace` ends with the whole batch of mirrors of the slot's unresolved swaps. */
  ghost predicate EndsWithBatch(trace: seq<Entry>, slot: u64, undo: bool) {
    var open := Unresolved(trace, slot);
    |open| <= |trace| && trace[|trace| - |open|..] == Swaps(Mirrors(open, undo))
  }

  /** What may follow `trace`: a final or undo of a swap that is unresolved; a finalized or dead head of a
      slot with nothing unresolved; a resolution that completes a whole batch of one kind. */
  ghost predicate Justified(trace: seq<Entry>, e: Entry) {
    match e
    case PubSwap(ev) =>
      ev.provisional || exists k :: 0 <= k < |Unresolved(trace, ev.slot)| && ev == Mirror(Unresolved(trace, ev.slot)[k], ev.isUndo)
    case PubHead(h) => h.status == Confirmed || Unresolved(trace, h.slot) == []
    case PubMeta(_) => true
    case Resolved(slot) =>
      Unresolved(trace, slot) != [] && (EndsWithBatch(trace, slot, false) || EndsWithBatch(trace, slot, true))
  }

  ghost predicate AllJustified(trace: seq<Entry>) {
    forall i :: 0 <= i < |trace| ==> Justified(trace[..i], trace[i])
  }

  ghost predicate ProvisionalIn(evs: seq<Swap>, slot: u64) {
    forall i :: 0 <= i < |evs| ==> evs[i].slot == slot && evs[i].provisional && !evs[i].isUndo
  }

  /** The slot's pending list is what the trace says is unresolved, all provisional and of that slot. */
  ghost predicate SlotInv(pending: map<u64, seq<Swap>>, trace: seq<Entry>, slot: u64) {
    PendingIn(pending, slot) == Unresolved(trace, slot) && ProvisionalIn(PendingIn(pending, slot), slot)
  }

  ghost predicate PendingInv(pending: map<u64, seq<Swap>>, trace: seq<Entry>) {
    forall slot: u64 :: SlotInv(pending, trace, slot)
  }

  ghost predicate HeadsInv(blockHeads: map<u64, Head>) {
    forall slot: u64 :: slot in blockHeads ==> blockHeads[slot].slot == slot
  }

  /** `pending` is exactly what the trace says is unresolved, and every entry of the trace was justified. */
  ghost predicate Inv(st: State) {
    PendingInv(st.pending, st.trace) && HeadsInv(st.blockHeads) && AllJustified(st.trace)
  }

  lemma UnresolvedSnoc(trace: seq<Entry>, e: Entry, slot: u64)
    ensures Unresolved(trace + [e], slot) == UnresolvedAfter(Unresolved(trace, slot), e, slot)
  {
    assert (trace + [e])[..|trace|] == trace;
  }

  lemma JustifiedSnoc(trace: seq<Entry>, e: Entry)
    requires AllJustified(trace) && Justified(trace, e)
    ensures AllJustified(trace + [e])
  {
    var trace' := trace + [e];
    forall i | 0 <= i < |trace'|
      ensures Justified(trace'[..i], trace'[i])
    {
      assert trace'[..i] == trace[..i];
    }
    assert trace[..|trace|] == trace;
  }

  lemma QuietEntry(pending: map<u64, seq<Swap>>, trace: seq<Entry>, e: Entry)
    requires PendingInv(pending, trace) && !e.Resolved? && (e.PubSwap? ==> !e.ev.provisional)
    ensures PendingInv(pending, trace + [e])
  {
    forall slot: u64
      ensures SlotInv(pending, trace + [e], slot)
    {
      assert SlotInv(pending, trace, slot);
      UnresolvedSnoc(trace, e, slot);
    }
  }

  /** Publishing anything but a provisional swap leaves what is unresolved as it was. */
  lemma PublishInv(env: Env, st: State, e: Entry)
    requires Inv(st) && Justified(st.trace, e) && !e.Resolved? && (e.PubSwap? ==> !e.ev.provisional)
    ensures Inv(Publish(env, st, e).state)
  {
    JustifiedSnoc(st.trace, e);
    QuietEntry(st.pending, st.trace, e);
  }

  lemma AppendedPending(pending: map<u64, seq<Swap>>, trace: seq<Entry>, ev: Swap)
    requires PendingInv(pending, trace) && ev.provisional && !ev.isUndo
    ensures PendingInv(pending[ev.slot := PendingIn(pending, ev.slot) + [ev]], trace + [PubSwap(ev)])
  {
    var pending' := pending[ev.slot := PendingIn(pending, ev.slot) + [ev]];
    forall slot: u64
      ensures SlotInv(pending', trace + [PubSwap(ev)], slot)
    {
      assert SlotInv(pending, trace, slot);
      UnresolvedSnoc(trace, PubSwap(ev), slot);
    }
  }

  lemma PublishOneProvisional(env: Env, st: State, ev: Swap)
    requires Inv(st) && ev.provisional && !ev.isUndo
    ensures
      var o := Publish(env, st, PubSwap(ev));
      Inv(if o.ok then AppendPending(o.state, ev) else o.state)
  {
    if Publish(env, st, PubSwap(ev)).ok {
      JustifiedSnoc(st.trace, PubSwap(ev));
      AppendedPending(st.pending, st.trace, ev);
    }
  }

  lemma {:induction false} ProvisionalInv(env: Env, st: State, evs: seq<Swap>)
    requires Inv(st) && forall i :: 0 <= i < |evs| ==> evs[i].provisional && !evs[i].isUndo
    ensures Inv(PublishProvisional(env, st, evs).state)
    decreases |evs|
  {
    if evs != [] {
      PublishOneProvisional(env, st, evs[0]);
      var o := Publish(env, st, PubSwap(evs[0]));
      if o.ok {
        ProvisionalInv(env, AppendPending(o.state, evs[0]), evs[1..]);
      }
    }
  }

  /** `trace` ends with the mirrors of the first `n` of `evs`. */
  ghost predicate EndsWithMirrors(trace: seq<Entry>, evs: seq<Swap>, n: nat, undo: bool)
    requires n <= |evs|
  {
    n <= |trace| && trace[|trace| - n..] == Swaps(Mirrors(evs[..n], undo))
  }

  lemma OneMoreMirror(trace: seq<Entry>, evs: seq<Swap>, n: nat, undo: bool)
    requires n < |evs| && EndsWithMirrors(trace, evs, n, undo)
    ensures EndsWithMirrors(trace + [PubSwap(Mirror(evs[n], undo))], evs, n + 1, undo)
  {
    var e := PubSwap(Mirror(evs[n], undo));
    assert (trace + [e])[|trace + [e]| - (n + 1)..] == trace[|trace| - n..] + [e];
    assert Swaps(Mirrors(evs[..n + 1], undo)) == Swaps(Mirrors(evs[..n], undo)) + [e];
  }

  lemma MirrorIsJustified(st: State, slot: u64, k: nat, undo: bool)
    requires Inv(st) && k < |PendingIn(st.pending, slot)|
    ensures Justified(st.trace, PubSwap(Mirror(PendingIn(st.pending, slot)[k], undo)))
  {
    assert SlotInv(st.pending, st.trace, slot);
  }

  /** Publishing the mirrors of the unresolved swaps from the `n`-th on: when all are accepted, the trace
      ends with the whole batch. */
  lemma {:induction false} MirrorsInv(env: Env, st: State, slot: u64, evs: seq<Swap>, n: nat, undo: bool)
    requires Inv(st) && evs == PendingIn(st.pending, slot) && n <= |evs|
    requires EndsWithMirrors(st.trace, evs, n, undo)
    ensures
      var o := PublishMirrors(env, st, evs[n..], undo);
      && Inv(o.state) && o.state.pending == st.pending
      && (o.ok ==> EndsWithMirrors(o.state.trace, evs, |evs|, undo))
    decreases |evs| - n
  {
    if n < |evs| {
      var e := PubSwap(Mirror(evs[n], undo));
      assert evs[n..][0] == evs[n] && evs[n..][1..] == evs[n + 1..];
      MirrorIsJustified(st, slot, n, undo);
      PublishInv(env, st, e);
      var o := Publish(env, st, e);
      if o.ok {
        OneMoreMirror(st.trace, evs, n, undo);
        MirrorsInv(env, o.state, slot, evs, n + 1, undo);
      }
    }
  }

  lemma DiscardedPending(pending: map<u64, seq<Swap>>, trace: seq<Entry>, slot: u64)
    requires PendingInv(pending, trace)
    ensures PendingInv(pending - {slot}, trace + [Resolved(slot)])
  {
    forall s: u64
      ensures SlotInv(pending - {slot}, trace + [Resolved(slot)], s)
    {
      assert SlotInv(pending, trace, s);
      UnresolvedSnoc(trace, Resolved(slot), s);
    }
  }

  /** Discarding the pending swaps of a slot once a whole batch of mirrors ends the trace. */
  lemma DiscardInv(st: State, slot: u64, undo: bool)
    requires Inv(st) && PendingIn(st.pending, slot) != []
    requires EndsWithMirrors(st.trace, PendingIn(st.pending, slot), |PendingIn(st.pending, slot)|, undo)
    ensures Inv(st.(pending := st.pending - {slot}, trace := st.trace + [Resolved(slot)]))
  {
    assert SlotInv(st.pending, st.trace, slot);
    BatchJustifiesResolution(st.trace, slot, undo);
    JustifiedSnoc(st.trace, Resolved(slot));
    DiscardedPending(st.pending, st.trace, slot);
  }

  lemma BatchJustifiesResolution(trace: seq<Entry>, slot: u64, undo: bool)
    requires Unresolved(trace, slot) != []
    requires EndsWithMirrors(trace, Unresolved(trace, slot), |Unresolved(trace, slot)|, undo)
    ensures Justified(trace, Resolved(slot))
  {
    var evs := Unresolved(trace, slot);
    assert evs[..|evs|] == evs;
    assert EndsWithBatch(trace, slot, undo);
  }

  lemma ForgetEmpty(pending: map<u64, seq<Swap>>, trace: seq<Entry>, slot: u64)
    requires PendingInv(pending, trace) && PendingIn(pending, slot) == []
    ensures PendingInv(pending - {slot}, trace)
  {
    forall s: u64
      ensures SlotInv(pending - {slot}, trace, s)
    {
      assert SlotInv(pending, trace, s);
    }
  }

  lemma ResolveInv(env: Env, st: State, slot: u64, undo: bool)
    requires Inv(st)
    ensures
      var o := ResolveSlot(env, st, slot, undo);
      Inv(o.state) && (o.ok ==> PendingIn(o.state.pending, slot) == [])
  {
    var evs := PendingIn(st.pending, slot);
    if evs == [] {
      ForgetEmpty(st.pending, st.trace, slot);
    } else {
      assert EndsWithMirrors(st.trace, evs, 0, undo);
      assert evs[0..] == evs;
      MirrorsInv(env, st, slot, evs, 0, undo);
      var o := PublishMirrors(env, st, evs, undo);
      if o.ok { DiscardInv(o.state, slot, undo); }
    }
  }

  lemma HandleInv(env: Env, st: State, u: Update)
    requires Inv(st) && WellFormed(u)
    ensures Inv(Handle(env, st, u).state)
  {
    match u
    case Transaction(decoded, meta) =>
      if decoded.Some? {
        var o := if meta.Some? then Publish(env, st, PubMeta(meta.value)) else Outcome(st, true);
        if meta.Some? { PublishInv(env, st, PubMeta(meta.value)); }
        if o.ok { ProvisionalInv(env, o.state, decoded.value); }
      }
    case BlockMeta(slot, blockTime) =>
      var head := Head(slot, if blockTime.Some? then AsUnsigned(blockTime.value) else 0, Confirmed);
      PublishInv(env, st.(blockHeads := st.blockHeads[slot := head]), PubHead(head));
    case SlotStatus(slot, status) =>
      if status.Finalized? || status.Dead? { HandleSlotInv(env, st, slot, status); }
  }

  lemma HandleSlotInv(env: Env, st: State, slot: u64, status: Status)
    requires Inv(st) && (status.Finalized? || status.Dead?)
    ensures Inv(HandleSlot(env, st, slot, status).state)
  {
    ResolveInv(env, st, slot, status.Dead?);
    var o := ResolveSlot(env, st, slot, status.Dead?);
    if o.ok { HeadStatusInv(env, o.state, slot, status); }
  }

  lemma HeadStatusInv(env: Env, st: State, slot: u64, status: Status)
    requires Inv(st) && PendingIn(st.pending, slot) == []
    ensures Inv(PublishHeadStatus(env, st, slot, status).state)
  {
    if slot in st.blockHeads {
      assert SlotInv(st.pending, st.trace, slot);
      PublishInv(env, st, PubHead(st.blockHeads[slot].(status := status)));
    }
  }

  /** In every run, whatever publishes fail: each slot's pending list is exactly its accepted provisionals
      since its last completed resolution, in order and all of that slot; every final or undo mirrors a swap
      unresolved at that point; a finalized or dead head goes out only once nothing of its slot is
      unresolved; and pending swaps are discarded only after a whole batch of mirrors of one kind. */
  lemma {:induction false} PendingIsUnresolved(env: Env, us: seq<Update>)
    requires forall i :: 0 <= i < |us| ==> WellFormed(us[i])
    ensures Inv(RunUpdates(env, us))
  {
    if us != [] {
      PendingIsUnresolved(env, us[..|us| - 1]);
      HandleInv(env, RunUpdates(env, us[..|us| - 1]), us[|us| - 1]);
    }
  }

  // ---------------------------------------------------------------- which update published what

  /** The update that an entry comes from: provisionals from the transaction that carries them, settlements
      and finalized heads from that slot's finalized status, undos and dead heads from its dead status. */
  predicate CalledFor(u: Update, e: Entry) {
    match e
    case PubSwap(ev) =>
      if ev.provisional then u.Transaction? && u.decoded.Some? && ev in u.decoded.value
      else u == SlotStatus(ev.slot, if ev.isUndo then Dead else Finalized)
    case PubHead(h) =>
      if h.status.Confirmed? then
        u.BlockMeta? && h == Head(u.slot, if u.blockTime.Some? then AsUnsigned(u.blockTime.value) else 0, Confirmed)
      else
        (h.status.Finalized? || h.status.Dead?) && u == SlotStatus(h.slot, h.status)
    case PubMeta(meta) => u.Transaction? && u.decoded.Some? && u.meta == Some(meta)
    case Resolved(slot) => u == SlotStatus(slot, Finalized) || u == SlotStatus(slot, Dead)
  }

  /** `after` adds to `before` only what the update calls for. */
  ghost predicate Adds(before: seq<Entry>, after: seq<Entry>, u: Update) {
    before <= after && forall k :: |before| <= k < |after| ==> CalledFor(u, after[k])
  }

  lemma AddsOneMore(before: seq<Entry>, after: seq<Entry>, u: Update, e: Entry)
    requires Adds(before, after, u) && CalledFor(u, e)
    ensures Adds(before, after + [e], u)
  {}

  lemma {:induction false} ProvisionalAdds(env: Env, st: State, evs: seq<Swap>, before: seq<Entry>, u: Update)
    requires Adds(before, st.trace, u)
    requires forall i :: 0 <= i < |evs| ==> CalledFor(u, PubSwap(evs[i]))
    ensures Adds(before, PublishProvisional(env, st, evs).state.trace, u)
    decreases |evs|
  {
    if evs != [] {
      AddsOneMore(before, st.trace, u, PubSwap(evs[0]));
      var o := Publish(env, st, PubSwap(evs[0]));
      if o.ok { ProvisionalAdds(env, AppendPending(o.state, evs[0]), evs[1..], before, u); }
    }
  }

  lemma {:induction false} MirrorsAdd(env: Env, st: State, evs: seq<Swap>, undo: bool, before: seq<Entry>, u: Update)
    requires Adds(before, st.trace, u)
    requires forall i :: 0 <= i < |evs| ==> CalledFor(u, PubSwap(Mirror(evs[i], undo)))
    ensures Adds(before, PublishMirrors(env, st, evs, undo).state.trace, u)
    decreases |evs|
  {
    if evs != [] {
      var e := PubSwap(Mirror(evs[0], undo));
      AddsOneMore(before, st.trace, u, e);
      var o := Publish(env, st, e);
      if o.ok { MirrorsAdd(env, o.state, evs[1..], undo, before, u); }
    }
  }

  lemma ResolveAdds(env: Env, st: State, slot: u64, status: Status)
    requires Inv(st) && (status.Finalized? || status.Dead?)
    ensures Adds(st.trace, ResolveSlot(env, st, slot, status.Dead?).state.trace, SlotStatus(slot, status))
  {
    var evs, u := PendingIn(st.pending, slot), SlotStatus(slot, status);
    assert SlotInv(st.pending, st.trace, slot);
    if evs != [] {
      MirrorsAdd(env, st, evs, status.Dead?, st.trace, u);
      AddsOneMore(st.trace, PublishMirrors(env, st, evs, status.Dead?).state.trace, u, Resolved(slot));
    }
  }

  lemma StatusAdds(env: Env, st: State, slot: u64, status: Status)
    requires Inv(st) && (status.Finalized? || status.Dead?)
    ensures Adds(st.trace, HandleSlot(env, st, slot, status).state.trace, SlotStatus(slot, status))
  {
    ResolveAdds(env, st, slot, status);
    ResolveInv(env, st, slot, status.Dead?);
    var o := ResolveSlot(env, st, slot, status.Dead?);
    if o.ok && slot in o.state.blockHeads {
      AddsOneMore(st.trace, o.state.trace, SlotStatus(slot, status), PubHead(o.state.blockHeads[slot].(status := status)));
    }
  }

  lemma HandleAdds(env: Env, st: State, u: Update)
    requires Inv(st) && WellFormed(u)
    ensures Adds(st.trace, Handle(env, st, u).state.trace, u)
  {
    match u
    case Transaction(decoded, meta) =>
      if decoded.Some? {
        var o := if meta.Some? then Publish(env, st, PubMeta(meta.value)) else Outcome(st, true);
        if o.ok { ProvisionalAdds(env, o.state, decoded.value, st.trace, u); }
      }
    case BlockMeta(slot, blockTime) =>
    case SlotStatus(slot, status) =>
      if status.Finalized? || status.Dead? { StatusAdds(env, st, slot, status); }
  }

  /** In every run, whatever publishes fail: everything published while handling an update is what that
      update calls for, so slots are settled and undone, and heads finalized and dead, by their own statuses. */
  lemma EveryEntryIsCalledFor(env: Env, us: seq<Update>, i: nat)
    requires i < |us| && forall j :: 0 <= j < |us| ==> WellFormed(us[j])
    ensures Adds(RunUpdates(env, us[..i]).trace, RunUpdates(env, us[..i + 1]).trace, us[i])
  {
    assert us[..i + 1][..i] == us[..i];
    PendingIsUnresolved(env, us[..i]);
    HandleAdds(env, RunUpdates(env, us[..i]), us[i]);
  }

  // ---------------------------------------------------------------- repeated statuses

  /** The update brings a swap or block metadata of the slot. */
  predicate Brings(u: Update, slot: u64) {
    match u
    case Transaction(decoded, _) => decoded.Some? && exists ev :: ev in decoded.value && ev.slot == slot
    case BlockMeta(s, _) => s == slot
    case SlotStatus(_, _) => false
  }

  predicate Forgotten(st: State, slot: u64) { slot !in st.pending && slot !in st.blockHeads }

  lemma {:induction false} ProvisionalElsewhere(env: Env, st: State, evs: seq<Swap>, slot: u64)
    requires Forgotten(st, slot) && forall i :: 0 <= i < |evs| ==> evs[i].slot != slot
    ensures Forgotten(PublishProvisional(env, st, evs).state, slot)
    decreases |evs|
  {
    if evs != [] {
      var o := Publish(env, st, PubSwap(evs[0]));
      if o.ok { ProvisionalElsewhere(env, AppendPending(o.state, evs[0]), evs[1..], slot); }
    }
  }

  lemma StaysForgotten(env: Env, st: State, u: Update, slot: u64)
    requires Forgotten(st, slot) && !Brings(u, slot)
    ensures Forgotten(Handle(env, st, u).state, slot)
  {
    match u
    case Transaction(decoded, meta) =>
      if decoded.Some? {
        var o := if meta.Some? then Publish(env, st, PubMeta(meta.value)) else Outcome(st, true);
        if o.ok { ProvisionalElsewhere(env, o.state, decoded.value, slot); }
      }
    case BlockMeta(s, _) =>
    case SlotStatus(s, status) => MirrorsKeepMaps(env, st, PendingIn(st.pending, s), status.Dead?);
  }

  lemma {:induction false} RunStaysForgotten(env: Env, st: State, us: seq<Update>, slot: u64)
    requires Forgotten(st, slot) && forall i :: 0 <= i < |us| ==> !Brings(us[i], slot)
    ensures Forgotten(RunFrom(env, st, us), slot)
    decreases |us|
  {
    if us != [] {
      RunStaysForgotten(env, st, us[..|us| - 1], slot);
      StaysForgotten(env, RunFrom(env, st, us[..|us| - 1]), us[|us| - 1], slot);
    }
  }

  /** A handled terminal status leaves nothing of its slot behind. */
  lemma CompletedStatusForgets(env: Env, st: State, slot: u64, status: Status)
    requires status.Finalized? || status.Dead?
    requires HandleSlot(env, st, slot, status).ok
    ensures Forgotten(HandleSlot(env, st, slot, status).state, slot)
  {
    MirrorsKeepMaps(env, st, PendingIn(st.pending, slot), status.Dead?);
  }

  /** Once a finalized or dead status has been handled, and until a swap or block metadata of the slot comes,
      no terminal status of that slot publishes or changes anything, whatever else happens or fails. */
  lemma CompletedStatusIsFinal(env: Env, st: State, slot: u64, first: Status, us: seq<Update>, again: Status)
    requires first.Finalized? || first.Dead?
    requires again.Finalized? || again.Dead?
    requires HandleSlot(env, st, slot, first).ok
    requires forall i :: 0 <= i < |us| ==> !Brings(us[i], slot)
    ensures
      var st' := RunFrom(env, HandleSlot(env, st, slot, first).state, us);
      HandleSlot(env, st', slot, again) == Outcome(st', true)
  {
    CompletedStatusForgets(env, st, slot, first);
    var st' := RunFrom(env, HandleSlot(env, st, slot, first).state, us);
    RunStaysForgotten(env, HandleSlot(env, st, slot, first).state, us, slot);
    assert st'.pending - {slot} == st'.pending;
  }

  lemma {:induction false} MirrorsKeepMaps(env: Env, st: State, evs: seq<Swap>, undo: bool)
    ensures PublishMirrors(env, st, evs, undo).state.pending == st.pending
    ensures PublishMirrors(env, st, evs, undo).state.blockHeads == st.blockHeads
    decreases |evs|
  {
    if evs != [] {
      MirrorsKeepMaps(env, Publish(env, st, PubSwap(Mirror(evs[0], undo))).state, evs[1..], undo);
    }
  }
}

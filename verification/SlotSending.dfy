/** What handling an update sends, keeps and forgets, whatever the publisher refuses
    (ingestor/geyser/processor.go). */
module SlotSending {
  import opened Wrappers
  import opened Words
  import opened SlotProtocol
  import opened SlotLedger

  // ---------------------------------------------------------------- plans

  predicate Terminal(status: Status) { status.Finalized? || status.Dead? }

  function MetaMessages(meta: Option<string>): seq<Entry> {
    if meta.Some? then [PubMeta(meta.value)] else []
  }

  function ConfirmedHead(slot: u64, blockTime: Option<i64>): Head {
    match blockTime
    case None => Head(slot, 0, Confirmed)
    case Some(ts) => Head(slot, if ts >= 0 then ts else ts + TWO64, Confirmed)
  }

  /** The pending swaps again, no longer provisional. */
  function FinalForms(evs: seq<Swap>, undo: bool): (es: seq<Entry>)
    ensures |es| == |evs|
    ensures forall i :: 0 <= i < |evs| ==> es[i] == PubSwap(Swap(evs[i].slot, evs[i].payload, false, undo))
  {
    seq(|evs|, i requires 0 <= i < |evs| => PubSwap(Swap(evs[i].slot, evs[i].payload, false, undo)))
  }

  function HeadMessages(st: State, slot: u64, status: Status): seq<Entry> {
    if slot in st.blockHeads then [PubHead(Head(st.blockHeads[slot].slot, st.blockHeads[slot].tsSec, status))] else []
  }

  /** The messages an update is to send, in order. */
  function Plan(st: State, u: Update): seq<Entry> {
    match u
    case Transaction(decoded, meta) => if decoded.Some? then MetaMessages(meta) + Swaps(decoded.value) else []
    case BlockMeta(slot, blockTime) => [PubHead(ConfirmedHead(slot, blockTime))]
    case SlotStatus(slot, status) =>
      if Terminal(status) then FinalForms(PendingIn(st.pending, slot), status == Dead) + HeadMessages(st, slot, status)
      else []
  }

  /** The trace without its markers. */
  function Messages(trace: seq<Entry>): seq<Entry> {
    if trace == [] then []
    else
      var before, last := Messages(trace[..|trace| - 1]), trace[|trace| - 1];
      if last.Resolved? then before else before + [last]
  }

  /** The outcome of sending a plan: its accepted beginning is published, nothing is tried after a refusal,
      and the result is an error exactly when something was refused. */
  ghost predicate Sends(env: Env, st: State, plan: seq<Entry>, o: Outcome) {
    var n := AcceptedRun(env, st.attempts, |plan|);
    && Messages(o.state.trace) == Messages(st.trace) + plan[..n]
    && (o.ok <==> n == |plan|)
    && o.state.attempts == st.attempts + if n == |plan| then n else n + 1
  }

  lemma MessagesSnoc(trace: seq<Entry>, e: Entry)
    ensures Messages(trace + [e]) == if e.Resolved? then Messages(trace) else Messages(trace) + [e]
  {
    assert (trace + [e])[..|trace|] == trace;
  }

  lemma SendsNothing(env: Env, st: State, st': State)
    requires st'.trace == st.trace && st'.attempts == st.attempts
    ensures Sends(env, st, [], Outcome(st', true))
  {
    assert Messages(st.trace) + [][..0] == Messages(st.trace);
  }

  lemma PublishSends(env: Env, st: State, e: Entry)
    requires !e.Resolved?
    ensures Sends(env, st, [e], Publish(env, st, e))
  {
    MessagesSnoc(st.trace, e);
    assert AcceptedRun(env, st.attempts + 1, 0) == 0;
    assert [e][..1] == [e] && Messages(st.trace) + [e][..0] == Messages(st.trace);
  }

  lemma {:induction false} AcceptedRunConcat(env: Env, at: nat, m: nat, n: nat)
    ensures AcceptedRun(env, at, m + n) ==
      if AcceptedRun(env, at, m) == m then m + AcceptedRun(env, at + m, n) else AcceptedRun(env, at, m)
    decreases m
  {
    if m > 0 && env.accepts(at) { AcceptedRunConcat(env, at + 1, m - 1, n); }
  }

  /** A refusal in the first part ends the whole; otherwise the second part follows. */
  lemma SendsStopped(env: Env, st: State, xs: seq<Entry>, ys: seq<Entry>, o: Outcome)
    requires Sends(env, st, xs, o) && !o.ok
    ensures Sends(env, st, xs + ys, o)
  {
    AcceptedRunConcat(env, st.attempts, |xs|, |ys|);
    var n := AcceptedRun(env, st.attempts, |xs|);
    assert (xs + ys)[..n] == xs[..n];
  }

  lemma SendsBoth(env: Env, st: State, xs: seq<Entry>, mid: State, ys: seq<Entry>, o: Outcome)
    requires Sends(env, st, xs, Outcome(mid, true)) && Sends(env, mid, ys, o)
    ensures Sends(env, st, xs + ys, o)
  {
    AcceptedRunConcat(env, st.attempts, |xs|, |ys|);
    var n := AcceptedRun(env, mid.attempts, |ys|);
    assert (xs + ys)[..|xs| + n] == xs + ys[..n] && xs[..|xs|] == xs;
    assert (Messages(st.trace) + xs) + ys[..n] == Messages(st.trace) + (xs + ys[..n]);
  }

  lemma {:induction false} ProvisionalSends(env: Env, st: State, evs: seq<Swap>)
    ensures Sends(env, st, Swaps(evs), PublishProvisional(env, st, evs))
    decreases |evs|
  {
    if evs == [] {
      SendsNothing(env, st, st);
    } else {
      var e, rest := PubSwap(evs[0]), evs[1..];
      var o := Publish(env, st, e);
      PublishSends(env, st, e);
      assert Swaps(evs) == [e] + Swaps(rest);
      if o.ok {
        var mid := AppendPending(o.state, evs[0]);
        ProvisionalSends(env, mid, rest);
        SendsBoth(env, st, [e], mid, Swaps(rest), PublishProvisional(env, mid, rest));
      } else {
        SendsStopped(env, st, [e], Swaps(rest), o);
      }
    }
  }

  lemma {:induction false} MirrorsSend(env: Env, st: State, evs: seq<Swap>, undo: bool)
    ensures Sends(env, st, FinalForms(evs, undo), PublishMirrors(env, st, evs, undo))
    decreases |evs|
  {
    if evs == [] {
      SendsNothing(env, st, st);
    } else {
      var e, rest := PubSwap(Mirror(evs[0], undo)), evs[1..];
      var o := Publish(env, st, e);
      PublishSends(env, st, e);
      assert FinalForms(evs, undo) == [e] + FinalForms(rest, undo);
      if o.ok {
        MirrorsSend(env, o.state, rest, undo);
        SendsBoth(env, st, [e], o.state, FinalForms(rest, undo), PublishMirrors(env, o.state, rest, undo));
      } else {
        SendsStopped(env, st, [e], FinalForms(rest, undo), o);
      }
    }
  }

  lemma TransactionSends(env: Env, st: State, evs: seq<Swap>, meta: Option<string>)
    ensures Sends(env, st, MetaMessages(meta) + Swaps(evs), HandleTransaction(env, st, Some(evs), meta))
  {
    var o := if meta.Some? then Publish(env, st, PubMeta(meta.value)) else Outcome(st, true);
    if meta.Some? { PublishSends(env, st, PubMeta(meta.value)); } else { SendsNothing(env, st, st); }
    if o.ok {
      ProvisionalSends(env, o.state, evs);
      SendsBoth(env, st, MetaMessages(meta), o.state, Swaps(evs), PublishProvisional(env, o.state, evs));
    } else {
      SendsStopped(env, st, MetaMessages(meta), Swaps(evs), o);
    }
  }

  lemma ResolveSends(env: Env, st: State, slot: u64, undo: bool)
    ensures Sends(env, st, FinalForms(PendingIn(st.pending, slot), undo), ResolveSlot(env, st, slot, undo))
    ensures ResolveSlot(env, st, slot, undo).state.blockHeads == st.blockHeads
  {
    var evs := PendingIn(st.pending, slot);
    if evs == [] {
      SendsNothing(env, st, ResolveSlot(env, st, slot, undo).state);
    } else {
      MirrorsSend(env, st, evs, undo);
      MirrorsKeepMaps(env, st, evs, undo);
      MessagesSnoc(PublishMirrors(env, st, evs, undo).state.trace, Resolved(slot));
    }
  }

  lemma HeadSends(env: Env, st: State, slot: u64, status: Status)
    ensures Sends(env, st, HeadMessages(st, slot, status), PublishHeadStatus(env, st, slot, status))
  {
    if slot in st.blockHeads {
      PublishSends(env, st, PubHead(st.blockHeads[slot].(status := status)));
    } else {
      SendsNothing(env, st, st);
    }
  }

  lemma StatusSends(env: Env, st: State, slot: u64, status: Status)
    ensures Sends(env, st, Plan(st, SlotStatus(slot, status)), HandleSlot(env, st, slot, status))
  {
    if Terminal(status) {
      var o := ResolveSlot(env, st, slot, status.Dead?);
      var finals, head := FinalForms(PendingIn(st.pending, slot), status.Dead?), HeadMessages(st, slot, status);
      ResolveSends(env, st, slot, status.Dead?);
      if o.ok {
        HeadSends(env, o.state, slot, status);
        SendsBoth(env, st, finals, o.state, head, PublishHeadStatus(env, o.state, slot, status));
      } else {
        SendsStopped(env, st, finals, head, o);
      }
    } else {
      SendsNothing(env, st, st);
    }
  }

  /** Whatever the publisher refuses, handling an update sends exactly its plan up to the first refusal: the
      metadata of a transaction before its swaps, the final forms of a slot before its head. A transaction
      that does not decode sends nothing and fails; a status that is not terminal does nothing. */
  lemma HandleSendsItsPlan(env: Env, st: State, u: Update)
    ensures
      if u.Transaction? && u.decoded.None? then Handle(env, st, u) == Outcome(st, false)
      else Sends(env, st, Plan(st, u), Handle(env, st, u))
    ensures u.SlotStatus? && !Terminal(u.status) ==> Handle(env, st, u) == Outcome(st, true)
  {
    match u
    case Transaction(decoded, meta) =>
      if decoded.Some? { TransactionSends(env, st, decoded.value, meta); }
    case BlockMeta(slot, blockTime) =>
      var head := ConfirmedHead(slot, blockTime);
      PublishSends(env, st.(blockHeads := st.blockHeads[slot := head]), PubHead(head));
    case SlotStatus(slot, status) => StatusSends(env, st, slot, status);
  }

  // ---------------------------------------------------------------- what is kept

  lemma {:induction false} ProvisionalKeeps(env: Env, st: State, evs: seq<Swap>, slot: u64)
    ensures
      var st', n := PublishProvisional(env, st, evs).state, AcceptedRun(env, st.attempts, |evs|);
      PendingIn(st'.pending, slot) == PendingIn(st.pending, slot) + InSlot(evs[..n], slot) && st'.blockHeads == st.blockHeads
    decreases |evs|
  {
    if evs != [] && env.accepts(st.attempts) {
      var mid := AppendPending(Publish(env, st, PubSwap(evs[0])).state, evs[0]);
      ProvisionalStep(env, st, evs, mid);
      ProvisionalKeeps(env, mid, evs[1..], slot);
      var n := AcceptedRun(env, mid.attempts, |evs| - 1);
      FirstOfSlot(PendingIn(st.pending, slot), evs, n, slot);
    } else {
      assert PendingIn(st.pending, slot) + InSlot(evs[..0], slot) == PendingIn(st.pending, slot);
    }
  }

  lemma FirstOfSlot(open: seq<Swap>, evs: seq<Swap>, n: nat, slot: u64)
    requires n < |evs|
    ensures (if evs[0].slot == slot then open + [evs[0]] else open) + InSlot(evs[1..][..n], slot)
         == open + InSlot(evs[..n + 1], slot)
  {
    assert evs[..n + 1][1..] == evs[1..][..n] && evs[..n + 1][0] == evs[0];
    InSlotStep(open, evs[..n + 1], slot);
    OwnSlot(evs[0], slot, open);
  }

  lemma OwnSlot(ev: Swap, slot: u64, open: seq<Swap>)
    ensures open + InSlot([ev], slot) == if ev.slot == slot then open + [ev] else open
  {
    assert [ev][1..] == [] && [ev] + [] == [ev] && open + [] == open;
  }

  /** What a transaction keeps as pending: of its swaps those accepted, in their slots, in order. */
  lemma TransactionKeeps(env: Env, st: State, evs: seq<Swap>, meta: Option<string>, slot: u64)
    ensures
      var st' := HandleTransaction(env, st, Some(evs), meta).state;
      var n := AcceptedRun(env, st.attempts, |MetaMessages(meta) + Swaps(evs)|);
      var swaps := if n >= |MetaMessages(meta)| then n - |MetaMessages(meta)| else 0;
      && PendingIn(st'.pending, slot) == PendingIn(st.pending, slot) + InSlot(evs[..swaps], slot)
      && st'.blockHeads == st.blockHeads
  {
    var o := if meta.Some? then Publish(env, st, PubMeta(meta.value)) else Outcome(st, true);
    AcceptedRunConcat(env, st.attempts, |MetaMessages(meta)|, |evs|);
    if o.ok {
      ProvisionalKeeps(env, o.state, evs, slot);
    } else {
      assert PendingIn(st.pending, slot) + InSlot(evs[..0], slot) == PendingIn(st.pending, slot);
    }
  }

  /** The head of a block is on record even when publishing it was refused. */
  lemma BlockMetaKeeps(env: Env, st: State, slot: u64, blockTime: Option<i64>)
    ensures
      var st' := HandleBlockMeta(env, st, slot, blockTime).state;
      st'.blockHeads == st.blockHeads[slot := ConfirmedHead(slot, blockTime)] && st'.pending == st.pending
  {}

  /** A terminal status forgets the slot's pending swaps once all their final forms have been accepted, and
      its head once that has been accepted too; until then both are kept for another attempt. */
  lemma StatusKeeps(env: Env, st: State, slot: u64, status: Status)
    requires Terminal(status)
    ensures
      var st' := HandleSlot(env, st, slot, status).state;
      var m, all := |PendingIn(st.pending, slot)|, |Plan(st, SlotStatus(slot, status))|;
      var n := AcceptedRun(env, st.attempts, all);
      && st'.pending == (if n >= m then st.pending - {slot} else st.pending)
      && st'.blockHeads == (if n == all then st.blockHeads - {slot} else st.blockHeads)
  {
    var evs, undo := PendingIn(st.pending, slot), status.Dead?;
    var o := ResolveSlot(env, st, slot, undo);
    MirrorsAccepted(env, st, evs, undo);
    MirrorsKeepMaps(env, st, evs, undo);
    ResolveSends(env, st, slot, undo);
    AcceptedRunConcat(env, st.attempts, |evs|, |HeadMessages(st, slot, status)|);
    if o.ok && slot in st.blockHeads {
      assert AcceptedRun(env, o.state.attempts, 1) == 1 <==> env.accepts(o.state.attempts);
    }
    if slot !in st.blockHeads { assert st.blockHeads - {slot} == st.blockHeads; }
  }

  // ---------------------------------------------------------------- metadata without failures

  function MetasOf(trace: seq<Entry>): seq<string> {
    if trace == [] then []
    else
      var before, last := MetasOf(trace[..|trace| - 1]), trace[|trace| - 1];
      if last.PubMeta? then before + [last.meta] else before
  }

  /** The metadata of the transactions that decode, in order. */
  function DecodedMetas(us: seq<Update>): seq<string> {
    if us == [] then []
    else
      var before, last := DecodedMetas(us[..|us| - 1]), us[|us| - 1];
      if last.Transaction? && last.decoded.Some? && last.meta.Some? then before + [last.meta.value] else before
  }

  lemma {:induction false} MetasOfMessages(trace: seq<Entry>)
    ensures MetasOf(Messages(trace)) == MetasOf(trace)
  {
    if trace != [] {
      var init, last := trace[..|trace| - 1], trace[|trace| - 1];
      MetasOfMessages(init);
      if !last.Resolved? { assert (Messages(init) + [last])[..|Messages(init)|] == Messages(init); }
    }
  }

  lemma {:induction false} MetasOfConcat(xs: seq<Entry>, ys: seq<Entry>)
    ensures MetasOf(xs + ys) == MetasOf(xs) + MetasOf(ys)
  {
    if ys == [] {
      assert xs + ys == xs;
    } else {
      assert (xs + ys)[..|xs + ys| - 1] == xs + ys[..|ys| - 1];
      MetasOfConcat(xs, ys[..|ys| - 1]);
    }
  }

  lemma {:induction false} NoMetas(es: seq<Entry>)
    requires forall i :: 0 <= i < |es| ==> !es[i].PubMeta?
    ensures MetasOf(es) == []
  {
    if es != [] { NoMetas(es[..|es| - 1]); }
  }

  lemma PlannedMetas(st: State, u: Update)
    ensures MetasOf(Plan(st, u)) ==
      if u.Transaction? && u.decoded.Some? && u.meta.Some? then [u.meta.value] else []
  {
    if u.Transaction? && u.decoded.Some? && u.meta.Some? {
      MetasOfConcat([PubMeta(u.meta.value)], Swaps(u.decoded.value));
      NoMetas(Swaps(u.decoded.value));
      assert [PubMeta(u.meta.value)][..0] == [];
    } else {
      NoMetas(Plan(st, u));
    }
  }

  /** When no publish fails, the metadata published is that of the transactions that decode, in order. */
  lemma {:induction false} FailureFreeMetadata(env: Env, us: seq<Update>)
    requires forall n: nat :: env.accepts(n)
    ensures MetasOf(RunUpdates(env, us).trace) == DecodedMetas(us)
  {
    if us != [] {
      var st, u := RunUpdates(env, us[..|us| - 1]), us[|us| - 1];
      var plan, trace := Plan(st, u), Handle(env, st, u).state.trace;
      FailureFreeMetadata(env, us[..|us| - 1]);
      HandleSendsItsPlan(env, st, u);
      PlannedMetas(st, u);
      if !u.Transaction? || u.decoded.Some? {
        AcceptsEverything(env, st.attempts, |plan|);
        assert plan[..|plan|] == plan;
        MetasOfConcat(Messages(st.trace), plan);
        MetasOfMessages(st.trace);
        MetasOfMessages(trace);
      }
    }
  }
}

/** The processor object: it updates its maps between publishes (ingestor/geyser/processor.go). */
module SlotProcessor {
  import opened Wrappers
  import opened Words
  import opened SlotProtocol

  class Processor {
    const env: Env
    var pending: map<u64, seq<Swap>>
    var blockHeads: map<u64, Head>
    var attempts: nat
    ghost var trace: seq<Entry>

    ghost function Now(): State
      reads this
    {
      State(pending, blockHeads, trace, attempts)
    }

    constructor (env: Env)
      ensures Now() == START && this.env == env
    {
      this.env := env;
      pending, blockHeads, attempts, trace := map[], map[], 0, [];
    }

    method Publish(e: Entry) returns (ok: bool)
      modifies this`attempts, this`trace
      ensures Outcome(Now(), ok) == SlotProtocol.Publish(env, old(Now()), e)
    {
      ok := env.accepts(attempts);
      attempts := attempts + 1;
      if ok {
        trace := trace + [e];
      }
    }

    method AppendPending(slot: u64, ev: Swap)
      requires slot == ev.slot
      modifies this`pending
      ensures Now() == SlotProtocol.AppendPending(old(Now()), ev)
    {
      pending := pending[slot := (if slot in pending then pending[slot] else []) + [ev]];
    }

    method HandleTransaction(decoded: Option<seq<Swap>>, meta: Option<string>) returns (ok: bool)
      modifies this
      ensures Outcome(Now(), ok) == SlotProtocol.HandleTransaction(env, old(Now()), decoded, meta)
    {
      if decoded.None? {
        return false;
      }
      if meta.Some? {
        ok := Publish(PubMeta(meta.value));
        if !ok {
          return;
        }
      }
      ghost var from := Now();
      var events, i := decoded.value, 0;
      while i < |events|
        invariant 0 <= i <= |events|
        invariant PublishProvisional(env, from, events) == PublishProvisional(env, Now(), events[i..])
      {
        ok := Publish(PubSwap(events[i]));
        if !ok {
          return;
        }
        AppendPending(events[i].slot, events[i]);
        i := i + 1;
      }
      ok := true;
    }

    method HandleBlockMeta(slot: u64, blockTime: Option<i64>) returns (ok: bool)
      modifies this
      ensures Outcome(Now(), ok) == SlotProtocol.HandleBlockMeta(env, old(Now()), slot, blockTime)
    {
      var head := Head(slot, 0, Confirmed);
      if blockTime.Some? {
        head := head.(tsSec := AsUnsigned(blockTime.value));
      }
      blockHeads := blockHeads[slot := head];
      ok := Publish(PubHead(head));
    }

    method ResolveSlot(slot: u64, undo: bool) returns (ok: bool)
      modifies this
      ensures Outcome(Now(), ok) == SlotProtocol.ResolveSlot(env, old(Now()), slot, undo)
    {
      var events := if slot in pending then pending[slot] else [];
      if |events| == 0 {
        pending := pending - {slot};
        return true;
      }
      ghost var from := Now();
      var i := 0;
      while i < |events|
        invariant 0 <= i <= |events|
        invariant PublishMirrors(env, from, events, undo) == PublishMirrors(env, Now(), events[i..], undo)
        invariant pending == from.pending && blockHeads == from.blockHeads
      {
        var mirror := events[i].(provisional := false);
        mirror := mirror.(isUndo := undo);
        ok := Publish(PubSwap(mirror));
        if !ok {
          return;
        }
        i := i + 1;
      }
      pending := pending - {slot};
      trace := trace + [Resolved(slot)];
      ok := true;
    }

    method PublishBlockHeadStatus(slot: u64, status: Status) returns (ok: bool)
      modifies this
      ensures Outcome(Now(), ok) == PublishHeadStatus(env, old(Now()), slot, status)
    {
      if slot !in blockHeads {
        return true;
      }
      ok := Publish(PubHead(blockHeads[slot].(status := status)));
      if ok {
        blockHeads := blockHeads - {slot};
      }
    }

    method HandleSlot(slot: u64, status: Status) returns (ok: bool)
      modifies this
      ensures Outcome(Now(), ok) == SlotProtocol.HandleSlot(env, old(Now()), slot, status)
    {
      match status {
        case Finalized =>
          ok := ResolveSlot(slot, false);
          if ok {
            ok := PublishBlockHeadStatus(slot, Finalized);
          }
        case Dead =>
          ok := ResolveSlot(slot, true);
          if ok {
            ok := PublishBlockHeadStatus(slot, Dead);
          }
        case _ =>
          ok := true;
      }
    }

    method HandleUpdate(u: Update) returns (ok: bool)
      modifies this
      ensures Outcome(Now(), ok) == Handle(env, old(Now()), u)
    {
      match u {
        case Transaction(decoded, meta) => ok := HandleTransaction(decoded, meta);
        case BlockMeta(slot, blockTime) => ok := HandleBlockMeta(slot, blockTime);
        case SlotStatus(slot, status) => ok := HandleSlot(slot, status);
      }
    }
  }
}

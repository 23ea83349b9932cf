/** Slicing a slot span into batches on saturating 64-bit arithmetic
    (addWithOverflow and the producer loop of Run in backfill/orchestrator/orchestrator.go). */
module BackfillSchedule {
  import opened Words

  datatype Range = Range(start: u64, end: u64) {
    predicate Valid() { end > start }
  }

  datatype Config = Config(startSlot: u64, endSlot: u64, batchSize: u64, concurrency: int) {
    predicate Validates() {
      (endSlot != 0 ==> startSlot < endSlot) && batchSize != 0 && concurrency > 0
    }

    predicate HasLimit() { endSlot != 0 }

    /** Where the schedule ends: the configured limit or, without one, the largest slot number. */
    function Limit(): u64 { if HasLimit() then endSlot else U64_MAX }
  }

  function AddWithOverflow(start: u64, delta: u64): (u64, bool) {
    if delta == 0 then (start, false)
    else if U64_MAX - start < delta then (U64_MAX, true)
    else (start + delta, false)
  }

  /** Addition saturates at the largest word and says when it did. */
  lemma AddSaturates(start: u64, delta: u64)
    ensures AddWithOverflow(start, delta) == (Min(start + delta, U64_MAX), start + delta > U64_MAX)
  {}

  /** What one turn of the producer loop does from a given start slot. */
  datatype Turn = Offer(range: Range, overflow: bool) | Complete | InvalidRange

  function NextTurn(c: Config, start: u64): Turn {
    if c.HasLimit() && start >= c.endSlot then Complete
    else
      var (end, overflow) := AddWithOverflow(start, c.batchSize);
      var batchEnd := if c.HasLimit() && end > c.endSlot then c.endSlot else end;
      var range := Range(start, batchEnd);
      if range.Valid() then Offer(range, overflow)
      else if overflow then Complete
      else InvalidRange
  }

  /** After an offer has been taken, the loop stops when an open-ended schedule has saturated. */
  predicate StopsAfter(c: Config, overflow: bool) { !c.HasLimit() && overflow }

  // ---------------------------------------------------------------- the partition

  /** [start, limit) in consecutive pieces of `batch` slots, the last one cut at the limit. */
  function Partition(start: u64, limit: u64, batch: u64): seq<Range>
    requires batch > 0
    decreases limit - start
  {
    if start >= limit then []
    else
      var end := Min(start + batch, limit);
      [Range(start, end)] + Partition(end, limit, batch)
  }

  function Whole(c: Config): seq<Range>
    requires c.batchSize != 0
  {
    Partition(c.startSlot, c.Limit(), c.batchSize)
  }

  /** A turn offers the next piece, or completes when none is left; it never reports an invalid range, and
      stopping after a saturated offer loses nothing. */
  lemma TurnFollowsPartition(c: Config, start: u64)
    requires c.Validates()
    ensures
      var rest := Partition(start, c.Limit(), c.batchSize);
      match NextTurn(c, start)
      case Complete => rest == []
      case InvalidRange => false
      case Offer(r, overflow) =>
        && rest == [r] + Partition(r.end, c.Limit(), c.batchSize)
        && (StopsAfter(c, overflow) ==> Partition(r.end, c.Limit(), c.batchSize) == [])
        && start == r.start < r.end
  {}

  lemma Regroup(xs: seq<Range>, r: Range, ys: seq<Range>)
    ensures xs + ([r] + ys) == (xs + [r]) + ys
    ensures ys == [] ==> xs + ([r] + ys) == xs + [r]
  {}

  /** The producer loop, run to its end. */
  method Produce(c: Config) returns (ranges: seq<Range>, invalid: bool)
    requires c.Validates()
    ensures !invalid && ranges == Whole(c)
  {
    ranges, invalid := [], false;
    var start, limit, hasLimit := c.startSlot, c.endSlot, c.endSlot != 0;
    while true
      invariant ranges + Partition(start, c.Limit(), c.batchSize) == Whole(c)
      decreases U64_MAX - start
    {
      TurnFollowsPartition(c, start);
      if hasLimit && start >= limit {
        return ranges, false;
      }
      var (batchEnd, overflow) := AddWithOverflow(start, c.batchSize);
      if hasLimit && batchEnd > limit {
        batchEnd := limit;
      }
      var range := Range(start, batchEnd);
      if !range.Valid() {
        if overflow {
          return ranges, false;
        }
        return ranges, true;
      }
      assert NextTurn(c, start) == Offer(range, overflow);
      Regroup(ranges, range, Partition(batchEnd, c.Limit(), c.batchSize));
      ranges := ranges + [range];
      start := batchEnd;
      if !hasLimit && overflow {
        return ranges, false;
      }
    }
  }

  /** Every piece lies on the grid of batches from the start slot, cut at the limit, and there are as many
      as it takes to reach the limit. */
  lemma {:induction false} PartitionOnGrid(start: u64, limit: u64, batch: u64, i: nat)
    requires batch > 0 && i < |Partition(start, limit, batch)|
    ensures
      var r := Partition(start, limit, batch)[i];
      r.start == start + i * batch < limit && r.end == Min(start + (i + 1) * batch, limit)
    decreases i
  {
    if i > 0 {
      var end := Min(start + batch, limit);
      assert end < limit;
      PartitionOnGrid(end, limit, batch, i - 1);
      assert Partition(start, limit, batch)[i] == Partition(end, limit, batch)[i - 1];
      assert end + (i - 1) * batch == start + i * batch;
      assert end + i * batch == start + (i + 1) * batch;
    }
  }

  /** Some piece contains the slot. */
  ghost predicate Covered(ps: seq<Range>, slot: u64) {
    exists i :: 0 <= i < |ps| && ps[i].start <= slot < ps[i].end
  }

  lemma {:induction false} PartitionCovers(start: u64, limit: u64, batch: u64, slot: u64)
    requires batch > 0 && start <= slot < limit
    ensures Covered(Partition(start, limit, batch), slot)
    decreases limit - start
  {
    var end := Min(start + batch, limit);
    var ps := Partition(start, limit, batch);
    if slot < end {
      assert ps[0] == Range(start, end);
    } else {
      PartitionCovers(end, limit, batch, slot);
      var rest := Partition(end, limit, batch);
      var i :| 0 <= i < |rest| && rest[i].start <= slot < rest[i].end;
      assert ps[i + 1] == rest[i];
    }
  }

  lemma {:induction false} PieceBounds(start: u64, limit: u64, batch: u64, i: nat)
    requires batch > 0 && i < |Partition(start, limit, batch)|
    ensures
      var ps := Partition(start, limit, batch);
      && start <= ps[i].start < ps[i].end <= limit && ps[i].end - ps[i].start <= batch
      && (i == 0 ==> ps[i].start == start)
      && (i + 1 < |ps| ==> ps[i].end == ps[i + 1].start && ps[i].end - ps[i].start == batch)
    decreases i
  {
    var end := Min(start + batch, limit);
    var rest := Partition(end, limit, batch);
    if i > 0 {
      PieceBounds(end, limit, batch, i - 1);
    } else if rest != [] {
      assert rest[0].start == end;
    }
  }

  lemma {:induction false} PiecesAreOrdered(start: u64, limit: u64, batch: u64, i: nat, j: nat)
    requires batch > 0 && i < j < |Partition(start, limit, batch)|
    ensures Partition(start, limit, batch)[i].end <= Partition(start, limit, batch)[j].start
    decreases j
  {
    PieceBounds(start, limit, batch, j - 1);
    if i < j - 1 {
      PiecesAreOrdered(start, limit, batch, i, j - 1);
    }
  }

  /** Nonempty ranges of at most a batch, all full but the last, each starting where the one before ended,
      and disjoint. */
  ghost predicate Contiguous(ps: seq<Range>, batch: u64) {
    && (forall i :: 0 <= i < |ps| ==> ps[i].Valid() && ps[i].end - ps[i].start <= batch)
    && (forall i :: 0 <= i < |ps| - 1 ==> ps[i].end == ps[i + 1].start && ps[i].end - ps[i].start == batch)
    && (forall i, j :: 0 <= i < j < |ps| ==> ps[i].end <= ps[j].start)
  }

  /** They begin at `start`, end at `limit`, and contain the slots from `start` up to `limit` and no others. */
  ghost predicate Spans(ps: seq<Range>, start: u64, limit: u64) {
    && (ps == [] <==> start >= limit)
    && (ps != [] ==> ps[0].start == start && ps[|ps| - 1].end == limit)
    && (forall slot: u64 :: Covered(ps, slot) <==> start <= slot < limit)
  }

  lemma PartitionIsContiguous(start: u64, limit: u64, batch: u64)
    requires batch > 0
    ensures Contiguous(Partition(start, limit, batch), batch)
  {
    var ps := Partition(start, limit, batch);
    forall i | 0 <= i < |ps|
      ensures ps[i].Valid() && ps[i].end - ps[i].start <= batch
    {
      PieceBounds(start, limit, batch, i);
    }
    forall i | 0 <= i < |ps| - 1
      ensures ps[i].end == ps[i + 1].start && ps[i].end - ps[i].start == batch
    {
      PieceBounds(start, limit, batch, i);
    }
    forall i, j | 0 <= i < j < |ps|
      ensures ps[i].end <= ps[j].start
    {
      PiecesAreOrdered(start, limit, batch, i, j);
    }
  }

  lemma PartitionSpans(start: u64, limit: u64, batch: u64)
    requires batch > 0
    ensures Spans(Partition(start, limit, batch), start, limit)
  {
    var ps := Partition(start, limit, batch);
    if start < limit { LastReachesLimit(start, limit, batch); }
    forall slot: u64
      ensures Covered(ps, slot) <==> start <= slot < limit
    {
      if start <= slot < limit {
        PartitionCovers(start, limit, batch, slot);
      } else if Covered(ps, slot) {
        var i :| 0 <= i < |ps| && ps[i].start <= slot < ps[i].end;
        PieceBounds(start, limit, batch, i);
      }
    }
  }

  /** For every validated configuration the scheduled ranges tile the span from the start slot up to the
      limit, saturation included. */
  lemma ScheduleTilesTheSpan(c: Config)
    requires c.Validates()
    ensures Contiguous(Whole(c), c.batchSize) && Spans(Whole(c), c.startSlot, c.Limit())
  {
    PartitionIsContiguous(c.startSlot, c.Limit(), c.batchSize);
    PartitionSpans(c.startSlot, c.Limit(), c.batchSize);
  }

  lemma {:induction false} LastReachesLimit(start: u64, limit: u64, batch: u64)
    requires batch > 0 && start < limit
    ensures Partition(start, limit, batch) != []
    ensures Partition(start, limit, batch)[|Partition(start, limit, batch)| - 1].end == limit
    decreases limit - start
  {
    var end := Min(start + batch, limit);
    if end < limit {
      LastReachesLimit(end, limit, batch);
    } else {
      assert Partition(end, limit, batch) == [];
    }
  }
}

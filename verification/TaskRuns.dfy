/** The fan-out of a scan into tasks with one slot each, and the ordered merge of the slots. */
module TaskRuns {
  import opened Kernel
  import opened Values
  import opened Sequences
  import opened MmapStore
  import opened VirtualRegions
  import opened ScanTasks
  import opened SparseRead
  import opened SparseScan
  import opened Regions

  /** The slots of the tasks after the barrier: slot i holds what task i took. */
  ghost predicate SlotsHold(slots: seq<MmapUint64?>, takens: seq<seq<nat>>)
    reads set i | 0 <= i < |slots| && slots[i] != null :: slots[i]
    reads set i | 0 <= i < |slots| && slots[i] != null :: slots[i].data
  {
    && |slots| == |takens|
    && (forall i :: 0 <= i < |slots| ==> SlotHolds(slots[i], takens[i]))
  }

  /** Some task put more into its buffer than the buffer holds. */
  ghost predicate Overfilled(slots: seq<MmapUint64?>, to: nat)
    requires to <= |slots|
    reads set i | 0 <= i < |slots| && slots[i] != null :: slots[i]
  {
    exists i :: 0 <= i < to && slots[i] != null && !slots[i].InBounds()
  }

  ghost predicate Apart(target: MmapUint64, slots: seq<MmapUint64?>)
    reads target
    reads set i | 0 <= i < |slots| && slots[i] != null :: slots[i]
  {
    forall i :: 0 <= i < |slots| && slots[i] != null ==> slots[i] != target && slots[i].data != target.data
  }

  /** Merges one slot; a task without results left it empty. */
  method MergeSlot(target: MmapUint64, slot: MmapUint64?, ghost taken: seq<nat>) returns (panicked: bool)
    requires target.InBounds() && SlotHolds(slot, taken)
    requires slot != null ==> slot != target && slot.data != target.data
    modifies target, target.data
    ensures panicked <==> slot != null && !old(slot.InBounds())
    ensures !panicked ==> target.InBounds() && target.Data() == old(target.Data()) + taken
    ensures target.data == old(target.data) || fresh(target.data)
  {
    panicked := false;
    if slot != null {
      panicked := target.Merge(slot);
    } else {
      assert target.Data() + taken == target.Data();
    }
  }

  /** The ordered merge of all slots into a result list. Merging an overfilled slot panics. */
  method MergeSlots(target: MmapUint64, slots: seq<MmapUint64?>, ghost takens: seq<seq<nat>>) returns (panicked: bool)
    requires target.InBounds() && SlotsHold(slots, takens) && Apart(target, slots)
    modifies target, target.data
    ensures panicked <==> old(Overfilled(slots, |slots|))
    ensures !panicked ==> target.InBounds() && target.Data() == old(target.Data()) + Flatten(takens)
    ensures target.data == old(target.data) || fresh(target.data)
  {
    hide SlotHolds, MmapUint64.Data;
    ghost var before := target.Data();
    var i := 0;
    panicked := false;
    MergedNothing(before, takens);
    while i < |slots|
      invariant 0 <= i <= |slots| == |takens|
      invariant target.InBounds() && target.Data() == before + Flatten(takens[..i])
      invariant target.data == old(target.data) || fresh(target.data)
      invariant SlotsHold(slots, takens) && Apart(target, slots)
      invariant !old(Overfilled(slots, i)) && !panicked
    {
      MergedNext(before, takens, i);
      panicked := MergeSlot(target, slots[i], takens[i]);
      if panicked {
        return;
      }
      i := i + 1;
    }
    assert takens[..|slots|] == takens;
  }

  lemma MergedNothing(before: seq<nat>, takens: seq<seq<nat>>)
    ensures before == before + Flatten(takens[..0])
  {
  }

  lemma MergedNext(before: seq<nat>, takens: seq<seq<nat>>, i: nat)
    requires i < |takens|
    ensures before + Flatten(takens[..i]) + takens[i] == before + Flatten(takens[..i + 1])
  {
    FlattenSnoc(takens[..i], takens[i]);
    assert takens[..i + 1] == takens[..i] + [takens[i]];
  }

  /** The slots before any task has run. */
  function NoSlots(n: nat): (slots: seq<MmapUint64?>)
    ensures |slots| == n && forall i :: 0 <= i < n ==> slots[i] == null
  {
    seq(n, _ => null)
  }

  ghost function NothingTaken(n: nat): (takens: seq<seq<nat>>)
    ensures |takens| == n && forall i :: 0 <= i < n ==> takens[i] == []
  {
    seq(n, _ => [])
  }

  /** Writing task i's slot leaves the others alone. */
  lemma SlotWritten(slots: seq<MmapUint64?>, takens: seq<seq<nat>>, i: nat, slot: MmapUint64?, taken: seq<nat>)
    requires SlotsHold(slots, takens) && i < |slots| && SlotHolds(slot, taken)
    ensures SlotsHold(slots[i := slot], takens[i := taken])
  {
  }

  /** What a first-scan task took: the first hits of its region, and all of them if it was not cancelled. */
  ghost predicate FirstTook(proc: Process, v: Value, r: Region, taken: seq<nat>, complete: bool)
    requires v.Valid() && r.start <= r.end
  {
    && Ascending(taken)
    && (forall x :: x in taken ==> Hit(proc, v, r.start, r.end - r.start, 0, x))
    && taken <= FirstAnswer(proc, v, r.start, r.end - r.start)
    && (complete ==> taken == FirstAnswer(proc, v, r.start, r.end - r.start))
  }

  /**
   What the tasks of a first scan took when `k` of them ended before any cancellation: those all of their
   answers, the next one the first entries of its own, and the rest nothing.
   */
  ghost predicate FirstAllTook(proc: Process, v: Value, regions: seq<Region>, takens: seq<seq<nat>>, k: nat)
    requires v.Valid() && AllOrdered(regions)
  {
    && |takens| == |regions| && k <= |regions|
    && (forall i :: 0 <= i < |regions| ==> FirstTook(proc, v, regions[i], takens[i], i < k))
    && (forall i :: k < i < |regions| ==> takens[i] == [])
  }

  lemma FirstTookNext(proc: Process, v: Value, regions: seq<Region>, takens: seq<seq<nat>>, k: nat,
                      taken: seq<nat>, complete: bool)
    requires v.Valid() && AllOrdered(regions) && k < |regions|
    requires FirstAllTook(proc, v, regions, takens, k)
    requires FirstTook(proc, v, regions[k], taken, complete)
    ensures FirstAllTook(proc, v, regions, takens[k := taken], if complete then k + 1 else k)
  {
    hide FirstAnswer, Hit;
  }

  method FirstTask(proc: Process, v: Value, r: Region, ctx: Context) returns (slot: MmapUint64?, ghost taken: seq<nat>)
    requires v.Valid() && Sane(r)
    modifies ctx
    ensures old(ctx.done) ==> ctx.done
    ensures ctx.ended == old(ctx.ended) + if ctx.done then 0 else 1
    ensures SlotHolds(slot, taken) && FirstTook(proc, v, r, taken, !ctx.done)
    ensures slot != null ==> fresh(slot) && fresh(slot.data) && slot.data.Length == REGION_RESULTS_ALLOC_CAPS
  {
    slot, taken := TaskFirstScan(proc, v, r.start, r.end, ctx);
  }

  /**
   Starts one task per region in order until done or cancelled; every started task writes its own slot. Tasks
   that ended before a cancellation keep their whole answers.
   */
  method RunFirstTasks(proc: Process, v: Value, regions: seq<Region>, ctx: Context)
    returns (slots: seq<MmapUint64?>, ghost takens: seq<seq<nat>>)
    requires v.Valid() && Listing(regions)
    modifies ctx
    ensures AllOrdered(regions) && (old(ctx.done) ==> ctx.done)
    ensures |slots| == |regions| && SlotsHold(slots, takens)
    ensures ctx.ended >= old(ctx.ended)
    ensures FirstAllTook(proc, v, regions, takens, ctx.ended - old(ctx.ended))
    ensures !ctx.done ==> ctx.ended - old(ctx.ended) == |regions|
    ensures forall i :: 0 <= i < |slots| && slots[i] != null ==>
                          fresh(slots[i]) && fresh(slots[i].data) && slots[i].data.Length == REGION_RESULTS_ALLOC_CAPS
  {
    ListingOrdered(regions);
    ghost var ended := ctx.ended;
    slots, takens := NoSlots(|regions|), NothingTaken(|regions|);
    NothingTook(proc, v, regions, takens);
    NoSlotsHold(|regions|);
    hide SlotHolds, FirstTook, FirstAllTook, SlotsHold;
    var i := 0;
    while i < |regions|
      invariant 0 <= i <= |regions| == |slots| && (old(ctx.done) ==> ctx.done)
      invariant SlotsHold(slots, takens)
      invariant ended <= ctx.ended && (ctx.ended == ended + i || (ctx.done && ctx.ended + 1 == ended + i))
      invariant FirstAllTook(proc, v, regions, takens, ctx.ended - ended)
      invariant forall j :: 0 <= j < |slots| && slots[j] != null ==>
                              fresh(slots[j]) && fresh(slots[j].data)
                                  && slots[j].data.Length == REGION_RESULTS_ALLOC_CAPS
    {
      var cancelled := ctx.Err();
      if cancelled {
        return;
      }
      assert Sane(regions[i]) by { assert regions[i] in regions; }
      var slot, taken := FirstTask(proc, v, regions[i], ctx);
      SlotWritten(slots, takens, i, slot, taken);
      FirstTookNext(proc, v, regions, takens, i, taken, !ctx.done);
      slots, takens := slots[i := slot], takens[i := taken];
      i := i + 1;
    }
  }

  lemma NothingTook(proc: Process, v: Value, regions: seq<Region>, takens: seq<seq<nat>>)
    requires v.Valid() && AllOrdered(regions) && |takens| == |regions|
    requires forall i :: 0 <= i < |takens| ==> takens[i] == []
    ensures FirstAllTook(proc, v, regions, takens, 0)
  {
  }

  lemma NoSlotsHold(n: nat)
    ensures SlotsHold(NoSlots(n), NothingTaken(n))
  {
  }

  /** A span a dense task can scan: page-aligned, with all its addresses inside. */
  ghost predicate Scannable(region: VirtualRegion) {
    && region.start % PAGE_SIZE == 0 && region.start <= region.end && region.size == region.end - region.start
    && Ascending(region.addresses)
    && (forall a :: a in region.addresses ==> region.start <= a < region.end)
  }

  ghost predicate DenseTook(proc: Process, v: Value, region: VirtualRegion, taken: seq<nat>, complete: bool)
    requires v.Valid()
  {
    && Ascending(taken)
    && (forall x :: x in taken ==> x in region.addresses && Hit(proc, v, region.start, region.size, region.size, x))
    && taken <= DenseAnswer(proc, v, region.start, region.size, region.addresses)
    && (complete ==> taken == DenseAnswer(proc, v, region.start, region.size, region.addresses))
  }

  /** What the tasks of a dense scan took when `k` of them ended before any cancellation. */
  ghost predicate DenseAllTook(proc: Process, v: Value, regions: seq<VirtualRegion>, takens: seq<seq<nat>>, k: nat)
    requires v.Valid()
  {
    && |takens| == |regions| && k <= |regions|
    && (forall i :: 0 <= i < |regions| ==> DenseTook(proc, v, regions[i], takens[i], i < k))
    && (forall i :: k < i < |regions| ==> takens[i] == [])
  }

  lemma DenseTookNext(proc: Process, v: Value, regions: seq<VirtualRegion>, takens: seq<seq<nat>>, k: nat,
                      taken: seq<nat>, complete: bool)
    requires v.Valid() && k < |regions|
    requires DenseAllTook(proc, v, regions, takens, k)
    requires DenseTook(proc, v, regions[k], taken, complete)
    ensures DenseAllTook(proc, v, regions, takens[k := taken], if complete then k + 1 else k)
  {
    hide DenseAnswer, Hit;
  }

  lemma DenseTookNothing(proc: Process, v: Value, regions: seq<VirtualRegion>, takens: seq<seq<nat>>)
    requires v.Valid() && |takens| == |regions|
    requires forall i :: 0 <= i < |takens| ==> takens[i] == []
    ensures DenseAllTook(proc, v, regions, takens, 0)
  {
  }

  method DenseTask(proc: Process, v: Value, region: VirtualRegion, ctx: Context)
    returns (slot: MmapUint64?, ghost taken: seq<nat>)
    requires v.Valid() && Scannable(region) && region.cursor == 0
    modifies ctx, region
    ensures old(ctx.done) ==> ctx.done
    ensures ctx.ended == old(ctx.ended) + if ctx.done then 0 else 1
    ensures SlotHolds(slot, taken) && DenseTook(proc, v, region, taken, !ctx.done)
    ensures slot != null ==> fresh(slot) && fresh(slot.data) && slot.data.Length == region.size / v.Size()
  {
    slot, taken := TaskNextScanDense(proc, v, region, region.size / v.Size(), ctx);
  }

  method RunDenseTasks(proc: Process, v: Value, regions: seq<VirtualRegion>, ctx: Context)
    returns (slots: seq<MmapUint64?>, ghost takens: seq<seq<nat>>)
    requires v.Valid() && forall i :: 0 <= i < |regions| ==> Scannable(regions[i]) && regions[i].cursor == 0
    requires forall i, j :: 0 <= i < j < |regions| ==> regions[i] != regions[j]
    modifies ctx, regions
    ensures old(ctx.done) ==> ctx.done
    ensures |slots| == |regions| && SlotsHold(slots, takens)
    ensures ctx.ended >= old(ctx.ended)
    ensures DenseAllTook(proc, v, regions, takens, ctx.ended - old(ctx.ended))
    ensures !ctx.done ==> ctx.ended - old(ctx.ended) == |regions|
    ensures forall i :: 0 <= i < |slots| && slots[i] != null ==>
                          fresh(slots[i]) && fresh(slots[i].data) && slots[i].data.Length == regions[i].size / v.Size()
  {
    ghost var ended := ctx.ended;
    slots, takens := NoSlots(|regions|), NothingTaken(|regions|);
    DenseTookNothing(proc, v, regions, takens);
    NoSlotsHold(|regions|);
    hide SlotHolds, DenseTook, DenseAllTook, SlotsHold, Scannable;
    var i := 0;
    while i < |regions|
      invariant 0 <= i <= |regions| == |slots| && (old(ctx.done) ==> ctx.done)
      invariant SlotsHold(slots, takens)
      invariant ended <= ctx.ended && (ctx.ended == ended + i || (ctx.done && ctx.ended + 1 == ended + i))
      invariant DenseAllTook(proc, v, regions, takens, ctx.ended - ended)
      invariant forall j :: i <= j < |regions| ==> regions[j].cursor == 0
      invariant forall j :: 0 <= j < |slots| && slots[j] != null ==>
                              fresh(slots[j]) && fresh(slots[j].data)
                                  && slots[j].data.Length == regions[j].size / v.Size()
    {
      var cancelled := ctx.Err();
      if cancelled {
        return;
      }
      var slot, taken := DenseTask(proc, v, regions[i], ctx);
      SlotWritten(slots, takens, i, slot, taken);
      DenseTookNext(proc, v, regions, takens, i, taken, !ctx.done);
      slots, takens := slots[i := slot], takens[i := taken];
      i := i + 1;
    }
  }

  /** Where the sparse fan-out stands after `m` tasks: their answers, and no jam in their shares. */
  ghost predicate SparseAt(proc: Process, v: Value, all: seq<nat>, m: nat, start: nat, takens: seq<seq<nat>>)
    requires v.Valid()
  {
    && m <= ShareCount(|all|) && start == m * NEXT_SCAN_TASK_SIZE
    && takens == SparseParts(proc.mem, v, all)[..m]
    && !SparseJams(proc, all, v.Size(), SharesEnd(all, m))
  }

  /** The share that starts where the first `m` end. */
  lemma ShareAt(all: seq<nat>, m: nat, start: nat, count: nat)
    requires start == m * NEXT_SCAN_TASK_SIZE < |all|
    requires count == if start + NEXT_SCAN_TASK_SIZE > |all| then |all| - start else NEXT_SCAN_TASK_SIZE
    ensures m < ShareCount(|all|) && start + count <= |all|
    ensures SharesEnd(all, m) == start && SharesEnd(all, m + 1) == start + count
    ensures Share(all, m) == all[start..start + count]
    ensures start % IOV_MAX == 0
  {
  }

  lemma SparseAtNext(proc: Process, v: Value, all: seq<nat>, m: nat, start: nat, count: nat, takens: seq<seq<nat>>,
                     taken: seq<nat>)
    requires v.Valid() && SparseAt(proc, v, all, m, start, takens) && start < |all|
    requires count == if start + NEXT_SCAN_TASK_SIZE > |all| then |all| - start else NEXT_SCAN_TASK_SIZE
    requires start + count <= |all|
    requires taken == SparseAnswer(proc.mem, v, all[start..start + count])
    requires !SparseJams(proc, all[start..start + count], v.Size(), count)
    ensures SparseAt(proc, v, all, m + 1, start + NEXT_SCAN_TASK_SIZE, takens + [taken])
  {
    hide SparseJams, SparseAnswer, Share, SharesEnd, ShareCount;
    ShareAt(all, m, start, count);
    JamsNext(proc, all, v.Size(), start, start + count);
    var parts := SparseParts(proc.mem, v, all);
    assert parts[m] == SparseAnswer(proc.mem, v, Share(all, m));
    hide SparseParts;
    assert parts[..m + 1] == parts[..m] + [parts[m]];
  }

  lemma SparseAtJam(proc: Process, v: Value, all: seq<nat>, m: nat, start: nat, count: nat, takens: seq<seq<nat>>)
    requires v.Valid() && SparseAt(proc, v, all, m, start, takens) && start < |all|
    requires count == if start + NEXT_SCAN_TASK_SIZE > |all| then |all| - start else NEXT_SCAN_TASK_SIZE
    requires start + count <= |all| && SparseJams(proc, all[start..start + count], v.Size(), count)
    ensures SparseJams(proc, all, v.Size(), |all|)
  {
    ShareAt(all, m, start, count);
    JamsNext(proc, all, v.Size(), start, start + count);
    hide Strands, Fragile;
  }

  lemma SparseAtEnd(proc: Process, v: Value, all: seq<nat>, m: nat, start: nat, takens: seq<seq<nat>>)
    requires v.Valid() && SparseAt(proc, v, all, m, start, takens) && start >= |all|
    ensures takens == SparseParts(proc.mem, v, all) && !SparseJams(proc, all, v.Size(), |all|)
  {
    hide SparseJams, SparseParts;
    assert m == ShareCount(|all|);
    assert SparseParts(proc.mem, v, all)[..m] == SparseParts(proc.mem, v, all);
  }

  /**
   The sparse tasks over a result list. Every task that ended keeps the whole answer of its share, and all have
   ended if nothing was cancelled; the scan fails exactly if some batch jams.
   */
  method RunSparseTasks(proc: Process, v: Value, results: MmapUint64, ctx: Context)
    returns (outcome: ReadOutcome, slots: seq<MmapUint64?>, ghost takens: seq<seq<nat>>)
    requires v.Valid() && results.InBounds()
    modifies ctx
    ensures (old(ctx.done) ==> ctx.done) && ctx.ended >= old(ctx.ended)
    ensures !outcome.Finished? ==> SparseJams(proc, results.Data(), v.Size(), results.cursor)
    ensures outcome.Finished? ==>
              && SlotsHold(slots, takens)
              && ctx.ended - old(ctx.ended) <= |SparseParts(proc.mem, v, results.Data())|
              && takens == SparseParts(proc.mem, v, results.Data())[..ctx.ended - old(ctx.ended)]
              && (!ctx.done ==> takens == SparseParts(proc.mem, v, results.Data())
                                && !SparseJams(proc, results.Data(), v.Size(), results.cursor))
              && (forall i :: 0 <= i < |slots| && slots[i] != null ==>
                    fresh(slots[i]) && fresh(slots[i].data) && slots[i].InBounds())
  {
    hide SlotHolds, SlotsHold, SparseAt, SparseJams, SparseParts, SparseAnswer, NoSlots;
    var count := results.cursor;
    ghost var all, ended := results.Data(), ctx.ended;
    slots, takens, outcome := [], [], Finished;
    ghost var m := 0;
    SparseAtStart(proc, v, all);
    var start := 0;
    while start < count
      invariant 0 <= start && outcome.Finished? && (old(ctx.done) ==> ctx.done)
      invariant SlotsHold(slots, takens) && |slots| == |takens|
      invariant SparseAt(proc, v, all, m, start, takens) && ctx.ended == ended + m
      invariant forall j :: 0 <= j < |slots| && slots[j] != null ==>
                              fresh(slots[j]) && fresh(slots[j].data) && slots[j].InBounds()
    {
      var cancelled := ctx.Err();
      if cancelled {
        SparseAtPart(proc, v, all, m, start, takens);
        return;
      }
      var slot;
      ghost var taken;
      outcome, slot, taken := SparseTask(proc, v, results, m, start, takens, ctx);
      if !outcome.Finished? {
        return;
      }
      SlotAppended(slots, takens, slot, taken);
      slots, takens, m := slots + [slot], takens + [taken], m + 1;
      start := start + NEXT_SCAN_TASK_SIZE;
    }
    SparseAtPart(proc, v, all, m, start, takens);
    SparseAtEnd(proc, v, all, m, start, takens);
  }

  lemma SparseAtStart(proc: Process, v: Value, all: seq<nat>)
    requires v.Valid()
    ensures SparseAt(proc, v, all, 0, 0, []) && SlotsHold([], [])
  {
  }

  /** One task over its share of the results. */
  method SparseTask(proc: Process, v: Value, results: MmapUint64, ghost m: nat, start: nat,
                    ghost takens: seq<seq<nat>>, ghost ctx: Context)
    returns (outcome: ReadOutcome, slot: MmapUint64?, ghost taken: seq<nat>)
    requires v.Valid() && results.InBounds() && start < results.cursor
    requires SparseAt(proc, v, results.Data(), m, start, takens)
    modifies ctx`ended
    ensures ctx.ended == old(ctx.ended) + if outcome.Finished? then 1 else 0
    ensures !outcome.Finished? ==> SparseJams(proc, results.Data(), v.Size(), results.cursor)
    ensures outcome.Finished? ==>
              && SparseAt(proc, v, results.Data(), m + 1, start + NEXT_SCAN_TASK_SIZE, takens + [taken])
              && SlotHolds(slot, taken)
              && (slot != null ==> fresh(slot) && fresh(slot.data) && slot.InBounds())
  {
    hide SlotHolds, SparseAt, SparseJams, SparseAnswer;
    ghost var all := results.Data();
    var batchCount := NEXT_SCAN_TASK_SIZE;
    if start + batchCount > results.cursor {
      batchCount := results.cursor - start;
    }
    var addresses := results.GetN(start, batchCount);
    assert addresses.value == all[start..start + batchCount];
    outcome, slot, taken := TaskNextScanSparse(proc, v, addresses.value, ctx);
    if outcome.Finished? {
      SparseAtNext(proc, v, all, m, start, batchCount, takens, taken);
    } else {
      SparseAtJam(proc, v, all, m, start, batchCount, takens);
    }
  }

  lemma SparseAtPart(proc: Process, v: Value, all: seq<nat>, m: nat, start: nat, takens: seq<seq<nat>>)
    requires v.Valid() && SparseAt(proc, v, all, m, start, takens)
    ensures m <= |SparseParts(proc.mem, v, all)| && takens == SparseParts(proc.mem, v, all)[..m]
  {
    hide SparseJams, SparseParts;
  }

  lemma SlotAppended(slots: seq<MmapUint64?>, takens: seq<seq<nat>>, slot: MmapUint64?, taken: seq<nat>)
    requires SlotsHold(slots, takens) && SlotHolds(slot, taken)
    ensures SlotsHold(slots + [slot], takens + [taken])
  {
  }
}

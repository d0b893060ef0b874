/** The scan session `Memscan`: first scan, next scans by either strategy, undo and reset. */
module Session {
  import opened Kernel
  import opened Values
  import opened Sequences
  import opened MmapStore
  import opened VirtualRegions
  import opened Scanners
  import opened ScanTasks
  import opened SparseRead
  import opened SparseScan
  import opened ScanMeaning
  import opened Regions
  import opened TaskRuns
  import opened DenseScans
  import opened SessionRuns

  const RESULTS_ALLOC_CAPS: nat := 64 * 1024 * 1024
  const NEXT_SCAN_SPARSE_THRESHOLD: nat := IOV_MAX * 32

  /** The answers of the tasks of a first scan, region by region. */
  ghost function FirstParts(proc: Process, v: Value, plan: seq<Region>): (parts: seq<seq<nat>>)
    requires v.Valid() && AllOrdered(plan)
    ensures |parts| == |plan|
    ensures forall i :: 0 <= i < |plan| ==> parts[i] == FirstAnswer(proc, v, plan[i].start, plan[i].end - plan[i].start)
  {
    seq(|plan|, i requires 0 <= i < |plan| => FirstAnswer(proc, v, plan[i].start, plan[i].end - plan[i].start))
  }

  /** Some region holds more matches than a task's buffer has room for. */
  ghost predicate TooMany(proc: Process, v: Value, plan: seq<Region>)
    requires v.Valid() && AllOrdered(plan)
  {
    TooManyBelow(proc, v, plan, |plan|)
  }

  /** One of the first `k` does. */
  ghost predicate TooManyBelow(proc: Process, v: Value, plan: seq<Region>, k: nat)
    requires v.Valid() && AllOrdered(plan) && k <= |plan|
  {
    exists i :: 0 <= i < k && |FirstParts(proc, v, plan)[i]| > 262144
  }

  /**
   Task answers of an ascending listing are layered, so their merge is ascending. It begins with the whole
   answers of the `k` tasks that ended before any cancellation.
   */
  lemma FirstLayered(proc: Process, v: Value, plan: seq<Region>, takens: seq<seq<nat>>, k: nat)
    requires v.Valid() && Listing(plan) && AllOrdered(plan)
    requires FirstAllTook(proc, v, plan, takens, k)
    ensures Ascending(Flatten(takens))
    ensures forall x :: x in Flatten(takens) ==> exists i :: 0 <= i < |plan| && FirstHitIn(proc, v, plan[i], x)
    ensures k <= |plan| && Partly(FirstParts(proc, v, plan), k, Flatten(takens))
    ensures k == |plan| ==> takens == FirstParts(proc, v, plan)
  {
    hide Hit, FirstAnswer, Ascending;
    forall i | 0 <= i < |plan|
      ensures Ascending(takens[i]) && forall x :: x in takens[i] ==> FirstHitIn(proc, v, plan[i], x)
    {
      assert FirstTook(proc, v, plan[i], takens[i], i < k);
      assert Sane(plan[i]) by { assert plan[i] in plan; }
      hide Listing, FirstAllTook;
      forall x | x in takens[i] ensures FirstHitIn(proc, v, plan[i], x) {
        HitInside(proc, v, plan[i].start, plan[i].end - plan[i].start, 0, x);
      }
    }
    forall i, j, x, y | 0 <= i < j < |takens| && x in takens[i] && y in takens[j] ensures x < y {
      assert FirstHitIn(proc, v, plan[i], x) && FirstHitIn(proc, v, plan[j], y);
    }
    FirstPrefixes(proc, v, plan, takens, k);
    hide FirstAllTook, FirstParts, FirstHitIn, Listing, AllOrdered;
    FlattenAscending(takens);
    PartlyFlat(FirstParts(proc, v, plan), takens, k);
  }

  lemma FirstPrefixes(proc: Process, v: Value, plan: seq<Region>, takens: seq<seq<nat>>, k: nat)
    requires v.Valid() && AllOrdered(plan) && FirstAllTook(proc, v, plan, takens, k)
    ensures |takens| == |plan| && k <= |plan|
    ensures forall i :: 0 <= i < |plan| ==> takens[i] <= FirstParts(proc, v, plan)[i]
    ensures forall i :: 0 <= i < k ==> takens[i] == FirstParts(proc, v, plan)[i]
    ensures forall i :: k < i < |plan| ==> takens[i] == []
  {
    hide FirstAnswer, Hit;
    forall i | 0 <= i < |plan|
      ensures takens[i] <= FirstParts(proc, v, plan)[i] && (i < k ==> takens[i] == FirstParts(proc, v, plan)[i])
    {
      assert FirstTook(proc, v, plan[i], takens[i], i < k);
    }
  }

  /** A hit of one region's scan, with the value entirely inside the region. */
  ghost predicate FirstHitIn(proc: Process, v: Value, r: Region, x: nat)
    requires v.Valid()
  {
    && r.start <= x && x + v.Size() <= r.end
    && Hit(proc, v, r.start, r.end - r.start, 0, x)
  }

  /**
   The merge panics if an ended task's region has too many matches, and only if some region has; a complete
   scan therefore exactly then.
   */
  lemma OverfilledIsTooMany(proc: Process, v: Value, plan: seq<Region>, slots: seq<MmapUint64?>,
                            takens: seq<seq<nat>>, k: nat)
    requires v.Valid() && AllOrdered(plan) && |slots| == |plan| && SlotsHold(slots, takens)
    requires FirstAllTook(proc, v, plan, takens, k)
    requires forall i :: 0 <= i < |slots| && slots[i] != null ==> slots[i].data.Length == REGION_RESULTS_ALLOC_CAPS
    ensures TooManyBelow(proc, v, plan, k) ==> Overfilled(slots, |slots|)
    ensures Overfilled(slots, |slots|) ==> TooMany(proc, v, plan)
  {
    FirstPrefixes(proc, v, plan, takens, k);
    hide FirstAllTook, FirstParts;
    forall i | 0 <= i < |slots|
      ensures slots[i] != null && !slots[i].InBounds() <==> |takens[i]| > 262144
    {
      assert SlotHolds(slots[i], takens[i]);
    }
  }

  /** The spans of an ascending result list can all be scanned. */
  lemma SpansScannable(regions: seq<VirtualRegion>, addresses: seq<nat>, v: Value)
    requires Grouping(regions, addresses, v.Size()) && Ascending(addresses) && v.Valid()
    ensures Layered(Lists(regions))
    ensures forall i :: 0 <= i < |regions| ==> Scannable(regions[i]) && regions[i].size % PAGE_SIZE == 0
    ensures forall i, a :: 0 <= i < |regions| && a in regions[i].addresses ==>
                             regions[i].start <= a && a + v.Size() <= regions[i].start + regions[i].size
  {
    FlattenLayered(Lists(regions));
    forall i | 0 <= i < |regions|
      ensures Scannable(regions[i]) && regions[i].size % PAGE_SIZE == 0
      ensures forall a :: a in regions[i].addresses ==>
                            regions[i].start <= a && a + v.Size() <= regions[i].start + regions[i].size
    {
      assert Ascending(Lists(regions)[i]);
      SpanBounds(regions[i], v.Size());
    }
  }

  /**
   What the dense tasks took, merged: an ascending part of the places that hold the value. It begins with the
   whole answers of the `k` tasks that ended before any cancellation.
   */
  lemma DenseMerged(proc: Process, v: Value, regions: seq<VirtualRegion>, addresses: seq<nat>,
                    takens: seq<seq<nat>>, k: nat)
    requires v.Valid() && Ascending(addresses) && Grouping(regions, addresses, v.Size())
    requires DenseAllTook(proc, v, regions, takens, k)
    ensures Ascending(Flatten(takens))
    ensures forall x :: x in Flatten(takens) ==> x in addresses && AlignedHeldAt(proc.mem, v, x)
    ensures Partly(DenseParts(proc, v, addresses), k, Flatten(takens))
    ensures k == |regions| ==> takens == DenseParts(proc, v, addresses)
  {
    SpansScannable(regions, addresses, v);
    forall i | 0 <= i < |takens|
      ensures Ascending(takens[i])
      ensures forall x :: x in takens[i] ==> x in Lists(regions)[i] && AlignedHeldAt(proc.mem, v, x)
    {
      assert DenseTook(proc, v, regions[i], takens[i], i < k);
      forall x | x in takens[i] ensures AlignedHeldAt(proc.mem, v, x) {
        HitHolds(proc, v, regions[i].start, regions[i].size, regions[i].size, x);
      }
    }
    FlattenAscending(takens);
    TakenParts(proc, v, regions, addresses, takens, k);
    hide DenseAllTook, DenseParts, Grouping, Scannable, Flatten, AlignedHeldAt;
    PartlyFlat(DenseParts(proc, v, addresses), takens, k);
  }

  /**
   The merge of dense answers panics if an ended task's span has too many hits, and only if some span has; a
   complete scan therefore exactly then.
   */
  lemma OverfilledIsDenseTooMany(proc: Process, v: Value, regions: seq<VirtualRegion>, addresses: seq<nat>,
                                 slots: seq<MmapUint64?>, takens: seq<seq<nat>>, k: nat)
    requires v.Valid() && Ascending(addresses) && Grouping(regions, addresses, v.Size())
    requires DenseAllTook(proc, v, regions, takens, k)
    requires |slots| == |regions| && SlotsHold(slots, takens)
    requires forall i :: 0 <= i < |slots| && slots[i] != null ==> slots[i].data.Length == regions[i].size / v.Size()
    ensures k <= |SpansOf(v, addresses)| && |regions| == |SpansOf(v, addresses)|
    ensures DenseTooManyBelow(proc, v, addresses, k) ==> Overfilled(slots, |slots|)
    ensures Overfilled(slots, |slots|) ==> DenseTooMany(proc, v, addresses)
  {
    SpansScannable(regions, addresses, v);
    TakenParts(proc, v, regions, addresses, takens, k);
    assert |takens| == |slots| && forall i :: 0 <= i < |slots| ==> SlotHolds(slots[i], takens[i]);
    hide *;
    RoomDecides(proc, v, addresses, slots, takens, k);
  }

  /** A slot is overfilled exactly if what was taken is more than its span's room. */
  lemma RoomDecides(proc: Process, v: Value, addresses: seq<nat>, slots: seq<MmapUint64?>,
                    takens: seq<seq<nat>>, k: nat)
    requires v.Valid() && |slots| == |takens| == |SpansOf(v, addresses)| && k <= |takens|
    requires forall i :: 0 <= i < |takens| ==> takens[i] <= DenseParts(proc, v, addresses)[i]
    requires forall i :: 0 <= i < k ==> takens[i] == DenseParts(proc, v, addresses)[i]
    requires forall i :: 0 <= i < |slots| ==> SlotHolds(slots[i], takens[i])
    requires forall i :: 0 <= i < |slots| && slots[i] != null ==>
                           slots[i].data.Length == SpanSize(SpansOf(v, addresses)[i]) / v.Size()
    ensures DenseTooManyBelow(proc, v, addresses, k) ==> Overfilled(slots, |slots|)
    ensures Overfilled(slots, |slots|) ==> DenseTooMany(proc, v, addresses)
  {
    hide DenseParts, SpansOf, SpanSize;
    forall i | 0 <= i < |slots|
      ensures slots[i] != null && !slots[i].InBounds() <==> |takens[i]| > SpanRoom(v, SpansOf(v, addresses)[i])
    {
      assert SlotHolds(slots[i], takens[i]);
    }
    hide SlotHolds, SpanRoom;
  }

  /** No slot of a value that packs is overfilled, complete or not. */
  lemma PackedSlotsFit(proc: Process, v: Value, regions: seq<VirtualRegion>, slots: seq<MmapUint64?>,
                       takens: seq<seq<nat>>, k: nat)
    requires v.Valid() && Packs(v) && DenseAllTook(proc, v, regions, takens, k)
    requires forall i :: 0 <= i < |regions| ==> Scannable(regions[i]) && regions[i].size % PAGE_SIZE == 0
    requires |slots| == |regions| && SlotsHold(slots, takens)
    requires forall i :: 0 <= i < |slots| && slots[i] != null ==> slots[i].data.Length == regions[i].size / v.Size()
    ensures !Overfilled(slots, |slots|)
  {
    hide Packs, Hit, DenseAnswer, Ascending;
    forall i | 0 <= i < |slots| && slots[i] != null ensures slots[i].InBounds() {
      assert SlotHolds(slots[i], takens[i]);
      assert DenseTook(proc, v, regions[i], takens[i], i < k);
      assert Scannable(regions[i]);
      HitsFit(proc, v, regions[i].start, regions[i].size, regions[i].size, takens[i]);
    }
  }

  /**
   How a first scan ends when `k` of its tasks ended before any cancellation: it panics if one of those has too
   many matches and only if some region has, and otherwise the results begin with their whole answers.
   */
  ghost predicate FirstOutcome(proc: Process, v: Value, plan: seq<Region>, k: int, panicked: bool, results: seq<nat>)
    requires v.Valid() && AllOrdered(plan)
  {
    && 0 <= k <= |plan|
    && (TooManyBelow(proc, v, plan, k) ==> panicked) && (panicked ==> TooMany(proc, v, plan))
    && (!panicked ==> Partly(FirstParts(proc, v, plan), k, results))
  }

  /** What a first scan's slots merge into, and whether they do. */
  lemma FirstEnd(proc: Process, v: Value, plan: seq<Region>, slots: seq<MmapUint64?>, takens: seq<seq<nat>>, k: nat)
    requires v.Valid() && Listing(plan) && AllOrdered(plan) && |slots| == |plan| && SlotsHold(slots, takens)
    requires FirstAllTook(proc, v, plan, takens, k)
    requires forall i :: 0 <= i < |slots| && slots[i] != null ==> slots[i].data.Length == REGION_RESULTS_ALLOC_CAPS
    ensures var overfilled, merged := Overfilled(slots, |slots|), Flatten(takens);
            && Ascending(merged)
            && (forall x :: x in merged ==> exists i :: 0 <= i < |plan| && FirstHitIn(proc, v, plan[i], x))
            && (k == |plan| ==>
                  (overfilled <==> TooMany(proc, v, plan)) && merged == Flatten(FirstParts(proc, v, plan)))
            && FirstOutcome(proc, v, plan, k, overfilled, if overfilled then [] else merged)
  {
    hide FirstAllTook, SlotsHold, Listing, AllOrdered, FirstHitIn, Overfilled, TooManyBelow, FirstParts, Partly;
    FirstLayered(proc, v, plan, takens, k);
    OverfilledIsTooMany(proc, v, plan, slots, takens, k);
  }

  /** Likewise a dense next scan. */
  ghost predicate DenseOutcome(proc: Process, v: Value, before: seq<nat>, k: int, panicked: bool, results: seq<nat>)
    requires v.Valid()
  {
    && 0 <= k <= |SpansOf(v, before)|
    && (DenseTooManyBelow(proc, v, before, k) ==> panicked) && (panicked ==> DenseTooMany(proc, v, before))
    && (!panicked ==> Partly(DenseParts(proc, v, before), k, results))
  }

  /** And a sparse one; its tasks do not look at the cancellation, so each ends whole or does not begin. */
  ghost predicate SparseOutcome(proc: Process, v: Value, before: seq<nat>, k: int, results: seq<nat>)
    requires v.Valid()
  {
    0 <= k <= |SparseParts(proc.mem, v, before)| && results == Flatten(SparseParts(proc.mem, v, before)[..k])
  }

  lemma NothingBefore(s: seq<nat>)
    ensures [] + s == s
  {
  }

  class Memscan {
    var results: MmapUint64
    var prevResults: MmapUint64
    var round: int
    var canUndo: bool

    ghost predicate Valid()
      reads this, results, prevResults
    {
      && results != prevResults && results.data != prevResults.data
      && results.InBounds() && prevResults.InBounds()
    }

    /** The visible state the transition system of SessionRuns speaks about. */
    ghost function View(): State
      reads this, results, prevResults, results.data, prevResults.data
      requires Valid()
    {
      State(results.Data(), prevResults.Data(), round, canUndo)
    }

    constructor ()
      ensures Valid() && View() == CLEARED
      ensures fresh(results) && fresh(results.data) && fresh(prevResults) && fresh(prevResults.data)
    {
      results := new MmapUint64(RESULTS_ALLOC_CAPS);
      prevResults := new MmapUint64(RESULTS_ALLOC_CAPS);
      round := 0;
      canUndo := false;
    }

    method Reset()
      requires Valid()
      modifies this`round, this`canUndo, results`cursor, prevResults`cursor
      ensures Valid() && View() == CLEARED
    {
      results.Clear();
      prevResults.Clear();
      round := 0;
      canUndo := false;
    }

    method UndoScan() returns (ok: bool)
      requires Valid()
      modifies this, results`cursor
      ensures Valid() && ok == old(canUndo)
      ensures View() == UndoStep(old(View()))
    {
      if !canUndo {
        return false;
      }
      canUndo := false;
      results, prevResults := prevResults, results;
      prevResults.Clear();
      round := round - 1;
      return true;
    }

    /** The index of an address in the results, or -1. */
    method SearchInResults(address: nat) returns (i: int)
      requires Valid() && Ascending(results.Data())
      ensures i == -1 <==> address !in results.Data()
      ensures i >= 0 ==> i < |results.Data()| && results.Data()[i] == address
      ensures i >= -1
    {
      if results.cursor == 0 {
        return -1;
      }
      var at, found := BinarySearch(results.Data(), address);
      assert found || forall j :: 0 <= j < |results.Data()| ==> results.Data()[j] != address;
      return if found then at else -1;
    }

    /**
     A first scan of the listed regions. The answer is ascending and sound in every case, and begins with the
     whole answers of the tasks that ended before any cancellation. A complete one is the merge of the planned
     regions' answers, and panics exactly if some region has too many.
     */
    method FirstScan(proc: Process, v: Value, alive: bool, regions: seq<Region>, ctx: Context) returns (panicked: bool)
      requires Valid() && v.Valid() && Listing(regions)
      modifies this, results, results.data, prevResults`cursor, ctx
      ensures !alive ==> !panicked && Valid() && View() == CLEARED
      ensures alive && !panicked ==>
                && Valid() && Ascending(results.Data()) && View() == FirstStep(results.Data())
                && (forall x :: x in results.Data() ==>
                      exists i :: 0 <= i < |Plan(regions)| && FirstHitIn(proc, v, Plan(regions)[i], x))
      ensures alive && !ctx.done ==>
                && (panicked <==> TooMany(proc, v, Plan(regions)))
                && (!panicked ==> results.Data() == Flatten(FirstParts(proc, v, Plan(regions))))
      ensures ctx.ended >= old(ctx.ended)
      ensures alive ==>
                FirstOutcome(proc, v, Plan(regions), ctx.ended - old(ctx.ended), panicked,
                             if panicked then [] else results.Data())
    {
      hide FirstAllTook, SlotsHold, Listing, AllOrdered, FirstHitIn, Overfilled, TooManyBelow, FirstParts, Partly;
      ListingOrdered(regions);
      Reset();
      if !alive {
        return false;
      }
      var optimized := RegionsOptimize(regions);
      assert optimized == Plan(regions);
      hide Plan;
      var slots, takens := RunFirstTasks(proc, v, optimized, ctx);
      FirstEnd(proc, v, optimized, slots, takens, ctx.ended - old(ctx.ended));
      panicked := FinishFirst(slots, takens);
    }

    /** The end of a first scan: count the round and merge. */
    method FinishFirst(slots: seq<MmapUint64?>, ghost takens: seq<seq<nat>>) returns (panicked: bool)
      requires Valid() && View() == CLEARED && SlotsHold(slots, takens)
      requires forall i :: 0 <= i < |slots| && slots[i] != null ==>
                             && slots[i] != results && slots[i] != prevResults
                             && slots[i].data != results.data && slots[i].data != prevResults.data
      modifies this`round, results, results.data
      ensures panicked <==> old(Overfilled(slots, |slots|))
      ensures !panicked ==> Valid() && View() == FirstStep(Flatten(takens))
    {
      round := round + 1;
      panicked := MergeSlots(results, slots, takens);
      NothingBefore(Flatten(takens));
    }

    /** The common end of both next scans: merge into the other buffer, then swap. */
    method FinishNext(slots: seq<MmapUint64?>, ghost takens: seq<seq<nat>>) returns (panicked: bool)
      requires Valid() && SlotsHold(slots, takens)
      requires forall i :: 0 <= i < |slots| && slots[i] != null ==>
                             && slots[i] != results && slots[i] != prevResults
                             && slots[i].data != results.data && slots[i].data != prevResults.data
      modifies this, prevResults, prevResults.data
      ensures panicked <==> old(Overfilled(slots, |slots|))
      ensures !panicked ==> Valid() && View() == State(Flatten(takens), old(View()).results, old(round) + 1, true)
    {
      round := round + 1;
      canUndo := true;
      prevResults.Clear();
      panicked := MergeSlots(prevResults, slots, takens);
      NothingBefore(Flatten(takens));
      results, prevResults := prevResults, results;
    }

    /**
     A next scan that rereads whole spans around the results. A complete one keeps exactly what the spans'
     answers hold, and panics exactly if some span has too many hits, which values that cannot overlap themselves
     and values that divide the page never have.
     */
    method NextScanDense(proc: Process, v: Value, ctx: Context) returns (panicked: bool)
      requires Valid() && v.Valid() && Ascending(results.Data()) && results.Data() != []
      modifies this, prevResults, prevResults.data, ctx
      ensures Packs(v) ==> !panicked
      ensures !panicked ==>
                && Valid() && View() == NextStep(old(View()), results.Data()) && Ascending(results.Data())
                && (forall x :: x in results.Data() ==> x in old(results.Data()) && AlignedHeldAt(proc.mem, v, x))
      ensures !ctx.done ==>
                && (panicked <==> DenseTooMany(proc, v, old(results.Data())))
                && (!panicked ==> results.Data() == DenseKept(proc, v, old(results.Data())))
      ensures ctx.ended >= old(ctx.ended)
      ensures DenseOutcome(proc, v, old(results.Data()), ctx.ended - old(ctx.ended), panicked,
                           if panicked then [] else results.Data())
    {
      hide DenseAllTook, SlotsHold, Scannable, Grouping, Overfilled;
      hide DenseTooManyBelow, DenseParts, Layered, Lists, AlignedHeldAt, Packs, Partly;
      ghost var before := results.Data();
      var regions := BuildVirtualRegions(results.Data(), v.Size());
      SpansScannable(regions, before, v);
      var slots, takens := RunDenseTasks(proc, v, regions, ctx);
      ghost var k := ctx.ended - old(ctx.ended);
      DenseMerged(proc, v, regions, before, takens, k);
      OverfilledIsDenseTooMany(proc, v, regions, before, slots, takens, k);
      if Packs(v) {
        PackedSlotsFit(proc, v, regions, slots, takens, k);
      }
      panicked := FinishNext(slots, takens);
      assert DenseOutcome(proc, v, before, k, panicked, if panicked then [] else Flatten(takens));
    }

    /** A next scan that rereads exactly the results, in scattered batches; it fails exactly if a batch jams. */
    method NextScanSparse(proc: Process, v: Value, ctx: Context) returns (outcome: ReadOutcome)
      requires Valid() && v.Valid() && Ascending(results.Data()) && results.Data() != []
      modifies this, prevResults, prevResults.data, ctx
      ensures !outcome.Finished? ==> SparseJams(proc, old(results.Data()), v.Size(), |old(results.Data())|)
      ensures outcome.Finished? ==>
                && Valid() && View() == NextStep(old(View()), results.Data()) && Ascending(results.Data())
                && (forall x :: x in results.Data() ==> x in old(results.Data()))
      ensures outcome.Finished? && !ctx.done ==>
                && results.Data() == SparseKept(proc.mem, v, old(results.Data()))
                && !SparseJams(proc, old(results.Data()), v.Size(), |old(results.Data())|)
      ensures ctx.ended >= old(ctx.ended)
      ensures outcome.Finished? ==>
                SparseOutcome(proc, v, old(results.Data()), ctx.ended - old(ctx.ended), results.Data())
    {
      hide SparseJams, SparseParts, SlotsHold, Flatten, Ascending;
      ghost var before := results.Data();
      var slots;
      ghost var takens;
      outcome, slots, takens := RunSparseTasks(proc, v, results, ctx);
      if outcome.Finished? {
        PartialReport(proc.mem, v, before, takens, ctx.ended - old(ctx.ended));
        var _ := FinishNext(slots, takens);
      }
    }

    /**
     The next scan: dense for many results, sparse for few. An uncancelled one fails exactly where its strategy
     does and otherwise keeps exactly what that strategy keeps: for an exact value, aligned results and clamped
     counts the plain filter, so that the choice cannot be seen.
     */
    method NextScan(proc: Process, v: Value, ctx: Context) returns (failed: bool)
      requires Valid() && v.Valid() && Ascending(results.Data())
      modifies this, prevResults, prevResults.data, ctx
      ensures Packs(v) && !Fragile(proc, v.Size()) ==> !failed
      ensures old(results.Data()) == [] ==> !failed
      ensures !failed ==>
                && Valid() && View() == NextStep(old(View()), results.Data()) && Ascending(results.Data())
                && (forall x :: x in results.Data() ==> x in old(results.Data()))
      ensures !ctx.done && old(results.Data()) != [] ==>
                var before := old(results.Data());
                if |before| > 32768 then
                  && (failed <==> DenseTooMany(proc, v, before))
                  && (!failed ==> results.Data() == DenseKept(proc, v, before))
                else
                  && (failed <==> SparseJams(proc, before, v.Size(), |before|))
                  && (!failed ==> results.Data() == SparseKept(proc.mem, v, before))
      ensures ctx.ended >= old(ctx.ended)
      ensures !failed && old(results.Data()) != [] ==>
                var before, k := old(results.Data()), ctx.ended - old(ctx.ended);
                if |before| > 32768 then DenseOutcome(proc, v, before, k, false, results.Data())
                else SparseOutcome(proc, v, before, k, results.Data())
      ensures !failed && !ctx.done && proc.failCount == 0 && Exact(v)
              && Settled(proc.mem, v, old(results.Data())) && AllAligned(v, old(results.Data()))
              ==> results.Data() == Filter(old(results.Data()), Held(proc.mem, v))
    {
      hide DenseTooManyBelow, DenseKept, SparseKept, Exact, Packs, AllAligned, DenseOutcome, SparseOutcome;
      ghost var before := results.Data();
      var count := results.cursor;
      if count == 0 {
        return false;
      }
      if count > NEXT_SCAN_SPARSE_THRESHOLD {
        failed := NextScanDense(proc, v, ctx);
        if proc.failCount == 0 && Exact(v) && AllAligned(v, before) {
          DenseIsFilter(proc, v, before);
        }
      } else {
        var outcome := NextScanSparse(proc, v, ctx);
        failed := !outcome.Finished?;
        KeptReported(proc.mem, v, before);
      }
    }
  }

  /** The answers of the first tasks only: ascending, and part of the results. */
  lemma PartialReport(mem: Memory, v: Value, results: seq<nat>, takens: seq<seq<nat>>, k: nat)
    requires v.Valid() && Ascending(results) && k <= |SparseParts(mem, v, results)|
    requires takens == SparseParts(mem, v, results)[..k]
    ensures Ascending(Flatten(takens)) && forall x :: x in Flatten(takens) ==> x in results
  {
    PartsReported(mem, v, results, k);
    hide SparseParts;
  }
}

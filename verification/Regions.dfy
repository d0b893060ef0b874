/** Merging small adjacent regions and splitting large ones before a first scan. */
module Regions {
  import opened Kernel
  import opened VirtualRegions

  const REGION_SMALL_SIZE: nat := PAGE_SIZE * 16

  datatype Region = Region(start: nat, end: nat, size: nat) {
    ghost predicate Contains(a: nat) {
      start <= a < end
    }
  }

  predicate Mergeable(curr: Region, next: Region) {
    curr.end == next.start && curr.size <= REGION_SMALL_SIZE && next.size <= REGION_SMALL_SIZE
  }

  ghost predicate Ordered(r: Region) {
    r.start <= r.end
  }

  ghost predicate AllOrdered(regions: seq<Region>) {
    forall i :: 0 <= i < |regions| ==> Ordered(regions[i])
  }

  ghost function Merged(curr: Region, next: Region): Region
    requires Ordered(curr) && Ordered(next) && Mergeable(curr, next)
  {
    Region(curr.start, next.end, next.end - curr.start)
  }

  /**
   Absorbs small neighbours into `curr`, which stands for the regions up to regions[i]: the merged region,
   where to go on, and whether it was emitted early.
   */
  ghost function MergeRun(regions: seq<Region>, i: nat, curr: Region): (r: (Region, nat, bool))
    requires i < |regions| && Ordered(curr) && AllOrdered(regions)
    ensures Ordered(r.0) && i < r.1 <= |regions|
    decreases |regions| - i
  {
    if i + 1 == |regions| || !Mergeable(curr, regions[i + 1]) then (curr, i + 1, false)
    else
      var c := Merged(curr, regions[i + 1]);
      if c.size >= REGION_LARGE_SIZE then (c, i + 2, true)
      else MergeRun(regions, i + 1, c)
  }

  /** Where a piece starting at `start` ends: a page boundary, or the region's end. */
  function NextCut(start: nat, end: nat): (cut: nat)
    requires start < end
    ensures start < cut <= end
    ensures cut <= start + REGION_LARGE_SIZE
    ensures cut < end ==> cut % PAGE_SIZE == 0
  {
    var nextEnd := start + REGION_LARGE_SIZE;
    if nextEnd < end then PageStart(nextEnd) else end
  }

  ghost function Pieces(start: nat, end: nat): seq<Region>
    decreases end - start
  {
    if start >= end then []
    else
      var cut := NextCut(start, end);
      [Region(start, cut, cut - start)] + Pieces(cut, end)
  }

  ghost function Split(r: Region): seq<Region> {
    if r.size > REGION_LARGE_SIZE then Pieces(r.start, r.end) else [r]
  }

  /** What becomes of regions[i..]. */
  ghost function Optimize(regions: seq<Region>, i: nat): seq<Region>
    requires AllOrdered(regions) && i <= |regions|
    decreases |regions| - i
  {
    if i == |regions| then []
    else
      var (curr, next, early) := MergeRun(regions, i, regions[i]);
      (if early then [curr] else Split(curr)) + Optimize(regions, next)
  }

  /** The split loop over one large region. */
  method SplitLarge(curr: Region) returns (pieces: seq<Region>)
    ensures pieces == Pieces(curr.start, curr.end)
  {
    pieces := [];
    var currentStart := curr.start;
    while currentStart < curr.end
      invariant pieces + Pieces(currentStart, curr.end) == Pieces(curr.start, curr.end)
      decreases curr.end - currentStart
    {
      var nextEnd := currentStart + REGION_LARGE_SIZE;
      if nextEnd < curr.end {
        nextEnd := PageStart(nextEnd);
        if nextEnd <= currentStart {
          nextEnd := currentStart + PAGE_SIZE;
        }
      } else {
        nextEnd := curr.end;
      }
      pieces := pieces + [Region(currentStart, nextEnd, nextEnd - currentStart)];
      currentStart := nextEnd;
    }
  }

  /** The merge loop from regions[first]. */
  method MergeSmall(regions: seq<Region>, first: nat) returns (curr: Region, next: nat, early: bool)
    requires first < |regions| && AllOrdered(regions)
    ensures (curr, next, early) == MergeRun(regions, first, regions[first])
  {
    curr := regions[first];
    var i := first;
    while i + 1 < |regions|
      invariant i < |regions| && Ordered(curr)
      invariant MergeRun(regions, i, curr) == MergeRun(regions, first, regions[first])
      decreases |regions| - i
    {
      if !Mergeable(curr, regions[i + 1]) {
        return curr, i + 1, false;
      }
      curr := Region(curr.start, regions[i + 1].end, regions[i + 1].end - curr.start);
      i := i + 1;
      if curr.size >= REGION_LARGE_SIZE {
        return curr, i + 1, true;
      }
    }
    return curr, i + 1, false;
  }

  method RegionsOptimize(regions: seq<Region>) returns (optimized: seq<Region>)
    requires AllOrdered(regions)
    ensures optimized == Optimize(regions, 0)
  {
    optimized := [];
    var i := 0;
    while i < |regions|
      invariant i <= |regions|
      invariant optimized + Optimize(regions, i) == Optimize(regions, 0)
      decreases |regions| - i
    {
      hide MergeRun, Optimize, Pieces, AllOrdered;
      var curr, next, early := MergeSmall(regions, i);
      ghost var before := optimized;
      if early {
        optimized := optimized + [curr];
      } else if curr.size > REGION_LARGE_SIZE {
        var pieces := SplitLarge(curr);
        optimized := optimized + pieces;
      } else {
        optimized := optimized + [curr];
      }
      OptimizeStep(regions, i, before);
      i := next;
    }
  }

  lemma OptimizeStep(regions: seq<Region>, i: nat, before: seq<Region>)
    requires i < |regions| && AllOrdered(regions)
    ensures var (curr, next, early) := MergeRun(regions, i, regions[i]);
            i < next <= |regions|
            && before + (if early then [curr] else Split(curr)) + Optimize(regions, next)
                == before + Optimize(regions, i)
  {
    var (curr, next, early) := MergeRun(regions, i, regions[i]);
    var piece, tail := if early then [curr] else Split(curr), Optimize(regions, next);
    assert Optimize(regions, i) == piece + tail;
    hide *;
    assert before + piece + tail == before + (piece + tail);
  }

  /** What the maps listing delivers: page-aligned, ascending, disjoint, with true sizes. */
  ghost predicate Sane(r: Region) {
    r.start <= r.end && r.size == r.end - r.start && r.start % PAGE_SIZE == 0 && r.end % PAGE_SIZE == 0
  }

  ghost predicate Listing(regions: seq<Region>) {
    && (forall x :: x in regions ==> Sane(x))
    && (forall i, j :: 0 <= i < j < |regions| ==> regions[i].end <= regions[j].start)
  }

  /** Some region of regions[i..] contains `a`. */
  ghost predicate Covers(regions: seq<Region>, i: nat, a: nat) {
    exists j :: i <= j < |regions| && regions[j].Contains(a)
  }

  /** The bytes of regions[i..]. */
  ghost function TotalSize(regions: seq<Region>, i: nat): nat
    requires i <= |regions|
    decreases |regions| - i
  {
    if i == |regions| then 0 else regions[i].size + TotalSize(regions, i + 1)
  }

  /**
   `part` is a subdivision of [start, end): sane pieces of at most the large size, each starting where the
   one before ends.
   */
  ghost predicate Tiles(part: seq<Region>, start: nat, end: nat) {
    && (forall i :: 0 <= i < |part| ==> Sane(part[i]) && part[i].size <= REGION_LARGE_SIZE)
    && (if part == [] then start == end
        else part[0].start == start && part[|part| - 1].end == end)
    && (forall i :: 1 <= i < |part| ==> part[i - 1].end == part[i].start)
  }

  lemma {:induction false} PiecesTile(start: nat, end: nat)
    requires start <= end && start % PAGE_SIZE == 0 && end % PAGE_SIZE == 0
    ensures Tiles(Pieces(start, end), start, end)
    decreases end - start
  {
    if start < end {
      PiecesTile(NextCut(start, end), end);
    }
  }

  /** regions[i..next) is a contiguous run from `start` to `end`. */
  ghost predicate Contiguous(regions: seq<Region>, i: nat, next: nat, start: nat, end: nat) {
    && i < next <= |regions|
    && regions[i].start == start && regions[next - 1].end == end
    && (forall j :: i < j < next ==> regions[j - 1].end == regions[j].start)
  }

  /**
   Merging never gets near the large size, so the early emission is dead: what is merged is a contiguous run,
   and only regions of at most the small size are ever added to one of at most the small size.
   */
  lemma {:induction false} MergeStaysSmall(regions: seq<Region>, first: nat, i: nat, curr: Region)
    requires Listing(regions) && first <= i < |regions| && Sane(curr)
    requires Contiguous(regions, first, i + 1, curr.start, curr.end)
    requires i > first ==> curr.size <= 2 * REGION_SMALL_SIZE
    ensures AllOrdered(regions)
    ensures var (c, next, early) := MergeRun(regions, i, curr);
            && !early && Sane(c) && Contiguous(regions, first, next, c.start, c.end)
            && (next > first + 1 ==> c.size <= 2 * REGION_SMALL_SIZE)
    decreases |regions| - i
  {
    ListingOrdered(regions);
    if i + 1 < |regions| && Mergeable(curr, regions[i + 1]) {
      assert Sane(regions[i + 1]) by { assert regions[i + 1] in regions; }
      ExtendRun(regions, first, i, curr);
      hide Contiguous, Listing, AllOrdered;
      MergeStaysSmall(regions, first, i + 1, Merged(curr, regions[i + 1]));
    }
  }

  lemma ListingOrdered(regions: seq<Region>)
    requires Listing(regions)
    ensures AllOrdered(regions)
  {
    assert forall k :: 0 <= k < |regions| ==> regions[k] in regions;
  }

  lemma ExtendRun(regions: seq<Region>, first: nat, i: nat, curr: Region)
    requires i + 1 < |regions| && first <= i && Contiguous(regions, first, i + 1, curr.start, curr.end)
    requires Mergeable(curr, regions[i + 1])
    ensures Contiguous(regions, first, i + 2, curr.start, regions[i + 1].end)
  {
  }

  /** The optimized list of regions[i..]: sane, ascending, bounded pieces that begin no earlier than regions[i]. */
  ghost predicate Planned(regions: seq<Region>, i: nat, plan: seq<Region>)
    requires i <= |regions|
  {
    && Listing(plan)
    && (forall x :: x in plan ==> x.size <= REGION_LARGE_SIZE)
    && (forall x :: x in plan ==> i < |regions| && regions[i].start <= x.start)
  }

  lemma SplitTiles(c: Region)
    requires Sane(c)
    ensures Tiles(Split(c), c.start, c.end)
  {
    if c.size > REGION_LARGE_SIZE {
      PiecesTile(c.start, c.end);
    }
  }

  /** Tiles of one interval followed by a plan that begins at or after its end. */
  lemma TilesThenPlan(part: seq<Region>, start: nat, end: nat, plan: seq<Region>)
    requires Tiles(part, start, end) && Listing(plan)
    requires forall x :: x in plan ==> end <= x.start
    ensures Listing(part + plan)
    ensures forall x :: x in part ==> start <= x.start
  {
    TilesAscend(part, start, end);
    var whole := part + plan;
    forall x | x in whole ensures Sane(x) {
      assert x in part || x in plan;
    }
    forall i, j | 0 <= i < j < |whole| ensures whole[i].end <= whole[j].start {
      if j >= |part| {
        assert whole[j] in plan;
      }
    }
  }

  lemma {:induction false} TilesAscend(part: seq<Region>, start: nat, end: nat)
    requires Tiles(part, start, end)
    ensures start <= end
    ensures forall i :: 0 <= i < |part| ==> start <= part[i].start <= part[i].end <= end
    ensures forall i, j :: 0 <= i < j < |part| ==> part[i].end <= part[j].start
  {
    if |part| > 1 {
      var last := |part| - 1;
      TilesAscend(part[..last], start, part[last].start);
    }
  }

  /** Optimizing keeps the list sane, ascending and disjoint, and bounds every region by the large size. */
  lemma {:induction false} OptimizePlans(regions: seq<Region>, i: nat)
    requires Listing(regions) && i <= |regions|
    ensures AllOrdered(regions)
    ensures Planned(regions, i, Optimize(regions, i))
    decreases |regions| - i
  {
    ListingOrdered(regions);
    if i < |regions| {
      assert Sane(regions[i]) by { assert regions[i] in regions; }
      MergeStaysSmall(regions, i, i, regions[i]);
      var (c, next, early) := MergeRun(regions, i, regions[i]);
      OptimizePlans(regions, next);
      SplitTiles(c);
      TilesThenPlan(Split(c), c.start, c.end, Optimize(regions, next));
    }
  }

  lemma {:induction false} TilesCover(part: seq<Region>, start: nat, end: nat, a: nat)
    requires Tiles(part, start, end)
    ensures Covers(part, 0, a) <==> start <= a < end
  {
    TilesAscend(part, start, end);
    if |part| > 1 {
      var last := |part| - 1;
      TilesCover(part[..last], start, part[last].start, a);
      if start <= a < end {
        if a < part[last].start {
          var j :| 0 <= j < last && part[..last][j].Contains(a);
          assert part[j].Contains(a);
        } else {
          assert part[last].Contains(a);
        }
      }
    } else if |part| == 1 {
      assert part[0].Contains(a) <==> start <= a < end;
    }
  }

  lemma {:induction false} RunCovers(regions: seq<Region>, i: nat, next: nat, start: nat, end: nat, a: nat)
    requires Listing(regions) && Contiguous(regions, i, next, start, end)
    ensures start <= end
    ensures (exists j :: i <= j < next && regions[j].Contains(a)) <==> start <= a < end
    decreases next - i
  {
    assert Sane(regions[i]) by { assert regions[i] in regions; }
    if i + 1 < next {
      RunCovers(regions, i + 1, next, regions[i + 1].start, end, a);
    }
    if start <= a < regions[i].end {
      assert regions[i].Contains(a);
    }
  }

  /** Optimizing covers exactly the bytes of the listing. */
  lemma {:induction false} OptimizeCovers(regions: seq<Region>, i: nat, a: nat)
    requires Listing(regions) && i <= |regions|
    ensures AllOrdered(regions)
    ensures Covers(Optimize(regions, i), 0, a) <==> Covers(regions, i, a)
    decreases |regions| - i
  {
    ListingOrdered(regions);
    if i < |regions| {
      assert Sane(regions[i]) by { assert regions[i] in regions; }
      MergeStaysSmall(regions, i, i, regions[i]);
      var (c, next, early) := MergeRun(regions, i, regions[i]);
      OptimizeCovers(regions, next, a);
      SplitTiles(c);
      TilesCover(Split(c), c.start, c.end, a);
      RunCovers(regions, i, next, c.start, c.end, a);
      CoversConcat(Split(c), Optimize(regions, next), a);
      CoversFrom(regions, i, next, a);
    }
  }

  lemma CoversConcat(p: seq<Region>, q: seq<Region>, a: nat)
    ensures Covers(p + q, 0, a) <==> Covers(p, 0, a) || Covers(q, 0, a)
  {
    if Covers(p, 0, a) {
      var j :| 0 <= j < |p| && p[j].Contains(a);
      assert (p + q)[j].Contains(a);
    }
    if Covers(q, 0, a) {
      var j :| 0 <= j < |q| && q[j].Contains(a);
      assert (p + q)[|p| + j].Contains(a);
    }
  }

  lemma CoversFrom(regions: seq<Region>, i: nat, next: nat, a: nat)
    requires i <= next <= |regions|
    ensures Covers(regions, i, a) <==> (exists j :: i <= j < next && regions[j].Contains(a)) || Covers(regions, next, a)
  {
  }

  lemma {:induction false} TotalConcat(p: seq<Region>, q: seq<Region>, i: nat)
    requires i <= |p|
    ensures TotalSize(p + q, i) == TotalSize(p, i) + TotalSize(q, 0)
    decreases |p| - i
  {
    if i < |p| {
      TotalConcat(p, q, i + 1);
    } else {
      TotalShift(p, q, 0);
    }
  }

  lemma {:induction false} TotalShift(p: seq<Region>, q: seq<Region>, i: nat)
    requires i <= |q|
    ensures TotalSize(p + q, |p| + i) == TotalSize(q, i)
    decreases |q| - i
  {
    if i < |q| {
      TotalShift(p, q, i + 1);
    }
  }

  lemma {:induction false} TilesTotal(part: seq<Region>, start: nat, end: nat, i: nat)
    requires Tiles(part, start, end) && i <= |part|
    ensures TotalSize(part, i) == end - (if i < |part| then part[i].start else end)
    decreases |part| - i
  {
    if i < |part| {
      TilesTotal(part, start, end, i + 1);
    }
  }

  lemma {:induction false} RunTotal(regions: seq<Region>, i: nat, next: nat, start: nat, end: nat)
    requires Listing(regions) && Contiguous(regions, i, next, start, end)
    ensures TotalSize(regions, i) == end - start + TotalSize(regions, next)
    decreases next - i
  {
    assert Sane(regions[i]) by { assert regions[i] in regions; }
    hide Listing;
    if i + 1 < next {
      RunTotal(regions, i + 1, next, regions[i + 1].start, end);
    }
  }

  /** Optimizing conserves the number of bytes. */
  lemma {:induction false} OptimizeConserves(regions: seq<Region>, i: nat)
    requires Listing(regions) && i <= |regions|
    ensures AllOrdered(regions)
    ensures TotalSize(Optimize(regions, i), 0) == TotalSize(regions, i)
    decreases |regions| - i
  {
    ListingOrdered(regions);
    if i < |regions| {
      assert Sane(regions[i]) by { assert regions[i] in regions; }
      MergeStaysSmall(regions, i, i, regions[i]);
      var (c, next, early) := MergeRun(regions, i, regions[i]);
      OptimizeConserves(regions, next);
      SplitTiles(c);
      TilesTotal(Split(c), c.start, c.end, 0);
      RunTotal(regions, i, next, c.start, c.end);
      TotalConcat(Split(c), Optimize(regions, next), 0);
    }
  }

  /** The plan of a sane listing: what RegionsOptimize makes of it. */
  ghost function Plan(regions: seq<Region>): (plan: seq<Region>)
    requires Listing(regions)
    ensures Listing(plan) && AllOrdered(plan)
  {
    OptimizePlans(regions, 0);
    ListingOrdered(Optimize(regions, 0));
    Optimize(regions, 0)
  }
}

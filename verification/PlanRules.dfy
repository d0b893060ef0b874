/** Which listed regions planning merges and where it cuts, in terms of the listing and the plan alone. */
module PlanRules {
  import opened Kernel
  import opened VirtualRegions
  import opened Regions

  /** The parser delivers no empty regions. */
  ghost predicate NonEmpty(regions: seq<Region>) {
    forall i :: 0 <= i < |regions| ==> regions[i].start < regions[i].end
  }

  function Bytes(r: Region): int {
    r.end - r.start
  }

  /**
   No more is merged than may be: where a listed boundary behind regions[i..] lies inside a planned piece, the
   piece holds the whole listed region in front of it, it had at most 65536 bytes up to there, and at most 65536
   are added.
   */
  ghost predicate MergesSmall(plan: seq<Region>, regions: seq<Region>, i: nat) {
    forall j, k, n | 0 <= j < |plan| && i <= k && n == k + 1 && n < |regions|
                     && regions[k].end == regions[n].start && plan[j].start < regions[k].end < plan[j].end ::
      plan[j].start <= regions[k].start && regions[k].end - plan[j].start <= 65536 && Bytes(regions[n]) <= 65536
  }

  /**
   All that may be merged is: where two planned pieces meet at a listed boundary, the piece in front, the listed
   region in front or the one behind is larger than 65536 bytes.
   */
  ghost predicate MergesAll(plan: seq<Region>, regions: seq<Region>, i: nat) {
    forall j, m, k, n | 0 <= j && m == j + 1 && m < |plan| && i <= k && n == k + 1 && n < |regions|
                        && plan[j].end == regions[k].end == regions[n].start == plan[m].start ::
      Bytes(plan[j]) > 65536 || Bytes(regions[k]) > 65536 || Bytes(regions[n]) > 65536
  }

  /**
   Every other end of a piece is a cut through a listed region larger than 2097152 bytes, exactly that far behind
   the start of its piece, and the next piece begins there.
   */
  ghost predicate CutsLarge(plan: seq<Region>, regions: seq<Region>, i: nat) {
    forall j, k | 0 <= j < |plan| && i <= k < |regions| && regions[k].start < plan[j].end < regions[k].end ::
      && Bytes(plan[j]) == 2097152 && Bytes(regions[k]) > 2097152 && regions[k].start <= plan[j].start
      && j + 1 < |plan| && plan[j + 1].start == plan[j].end
  }

  /** One merged run: regions[i..next) contiguous, all merges small, and no further one possible. */
  ghost predicate RunOf(regions: seq<Region>, i: nat, next: nat, c: Region) {
    && i < next <= |regions| && Sane(c) && c.start == regions[i].start && c.end == regions[next - 1].end
    && (next == i + 1 || Bytes(c) <= 2 * 65536)
    && SmallSoFar(regions, i, next, c)
    && (next < |regions| && c.end == regions[next].start ==> Bytes(c) > 65536 || Bytes(regions[next]) > 65536)
  }

  /** What MergeRun makes of the rest of a run that stands at regions[i]. */
  lemma {:induction false} RunExtends(regions: seq<Region>, first: nat, i: nat, curr: Region)
    requires Listing(regions) && AllOrdered(regions) && first <= i < |regions|
    requires Sane(curr) && curr.start == regions[first].start && curr.end == regions[i].end
    requires i == first || Bytes(curr) <= 2 * 65536
    requires SmallSoFar(regions, first, i + 1, curr)
    ensures var (c, next, early) := MergeRun(regions, i, curr); !early && RunOf(regions, first, next, c)
    decreases |regions| - i
  {
    var n := i + 1;
    assert REGION_SMALL_SIZE == 65536 && REGION_LARGE_SIZE == 2097152;
    if n == |regions| {
      assert MergeRun(regions, i, curr) == (curr, n, false);
      RunStops(regions, first, i, n, curr);
      return;
    }
    assert Sane(regions[n]) by { assert regions[n] in regions; }
    assert regions[i].end <= regions[n].start;
    if Mergeable(curr, regions[n]) {
      var c := Merged(curr, regions[n]);
      assert MergeRun(regions, i, curr) == MergeRun(regions, n, c);
      SmallMore(regions, first, i, n, curr, c);
      hide MergeRun, SmallSoFar, Mergeable;
      RunExtends(regions, first, n, c);
    } else {
      assert MergeRun(regions, i, curr) == (curr, n, false);
      RunStops(regions, first, i, n, curr);
    }
  }

  /** The regions from `first` to regions[i] are merged as far as they may be. */
  ghost predicate SmallSoFar(regions: seq<Region>, first: nat, next: nat, c: Region)
    requires next <= |regions|
  {
    forall k, n | first <= k && n == k + 1 && n < next ::
      regions[k].end == regions[n].start && regions[k].end - c.start <= 65536 && Bytes(regions[n]) <= 65536
  }

  lemma SmallMore(regions: seq<Region>, first: nat, i: nat, n: nat, curr: Region, c: Region)
    requires first <= i && n == i + 1 && n < |regions| && SmallSoFar(regions, first, n, curr)
    requires c.start == curr.start && curr.end == regions[i].end == regions[n].start
    requires Bytes(curr) <= 65536 && Bytes(regions[n]) <= 65536
    ensures SmallSoFar(regions, first, n + 1, c)
  {
    forall k, m | first <= k && m == k + 1 && m < n + 1
      ensures regions[k].end == regions[m].start && regions[k].end - c.start <= 65536 && Bytes(regions[m]) <= 65536
    {
      if m == n {
        assert k == i;
      } else {
        assert m < n && regions[k].end == regions[m].start;
      }
    }
    assert SmallSoFar(regions, first, n + 1, c);
  }

  lemma RunStops(regions: seq<Region>, first: nat, i: nat, next: nat, c: Region)
    requires first <= i && next == i + 1 <= |regions| && Sane(c)
    requires c.start == regions[first].start && c.end == regions[i].end
    requires i == first || Bytes(c) <= 2 * 65536
    requires SmallSoFar(regions, first, next, c)
    requires next < |regions| && c.end == regions[next].start ==> Bytes(c) > 65536 || Bytes(regions[next]) > 65536
    ensures RunOf(regions, first, next, c)
  {
    hide SmallSoFar;
  }

  /** The run that planning starts at regions[i]. */
  lemma RunAt(regions: seq<Region>, i: nat)
    requires Listing(regions) && AllOrdered(regions) && i < |regions|
    ensures var (c, next, early) := MergeRun(regions, i, regions[i]); !early && RunOf(regions, i, next, c)
  {
    assert Sane(regions[i]) by { assert regions[i] in regions; }
    RunExtends(regions, i, i, regions[i]);
  }

  /** Piece `j` is followed by another exactly where it ends, one large size behind its start. */
  ghost predicate EvenAt(part: seq<Region>, j: nat, end: nat)
    requires j < |part|
  {
    j + 1 < |part| ==> Bytes(part[j]) == 2097152 && part[j].end == part[j + 1].start && part[j].end < end
  }

  /** The pieces of a large region: all but the last exactly one large size. */
  ghost predicate CutEvenly(part: seq<Region>, start: nat, end: nat) {
    && part != [] && part[0].start == start && part[|part| - 1].end == end
    && (forall j :: 0 <= j < |part| ==> start <= part[j].start < part[j].end <= end)
    && (forall j :: 0 <= j < |part| ==> EvenAt(part, j, end))
  }

  lemma {:induction false} PiecesEven(start: nat, end: nat)
    requires start < end && start % PAGE_SIZE == 0
    ensures CutEvenly(Pieces(start, end), start, end)
    decreases end - start
  {
    var cut := NextCut(start, end);
    var first := Region(start, cut, cut - start);
    assert Pieces(start, end) == [first] + Pieces(cut, end);
    if cut < end {
      CutAt(start, end);
      hide CutEvenly, Pieces, NextCut;
      PiecesEven(cut, end);
      EvenMore(first, Pieces(cut, end), end);
    } else {
      assert Pieces(end, end) == [];
    }
  }

  lemma CutAt(start: nat, end: nat)
    requires start % PAGE_SIZE == 0 && start < end && NextCut(start, end) < end
    ensures NextCut(start, end) == start + 2097152
  {
    LargeSizeIs(start);
  }

  lemma EvenMore(first: Region, rest: seq<Region>, end: nat)
    requires first.start < first.end < end && Bytes(first) == 2097152 && CutEvenly(rest, first.end, end)
    ensures CutEvenly([first] + rest, first.start, end)
  {
    var part := [first] + rest;
    forall j | 0 <= j < |part|
      ensures first.start <= part[j].start < part[j].end <= end && EvenAt(part, j, end)
    {
      if j > 0 {
        var a := j - 1;
        assert part[j] == rest[a] && EvenAt(rest, a, end);
        assert j + 1 < |part| ==> part[j + 1] == rest[a + 1];
      }
    }
    assert part[|part| - 1] == rest[|rest| - 1];
  }

  lemma LargeSizeIs(start: nat)
    requires start % PAGE_SIZE == 0
    ensures PageStart(start + REGION_LARGE_SIZE) == start + 2097152 && REGION_LARGE_SIZE == 2097152
  {
  }

  /** What becomes of one run: the run itself, or a large listed region in even pieces. */
  lemma SplitOf(regions: seq<Region>, i: nat, next: nat, c: Region)
    requires RunOf(regions, i, next, c) && c.start < c.end
    ensures CutEvenly(Split(c), c.start, c.end)
    ensures Bytes(c) <= 2097152 ==> Split(c) == [c]
    ensures Bytes(c) > 2097152 ==> next == i + 1
  {
    LargeSizeIs(c.start);
    if c.size > REGION_LARGE_SIZE {
      PiecesEven(c.start, c.end);
    }
  }

  lemma RunEnds(regions: seq<Region>, i: nat, next: nat, c: Region)
    requires RunOf(regions, i, next, c)
    ensures i < next <= |regions| && c.start == regions[i].start && c.end == regions[next - 1].end
  {
  }

  /** The rest of the plan: nonempty pieces at or behind `from`. */
  ghost predicate Behind(rest: seq<Region>, from: nat) {
    forall j :: 0 <= j < |rest| ==> from <= rest[j].start < rest[j].end
  }

  /** All three rules together. */
  ghost predicate Rules(plan: seq<Region>, regions: seq<Region>, i: nat) {
    MergesSmall(plan, regions, i) && MergesAll(plan, regions, i) && CutsLarge(plan, regions, i)
  }

  /** The listed regions up to regions[next - 1] end at or before `end`, the others begin there or behind. */
  lemma ListedSides(regions: seq<Region>, next: nat, end: nat, k: nat)
    requires Listing(regions) && NonEmpty(regions) && 0 < next <= |regions| && k < |regions|
    requires end == regions[next - 1].end
    ensures k < next ==> regions[k].end <= end
    ensures k < next - 1 ==> regions[k].end < end
    ensures k >= next ==> end <= regions[k].start && end < regions[k].end
  {
  }

  lemma SmallStep(part: seq<Region>, rest: seq<Region>, regions: seq<Region>, i: nat, next: nat, c: Region)
    requires Listing(regions) && NonEmpty(regions) && RunOf(regions, i, next, c) && c.start < c.end
    requires part == Split(c) && Behind(rest, c.end) && MergesSmall(rest, regions, next)
    ensures MergesSmall(part + rest, regions, i)
  {
    assert regions[i].start < regions[i].end;
    hide Split, Listing, NonEmpty;
    SplitOf(regions, i, next, c);
    var plan := part + rest;
    forall j, k, n | 0 <= j < |plan| && i <= k && n == k + 1 && n < |regions|
                     && regions[k].end == regions[n].start && plan[j].start < regions[k].end < plan[j].end
      ensures plan[j].start <= regions[k].start && regions[k].end - plan[j].start <= 65536 && Bytes(regions[n]) <= 65536
    {
      ListedSides(regions, next, c.end, k);
      ListedSides(regions, i + 1, regions[i].end, k);
      if j >= |part| {
        assert plan[j] == rest[j - |part|];
      } else {
        assert n < next;
      }
    }
  }

  /** A cut through a large listed region is no listed end. */
  lemma CutNotListed(part: seq<Region>, regions: seq<Region>, i: nat, next: nat, c: Region, j: nat, k: nat)
    requires Listing(regions) && NonEmpty(regions) && RunOf(regions, i, next, c) && c.start < c.end
    requires part == Split(c) && j + 1 < |part| && i <= k < |regions|
    ensures regions[k].end != part[j].end
  {
    hide Split, SmallSoFar, Listing, NonEmpty;
    SplitOf(regions, i, next, c);
    assert EvenAt(part, j, c.end);
    ListedSides(regions, next, c.end, k);
  }

  lemma AllStep(part: seq<Region>, rest: seq<Region>, regions: seq<Region>, i: nat, next: nat, c: Region)
    requires Listing(regions) && NonEmpty(regions) && RunOf(regions, i, next, c) && c.start < c.end
    requires part == Split(c) && Behind(rest, c.end) && MergesAll(rest, regions, next)
    ensures MergesAll(part + rest, regions, i)
  {
    hide Split, SmallSoFar, Listing, NonEmpty;
    SplitOf(regions, i, next, c);
    var plan := part + rest;
    forall j, m, k, n | 0 <= j && m == j + 1 && m < |plan| && i <= k && n == k + 1 && n < |regions|
                        && plan[j].end == regions[k].end == regions[n].start == plan[m].start
      ensures Bytes(plan[j]) > 65536 || Bytes(regions[k]) > 65536 || Bytes(regions[n]) > 65536
    {
      ListedSides(regions, next, c.end, k);
      if j >= |part| {
        assert plan[j] == rest[j - |part|] && plan[m] == rest[m - |part|];
      } else if m < |part| {
        CutNotListed(part, regions, i, next, c, j, k);
        assert false;
      } else {
        assert plan[j] == part[|part| - 1] && k == next - 1;
      }
    }
  }

  lemma CutStep(part: seq<Region>, rest: seq<Region>, regions: seq<Region>, i: nat, next: nat, c: Region)
    requires Listing(regions) && NonEmpty(regions) && RunOf(regions, i, next, c) && c.start < c.end
    requires part == Split(c) && Behind(rest, c.end) && CutsLarge(rest, regions, next)
    ensures CutsLarge(part + rest, regions, i)
  {
    hide Split, RunOf;
    SplitOf(regions, i, next, c);
    RunEnds(regions, i, next, c);
    var plan := part + rest;
    forall j, k | 0 <= j < |plan| && i <= k < |regions| && regions[k].start < plan[j].end < regions[k].end
      ensures Bytes(plan[j]) == 2097152 && Bytes(regions[k]) > 2097152 && regions[k].start <= plan[j].start
      ensures j + 1 < |plan| && plan[j + 1].start == plan[j].end
    {
      ListedSides(regions, next, c.end, k);
      hide Listing, NonEmpty;
      if j >= |part| {
        assert plan[j] == rest[j - |part|];
        assert j + 1 < |plan| ==> plan[j + 1] == rest[j - |part| + 1];
      } else {
        assert EvenAt(part, j, c.end);
        assert plan[j] == part[j];
        assert j + 1 < |part|;
        assert plan[j + 1] == part[j + 1];
        assert k == i;
      }
    }
  }

  lemma {:induction false} OptimizeRules(regions: seq<Region>, i: nat)
    requires Listing(regions) && AllOrdered(regions) && NonEmpty(regions) && i <= |regions|
    ensures Rules(Optimize(regions, i), regions, i)
    ensures i < |regions| ==> Behind(Optimize(regions, i), regions[i].start)
    ensures i == |regions| ==> Optimize(regions, i) == []
    decreases |regions| - i
  {
    if i < |regions| {
      RunAt(regions, i);
      var (c, next, early) := MergeRun(regions, i, regions[i]);
      OptimizeRules(regions, next);
      RunNonEmpty(regions, i, next, c);
      var part, rest := Split(c), Optimize(regions, next);
      assert Optimize(regions, i) == part + rest;
      RestBehind(regions, next, c.end, rest);
      hide MergeRun, Optimize, Split, Listing, NonEmpty, AllOrdered, MergesSmall, MergesAll, CutsLarge;
      SmallStep(part, rest, regions, i, next, c);
      AllStep(part, rest, regions, i, next, c);
      CutStep(part, rest, regions, i, next, c);
      SplitOf(regions, i, next, c);
      BehindBoth(part, rest, c.start, c.end);
    }
  }

  lemma RunNonEmpty(regions: seq<Region>, i: nat, next: nat, c: Region)
    requires Listing(regions) && NonEmpty(regions) && RunOf(regions, i, next, c)
    ensures c.start < c.end
  {
    ListedSides(regions, next, c.end, i);
  }

  lemma RestBehind(regions: seq<Region>, next: nat, end: nat, rest: seq<Region>)
    requires Listing(regions) && NonEmpty(regions) && 0 < next <= |regions| && end == regions[next - 1].end
    requires next < |regions| ==> Behind(rest, regions[next].start)
    requires next == |regions| ==> rest == []
    ensures Behind(rest, end)
  {
    if next < |regions| {
      ListedSides(regions, next, end, next);
    }
  }

  lemma BehindBoth(part: seq<Region>, rest: seq<Region>, start: nat, end: nat)
    requires CutEvenly(part, start, end) && Behind(rest, end) && start <= end
    ensures Behind(part + rest, start)
  {
  }

  /**
   What the plan of a listing merges and cuts: it merges adjacent small regions wherever the rule allows and
   nowhere else, and cuts large ones evenly.
   */
  lemma PlanMergesAndCuts(regions: seq<Region>)
    requires Listing(regions) && NonEmpty(regions)
    ensures MergesSmall(Plan(regions), regions, 0)
    ensures MergesAll(Plan(regions), regions, 0)
    ensures CutsLarge(Plan(regions), regions, 0)
    ensures forall j :: 0 <= j < |Plan(regions)| ==> Bytes(Plan(regions)[j]) <= 2097152
  {
    ListingOrdered(regions);
    OptimizeRules(regions, 0);
    OptimizePlans(regions, 0);
    LargeSizeIs(0);
    forall j | 0 <= j < |Plan(regions)| ensures Bytes(Plan(regions)[j]) <= 2097152 {
      assert Plan(regions)[j] in Plan(regions);
    }
  }
}

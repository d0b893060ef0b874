/** What a first scan finds over its planned regions, and when planning keeps the answer. */
module PlannedScans {
  import opened Kernel
  import opened Values
  import opened Sequences
  import opened Streams
  import opened Scanners
  import opened ScanTasks
  import opened ScanMeaning
  import opened VirtualRegions
  import opened Regions
  import opened Session

  ghost predicate AllReadable(mem: Memory, regions: seq<Region>) {
    forall a :: Covers(regions, 0, a) ==> mem.Readable(a)
  }

  /**
   The place lies in the region, everything from the region's start through it can be read, and nothing is cut off.
   */
  ghost predicate FoundIn(proc: Process, v: Value, r: Region, x: nat)
    requires v.Valid() && Ordered(r)
  {
    && r.start <= x && x + v.Size() <= r.end
    && proc.mem.ReadableRange(r.start, x - r.start + v.Size())
    && !FirstCutOff(proc, v, r.start, r.end - r.start, x)
  }

  lemma InFirstAnswer(proc: Process, v: Value, start: nat, size: nat, x: nat)
    requires v.Valid()
    ensures x in FirstAnswer(proc, v, start, size) <==> start <= x < start + size && Hit(proc, v, start, size, 0, x)
  {
    hide Hit;
    var p := (x: nat) => Hit(proc, v, start, size, 0, x);
    assert FirstAnswer(proc, v, start, size) == Filter(Interval(start, start + size), p);
    hide FirstAnswer, Filter, Interval;
  }

  /** A region answers with exactly the places it finds. */
  lemma RegionAnswered(proc: Process, v: Value, r: Region, x: nat)
    requires v.Valid() && Exact(v) && Sane(r)
    ensures x in FirstAnswer(proc, v, r.start, r.end - r.start) <==>
              AlignedHeldAt(proc.mem, v, x) && FoundIn(proc, v, r, x)
  {
    hide AlignedHeldAt, Hit, FirstAnswer, Exact, FirstCutOff, Memory.ReadableRange;
    InFirstAnswer(proc, v, r.start, r.end - r.start, x);
    if Hit(proc, v, r.start, r.end - r.start, 0, x) {
      HitInside(proc, v, r.start, r.end - r.start, 0, x);
    }
    if r.start <= x && x + v.Size() <= r.end {
      FirstFindsUnlessCut(proc, v, r.start, r.end - r.start, x);
    }
  }

  lemma PartOf(proc: Process, v: Value, plan: seq<Region>, i: nat)
    requires v.Valid() && Listing(plan) && AllOrdered(plan) && i < |plan|
    ensures Sane(plan[i])
              && FirstParts(proc, v, plan)[i] == FirstAnswer(proc, v, plan[i].start, plan[i].end - plan[i].start)
  {
    assert plan[i] in plan;
  }

  /**
   The exact answer over any regions and any pattern of unreadable pages, for values that cannot overlap
   themselves: the places that hold the value and are found in some region.
   */
  lemma PlannedPlaces(proc: Process, v: Value, plan: seq<Region>, x: nat)
    requires v.Valid() && Exact(v) && Listing(plan) && AllOrdered(plan)
    ensures x in Flatten(FirstParts(proc, v, plan)) <==>
            AlignedHeldAt(proc.mem, v, x) && exists i :: 0 <= i < |plan| && FoundIn(proc, v, plan[i], x)
  {
    var parts := FirstParts(proc, v, plan);
    hide Exact, AlignedHeldAt, FoundIn, FirstParts, Listing, AllOrdered, FirstAnswer;
    forall i | 0 <= i < |plan|
      ensures x in parts[i] <==> AlignedHeldAt(proc.mem, v, x) && FoundIn(proc, v, plan[i], x)
    {
      PartPlaces(proc, v, plan, i, x);
    }
    assert x in Flatten(parts) <==> exists i :: 0 <= i < |parts| && x in parts[i];
    hide Flatten;
  }

  lemma PartPlaces(proc: Process, v: Value, plan: seq<Region>, i: nat, x: nat)
    requires v.Valid() && Exact(v) && Listing(plan) && AllOrdered(plan) && i < |plan|
    ensures x in FirstParts(proc, v, plan)[i] <==> AlignedHeldAt(proc.mem, v, x) && FoundIn(proc, v, plan[i], x)
  {
    hide Exact, AlignedHeldAt, FoundIn, FirstParts, Listing, FirstAnswer;
    PartOf(proc, v, plan, i);
    RegionAnswered(proc, v, plan[i], x);
  }

  /** Some region holds the value at `x` entirely. */
  ghost predicate LiesWithin(plan: seq<Region>, size: nat, x: nat) {
    exists i :: 0 <= i < |plan| && plan[i].start <= x && x + size <= plan[i].end
  }

  /** A readable planned region is readable throughout. */
  lemma RegionReadable(mem: Memory, plan: seq<Region>, i: nat)
    requires AllReadable(mem, plan) && i < |plan| && Ordered(plan[i])
    ensures mem.ReadableRange(plan[i].start, plan[i].end - plan[i].start)
  {
    forall a | plan[i].start <= a < plan[i].end ensures mem.Readable(a) {
      assert plan[i].Contains(a);
      assert Covers(plan, 0, a);
    }
  }

  lemma FoundWhenReadable(proc: Process, v: Value, r: Region, x: nat)
    requires v.Valid() && Ordered(r) && proc.mem.ReadableRange(r.start, r.end - r.start)
    ensures FoundIn(proc, v, r, x) <==> r.start <= x && x + v.Size() <= r.end
  {
  }

  /** Over readable regions: the places that hold the value and lie entirely within some region. */
  lemma ReadablePlaces(proc: Process, v: Value, plan: seq<Region>, x: nat)
    requires v.Valid() && Exact(v) && Listing(plan) && AllOrdered(plan) && AllReadable(proc.mem, plan)
    ensures x in Flatten(FirstParts(proc, v, plan)) <==> AlignedHeldAt(proc.mem, v, x) && LiesWithin(plan, v.Size(), x)
  {
    hide Exact, AlignedHeldAt, FoundIn, FirstParts, Listing, Memory.ReadableRange;
    PlannedPlaces(proc, v, plan, x);
    forall i | 0 <= i < |plan|
      ensures FoundIn(proc, v, plan[i], x) <==> plan[i].start <= x && x + v.Size() <= plan[i].end
    {
      assert Ordered(plan[i]);
      RegionReadable(proc.mem, plan, i);
      FoundWhenReadable(proc, v, plan[i], x);
    }
  }

  lemma PartAscending(proc: Process, v: Value, start: nat, size: nat)
    requires v.Valid()
    ensures Ascending(FirstAnswer(proc, v, start, size))
    ensures forall x :: x in FirstAnswer(proc, v, start, size) ==> start <= x && x + v.Size() <= start + size
  {
    hide Hit;
    FilterAscending(Interval(start, start + size), (x: nat) => Hit(proc, v, start, size, 0, x));
    forall x | x in FirstAnswer(proc, v, start, size) ensures start <= x && x + v.Size() <= start + size {
      HitInside(proc, v, start, size, 0, x);
    }
  }

  /** For every value the regions' answers together ascend: merging needs no sorting. */
  lemma PlanAscending(proc: Process, v: Value, plan: seq<Region>)
    requires v.Valid() && Listing(plan) && AllOrdered(plan)
    ensures Ascending(Flatten(FirstParts(proc, v, plan)))
  {
    var parts := FirstParts(proc, v, plan);
    hide FirstAnswer, Ascending;
    forall i | 0 <= i < |plan|
      ensures Ascending(parts[i]) && forall x :: x in parts[i] ==> plan[i].start <= x < plan[i].end
    {
      PartOf(proc, v, plan, i);
      PartAscending(proc, v, plan[i].start, plan[i].end - plan[i].start);
    }
    forall i, j, x, y | 0 <= i < j < |parts| && x in parts[i] && y in parts[j] ensures x < y {
      assert plan[i].end <= plan[j].start;
    }
    hide FirstParts, Listing, AllOrdered;
    FlattenAscending(parts);
  }

  /** No place of the value can straddle a page boundary. */
  predicate Uncut(v: Value) {
    v.Aligned() || v.Size() == 1
  }

  lemma UncutExact(v: Value)
    requires v.Valid() && Uncut(v)
    ensures Exact(v)
  {
  }

  /** A place that no boundary cuts lies within a region if its first byte does. */
  lemma UncutLies(mem: Memory, v: Value, plan: seq<Region>, x: nat)
    requires v.Valid() && Uncut(v) && Listing(plan) && AlignedHeldAt(mem, v, x)
    ensures LiesWithin(plan, v.Size(), x) <==> Covers(plan, 0, x)
  {
    forall i | 0 <= i < |plan| ensures plan[i].Contains(x) <==> plan[i].start <= x && x + v.Size() <= plan[i].end {
      assert Sane(plan[i]) by { assert plan[i] in plan; }
      if plan[i].Contains(x) && v.Aligned() {
        FitsRegion(v, plan[i].start, plan[i].end, x);
      }
    }
  }

  /** The answer over readable regions for such a value: the places in them that hold it. */
  lemma UncutMembers(proc: Process, v: Value, plan: seq<Region>, x: nat)
    requires v.Valid() && Uncut(v) && Listing(plan) && AllOrdered(plan) && AllReadable(proc.mem, plan)
    ensures x in Flatten(FirstParts(proc, v, plan)) <==> Covers(plan, 0, x) && AlignedHeldAt(proc.mem, v, x)
  {
    UncutExact(v);
    hide Uncut, Exact, AlignedHeldAt, FirstParts, Listing, LiesWithin, Covers, AllReadable;
    ReadablePlaces(proc, v, plan, x);
    if AlignedHeldAt(proc.mem, v, x) {
      UncutLies(proc.mem, v, plan, x);
    }
  }

  lemma PlanReadable(mem: Memory, regions: seq<Region>)
    requires Listing(regions) && AllReadable(mem, regions)
    ensures AllReadable(mem, Plan(regions))
  {
    hide Listing;
    forall a ensures Covers(Plan(regions), 0, a) <==> Covers(regions, 0, a) {
      OptimizeCovers(regions, 0, a);
    }
  }

  /**
   End to end: over readable regions the answer of a complete first scan of an aligned or one-byte value is the
   strictly ascending list of the aligned addresses of the original listing that hold it. Planning the regions
   neither adds nor loses nor repeats a match.
   */
  lemma FirstScanFindsExactly(proc: Process, v: Value, regions: seq<Region>)
    requires v.Valid() && Uncut(v) && Listing(regions) && AllReadable(proc.mem, regions)
    ensures var answer := Flatten(FirstParts(proc, v, Plan(regions)));
            && Ascending(answer)
            && forall x :: x in answer <==> Covers(regions, 0, x) && AlignedHeldAt(proc.mem, v, x)
  {
    var plan := Plan(regions);
    PlanReadable(proc.mem, regions);
    PlanAscending(proc, v, plan);
    hide Covers, AlignedHeldAt, Listing, AllOrdered, AllReadable, FirstParts, Uncut;
    forall x ensures x in Flatten(FirstParts(proc, v, plan)) <==>
        Covers(regions, 0, x) && AlignedHeldAt(proc.mem, v, x) {
      OptimizeCovers(regions, 0, x);
      UncutMembers(proc, v, plan, x);
    }
  }

  /** A first scan of the planned regions answers as one of the listed regions themselves would. */
  ghost predicate PlanningKeeps(proc: Process, v: Value, regions: seq<Region>)
    requires v.Valid() && Listing(regions)
  {
    ListingOrdered(regions);
    Flatten(FirstParts(proc, v, Plan(regions))) == Flatten(FirstParts(proc, v, regions))
  }

  lemma UncutKept(proc: Process, v: Value, regions: seq<Region>)
    requires v.Valid() && Uncut(v) && Listing(regions) && AllReadable(proc.mem, regions)
    ensures PlanningKeeps(proc, v, regions)
  {
    ListingOrdered(regions);
    FirstScanFindsExactly(proc, v, regions);
    PlanAscending(proc, v, regions);
    hide Covers, AlignedHeldAt, Listing, AllOrdered, AllReadable, FirstParts, Uncut;
    forall x ensures x in Flatten(FirstParts(proc, v, regions)) <==>
        Covers(regions, 0, x) && AlignedHeldAt(proc.mem, v, x) {
      UncutMembers(proc, v, regions, x);
    }
    AscendingUnique(Flatten(FirstParts(proc, v, Plan(regions))), Flatten(FirstParts(proc, v, regions)));
  }

  /** Where the first planned piece of a large region ends. */
  const CUT: nat := REGION_LARGE_SIZE

  /** One region, large enough to be split, with room for a value across the cut. */
  function Straddled(size: nat): (regions: seq<Region>)
    ensures Listing(regions)
  {
    var end := CUT + PageRoundUp(size);
    [Region(0, end, end)]
  }

  /** Readable memory with a byte pattern across the cut, and bytes that cannot begin it everywhere else. */
  ghost function Straddling(v: Value): Process
    requires v.Valid()
  {
    Process(Memory((a: nat) => if CUT - 1 <= a < CUT - 1 + |v.data| then v.data[a - (CUT - 1)]
                               else if v.data[0] == 0 then 1 else 0,
                   (p: nat) => true), 0)
  }

  /** The first piece ends at the cut and the others begin there or beyond. */
  lemma StraddledPlan(size: nat, i: nat)
    requires size >= 1 && i < |Plan(Straddled(size))|
    ensures var r := Plan(Straddled(size))[i]; !(r.start <= CUT - 1 && CUT < r.end)
  {
    var regions := Straddled(size);
    var end := regions[0].end;
    ListingOrdered(regions);
    assert Optimize(regions, 1) == [];
    assert Plan(regions) == Pieces(0, end);
    assert NextCut(0, end) == CUT;
    PiecesTile(CUT, end);
    TilesAscend(Pieces(CUT, end), CUT, end);
    assert Pieces(0, end) == [Region(0, CUT, CUT)] + Pieces(CUT, end);
  }

  /**
   A byte pattern of two or more bytes across a planned cut: a scan of the listed region finds it, a scan of the
   planned pieces does not.
   */
  lemma StraddlingLost(v: Value)
    requires v.Valid() && !Uncut(v)
    ensures AllReadable(Straddling(v).mem, Straddled(v.Size())) && AllOrdered(Straddled(v.Size()))
    ensures CUT - 1 in Flatten(FirstParts(Straddling(v), v, Straddled(v.Size())))
    ensures CUT - 1 !in Flatten(FirstParts(Straddling(v), v, Plan(Straddled(v.Size()))))
  {
    ListingOrdered(Straddled(v.Size()));
    StraddlingFound(v);
    StraddlingMissed(v);
  }

  lemma StraddlingFound(v: Value)
    requires v.Valid() && !Uncut(v) && AllOrdered(Straddled(v.Size()))
    ensures CUT - 1 in Flatten(FirstParts(Straddling(v), v, Straddled(v.Size())))
  {
    hide *;
    StraddledRoom(v.Size());
    SizePositive(v);
    StraddlingAnswered(v, Straddled(v.Size()), Straddled(v.Size())[0].end);
  }

  lemma SizePositive(v: Value)
    requires v.Valid()
    ensures v.Size() >= 1
  {
  }

  lemma StraddledRoom(size: nat)
    ensures var regions := Straddled(size);
            |regions| == 1 && regions[0].start == 0 && CUT - 1 + size <= regions[0].end && CUT <= regions[0].end
  {
  }

  lemma StraddlingAnswered(v: Value, regions: seq<Region>, end: nat)
    requires v.Valid() && !Uncut(v) && Listing(regions) && AllOrdered(regions) && |regions| == 1
    requires regions[0].start == 0 && regions[0].end == end && CUT - 1 + v.Size() <= end && CUT <= end
    ensures CUT - 1 in Flatten(FirstParts(Straddling(v), v, regions))
  {
    hide Value.Valid, Uncut, Listing, AllOrdered, Straddling, Flatten, Stream.Reports, Stream.Target, Hit, FirstParts;
    StraddlingPlace(v, end);
    FirstOfItsKind(v, end);
    ReportIsHit(Straddling(v), v, end, CUT - 1);
    HitAnswered(Straddling(v), v, regions, 0, CUT - 1);
  }

  lemma ReportIsHit(proc: Process, v: Value, end: nat, x: nat)
    requires v.Valid() && ScanStream(proc, v, 0, end, 0).Reports(v, x)
    ensures Hit(proc, v, 0, end, 0, x)
  {
    hide Stream.Reports;
  }

  lemma HitAnswered(proc: Process, v: Value, plan: seq<Region>, i: nat, x: nat)
    requires v.Valid() && Listing(plan) && AllOrdered(plan) && i < |plan| && plan[i].start <= x < plan[i].end
    requires Hit(proc, v, plan[i].start, plan[i].end - plan[i].start, 0, x)
    ensures x in Flatten(FirstParts(proc, v, plan))
  {
    hide Hit, FirstAnswer, Listing, AllOrdered;
    InFirstAnswer(proc, v, plan[i].start, plan[i].end - plan[i].start, x);
    PartOf(proc, v, plan, i);
    assert x in FirstParts(proc, v, plan)[i];
  }

  lemma StraddlingPlace(v: Value, end: nat)
    requires v.Valid() && !Uncut(v) && CUT - 1 + v.Size() <= end
    ensures ScanStream(Straddling(v), v, 0, end, 0).Target(v, CUT - 1)
  {
    var s := ScanStream(Straddling(v), v, 0, end, 0);
    assert s.mem.Slice(CUT - 1, v.Size()) == v.data;
    assert forall p :: 0 <= p < end ==> s.Readable(p);
    hide Stream.RunStart, Stream.Readable, NewScannerBuffer;
  }

  /** No place overlaps it from in front: the bytes there cannot begin one. */
  lemma FirstOfItsKind(v: Value, end: nat)
    requires v.Valid() && !Uncut(v) && ScanStream(Straddling(v), v, 0, end, 0).Target(v, CUT - 1)
    ensures ScanStream(Straddling(v), v, 0, end, 0).Reports(v, CUT - 1)
  {
    var s := ScanStream(Straddling(v), v, 0, end, 0);
    forall q: nat | CUT - 1 - v.Size() < q < CUT - 1 ensures !s.Reports(v, q) {
      assert s.mem.Slice(s.start + q, v.Size())[0] == s.mem.bytes(q) != v.data[0];
    }
    hide Stream.Target, Stream.SameBuffer, Straddling;
  }

  lemma StraddlingMissed(v: Value)
    requires v.Valid() && !Uncut(v)
    ensures CUT - 1 !in Flatten(FirstParts(Straddling(v), v, Plan(Straddled(v.Size()))))
  {
    var proc, plan := Straddling(v), Plan(Straddled(v.Size()));
    hide Straddling, Straddled, FirstAnswer;
    forall i | 0 <= i < |plan| ensures CUT - 1 !in FirstParts(proc, v, plan)[i] {
      PartOf(proc, v, plan, i);
      PartAscending(proc, v, plan[i].start, plan[i].end - plan[i].start);
      StraddledPlan(v.Size(), i);
    }
  }

  /**
   What a caller can check beforehand: planning keeps the answer over every listing and every memory in which
   the listing can be read if and only if the value is aligned or a single byte.
   */
  lemma PlanningKeepsExactlyWhen(v: Value)
    requires v.Valid()
    ensures Uncut(v) <==>
            forall proc: Process, regions: seq<Region> ::
              Listing(regions) && AllReadable(proc.mem, regions) ==> PlanningKeeps(proc, v, regions)
  {
    hide AllReadable, Uncut, PlanningKeeps;
    if Uncut(v) {
      forall proc: Process, regions: seq<Region> | Listing(regions) && AllReadable(proc.mem, regions)
        ensures PlanningKeeps(proc, v, regions)
      {
        UncutKept(proc, v, regions);
      }
    } else {
      StraddlingSplits(v);
    }
  }

  lemma StraddlingSplits(v: Value)
    requires v.Valid() && !Uncut(v)
    ensures AllReadable(Straddling(v).mem, Straddled(v.Size())) && !PlanningKeeps(Straddling(v), v, Straddled(v.Size()))
  {
    StraddlingLost(v);
    hide Straddling, Straddled, FirstParts;
  }

  /** Zero memory of which the first page cannot be read. */
  ghost function FirstPageGone(): Process {
    Process(Memory((a: nat) => 0, (p: nat) => p != 0), 0)
  }

  const ZERO: Value := Value(Int32, [0, 0, 0, 0], None)

  /**
   With an unreadable page planning adds matches even of aligned values: a scan gives up a listed region at its
   first unreadable page, but still searches the planned pieces behind it.
   */
  lemma UnreadablePageSplits()
    ensures ZERO.Valid() && AllOrdered(Straddled(4))
    ensures CUT in Flatten(FirstParts(FirstPageGone(), ZERO, Plan(Straddled(4))))
    ensures CUT !in Flatten(FirstParts(FirstPageGone(), ZERO, Straddled(4)))
  {
    hide Straddled, Plan, FirstParts, Flatten, FirstPageGone, FoundIn, AlignedHeldAt;
    ListingOrdered(Straddled(4));
    PlannedPlaces(FirstPageGone(), ZERO, Straddled(4), CUT);
    PlannedPlaces(FirstPageGone(), ZERO, Plan(Straddled(4)), CUT);
    GoneAtStart();
    FoundBehind();
  }

  lemma GoneAtStart()
    ensures ZERO.Valid() && forall i :: 0 <= i < |Straddled(4)| ==> !FoundIn(FirstPageGone(), ZERO, Straddled(4)[i], CUT)
  {
    assert !FirstPageGone().mem.Readable(0);
  }

  lemma FoundBehind()
    ensures ZERO.Valid() && AlignedHeldAt(FirstPageGone().mem, ZERO, CUT)
    ensures |Plan(Straddled(4))| == 2 && FoundIn(FirstPageGone(), ZERO, Plan(Straddled(4))[1], CUT)
  {
    var mem := FirstPageGone().mem;
    SecondPiece();
    hide Plan, Straddled;
    WholeReadable(mem, CUT, 4);
    assert mem.Slice(CUT, 4) == [0, 0, 0, 0];
  }

  lemma SecondPiece()
    ensures |Plan(Straddled(4))| == 2 && Plan(Straddled(4))[1] == Region(CUT, CUT + PAGE_SIZE, PAGE_SIZE)
  {
    var regions := Straddled(4);
    var end := regions[0].end;
    ListingOrdered(regions);
    assert end == CUT + PAGE_SIZE;
    assert Optimize(regions, 1) == [];
    assert NextCut(0, end) == CUT && NextCut(CUT, end) == end;
    assert Pieces(end, end) == [];
    assert Pieces(CUT, end) == [Region(CUT, end, PAGE_SIZE)];
    assert Pieces(0, end) == [Region(0, CUT, CUT)] + Pieces(CUT, end);
  }
}

/** From the kernel's listing to the answer of a first scan. */
module ListingScan {
  import opened Values
  import opened Sequences
  import opened Scanners
  import opened ScanTasks
  import opened ScanMeaning
  import opened Regions
  import opened Session
  import opened PlannedScans
  import opened MemoryMaps
  import opened PlanRules

  /**
   A line whose memory first scans search: readable and writable, not skipped, and shared only if the executable's
   own.
   */
  ghost predicate Searched(exe: string, line: Line) {
    && line.perm.read && line.perm.write
    && !Skipped(line.filename)
    && (line.perm.shared ==> line.filename == exe)
  }

  /** The byte at `a` is in a mapping that first scans search. */
  ghost predicate InSearched(exe: string, lines: seq<Line>, a: nat) {
    exists i :: 0 <= i < |lines| && Searched(exe, lines[i]) && lines[i].start <= a < lines[i].end
  }

  ghost function ScannedRegions(exe: string, lines: seq<Line>): seq<Region> {
    Spans(Parsed(exe, AllRw, lines, |lines|))
  }

  /** Grouping and typing do not matter to what is scanned: exactly the searched lines are. */
  lemma ScannedBytes(exe: string, lines: seq<Line>, a: nat)
    ensures Covers(ScannedRegions(exe, lines), 0, a) <==> InSearched(exe, lines, a)
  {
    var parsed := Parsed(exe, AllRw, lines, |lines|);
    var spans := Spans(parsed);
    ParsedMembers(exe, AllRw, lines, |lines|);
    if Covers(spans, 0, a) {
      var j :| 0 <= j < |spans| && spans[j].Contains(a);
      assert parsed[j] in parsed;
      var i :| 0 <= i < |lines| && parsed[j] == RegionOf(exe, lines, i) && Kept(exe, AllRw, parsed[j]);
      assert Searched(exe, lines[i]);
    }
    if InSearched(exe, lines, a) {
      var i :| 0 <= i < |lines| && Searched(exe, lines[i]) && lines[i].start <= a < lines[i].end;
      var r := RegionOf(exe, lines, i);
      assert Kept(exe, AllRw, r);
      assert r in parsed;
      var j :| 0 <= j < |parsed| && parsed[j] == r;
      assert spans[j].Contains(a);
    }
  }

  /** So planning merges all the scanned lines it may and cuts only the large ones. */
  lemma PlanOfListing(exe: string, lines: seq<Line>)
    requires KernelListing(lines)
    ensures var regions := ScannedRegions(exe, lines);
            && Listing(regions)
            && MergesSmall(Plan(regions), regions, 0) && MergesAll(Plan(regions), regions, 0)
            && CutsLarge(Plan(regions), regions, 0)
  {
    ParsedListing(exe, AllRw, lines, |lines|);
    ParsedMembers(exe, AllRw, lines, |lines|);
    var parsed, regions := Parsed(exe, AllRw, lines, |lines|), ScannedRegions(exe, lines);
    forall j | 0 <= j < |regions| ensures regions[j].start < regions[j].end {
      assert parsed[j] in parsed;
      var i :| 0 <= i < |lines| && parsed[j] == RegionOf(exe, lines, i) && Kept(exe, AllRw, parsed[j]);
    }
    PlanMergesAndCuts(regions);
  }

  /**
   From the kernel's listing to the results: a first scan of an exact value over readable memory finds, strictly
   ascending, exactly the places that hold it entirely within one planned piece of the searched lines; of an
   aligned or one-byte value that is every such place of the searched lines.
   */
  lemma FirstScanOfListing(proc: Process, v: Value, exe: string, lines: seq<Line>)
    requires v.Valid() && Exact(v) && KernelListing(lines)
    requires forall a :: InSearched(exe, lines, a) ==> proc.mem.Readable(a)
    ensures Listing(ScannedRegions(exe, lines))
    ensures var plan := Plan(ScannedRegions(exe, lines));
            var answer := Flatten(FirstParts(proc, v, plan));
            && Ascending(answer)
            && (forall x :: x in answer <==> AlignedHeldAt(proc.mem, v, x) && LiesWithin(plan, v.Size(), x))
            && (Uncut(v) ==> forall x :: x in answer <==> InSearched(exe, lines, x) && AlignedHeldAt(proc.mem, v, x))
  {
    ParsedListing(exe, AllRw, lines, |lines|);
    var regions := ScannedRegions(exe, lines);
    forall a ensures Covers(regions, 0, a) <==> InSearched(exe, lines, a) {
      ScannedBytes(exe, lines, a);
    }
    PlanReadable(proc.mem, regions);
    PlanAscending(proc, v, Plan(regions));
    hide Covers, InSearched, Listing, AllOrdered, AllReadable;
    hide AlignedHeldAt, LiesWithin, FirstParts, Uncut, Exact, ScannedRegions;
    forall x ensures x in Flatten(FirstParts(proc, v, Plan(regions))) <==>
                     AlignedHeldAt(proc.mem, v, x) && LiesWithin(Plan(regions), v.Size(), x) {
      ReadablePlaces(proc, v, Plan(regions), x);
    }
    if Uncut(v) {
      FirstScanFindsExactly(proc, v, regions);
    }
  }
}

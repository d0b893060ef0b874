/** Classifying the lines of a memory map listing: `Maps.Parse`. */
module MemoryMaps {
  import opened Kernel
  import Regions

  const WORD_LIMIT: nat := 0x1_0000_0000_0000_0000

  type word = n: nat | n < WORD_LIMIT

  datatype Permissions = Permissions(read: bool, write: bool, exec: bool, shared: bool)

  /** A parsed line; the size is a 64-bit difference. */
  datatype Line = Line(start: word, end: word, perm: Permissions, filename: string) {
    function Size(): nat {
      (end - start) % WORD_LIMIT
    }
  }

  datatype RegionType = Misc | Code | Exe | Heap | Stack

  datatype ScanLevel = All | AllRw | HeapStackExecutable | HeapStackExecutableBss

  datatype MapRegion = MapRegion(line: Line, typ: RegionType, baseAddr: nat)

  /** The level asked for; none, or an unknown one, means all regions. */
  function LevelOf(args: seq<nat>): ScanLevel {
    if args == [] then All
    else match args[0]
      case 1 => AllRw
      case 2 => HeapStackExecutable
      case 3 => HeapStackExecutableBss
      case _ => All
  }

  const SKIPPED: seq<string> := [
    "/usr/share/", "/usr/lib/", "/run/host/usr/lib/", "/usr/lib/x86_64-linux-gnu/",
    "/dev/dri", "[vvar]", "[vdso]", "/home/deck/.local/share/Steam/ubuntu12_64/"]

  predicate HasPrefix(s: string, prefix: string) {
    prefix <= s
  }

  method IsSkipRegion(filename: string) returns (skip: bool)
    ensures skip <==> Skipped(filename)
  {
    if filename == "" {
      NoPrefixOfNothing();
      return false;
    }
    for k := 0 to |SKIPPED|
      invariant forall j :: 0 <= j < k ==> !HasPrefix(filename, SKIPPED[j])
    {
      if HasPrefix(filename, SKIPPED[k]) {
        return true;
      }
    }
    return false;
  }

  ghost predicate Skipped(filename: string) {
    exists j :: 0 <= j < |SKIPPED| && HasPrefix(filename, SKIPPED[j])
  }

  lemma NoPrefixOfNothing()
    ensures !Skipped("")
  {
    forall j | 0 <= j < |SKIPPED| ensures !HasPrefix("", SKIPPED[j]) {
      assert SKIPPED[j] != "";
    }
  }

  /** Where a line stands: on its own, or the rank-th mapping of the file whose group lines[opener] opened. */
  datatype Place = Loose | Member(opener: nat, rank: nat)

  /** The line goes on with a group of `filename`: that file again, or anonymous memory right behind. */
  ghost predicate Attached(lines: seq<Line>, i: nat, filename: string)
    requires 0 < i < |lines|
  {
    && !lines[i].perm.exec
    && (lines[i].filename == filename || (lines[i].filename == "" && lines[i].start == lines[i - 1].end))
  }

  /**
   The grouping rule: a group has at most four mappings and goes on while lines attach to it. Otherwise a
   named executable mapping opens a group, and so does a mapping of the executable whose text still stands alone.
   */
  ghost function PlaceOf(exe: string, lines: seq<Line>, i: nat): (p: Place)
    requires i < |lines|
    ensures p.Member? ==> p.opener <= i && 1 <= p.rank <= 4 && lines[p.opener].filename != ""
    decreases i, 1
  {
    var line := lines[i];
    var before := if i == 0 then Loose else PlaceOf(exe, lines, i - 1);
    if before.Member? && before.rank < 4 && Attached(lines, i, lines[before.opener].filename) then
      Member(before.opener, before.rank + 1)
    else if line.perm.exec && line.filename != "" then Member(i, 1)
    else if TextAlone(exe, lines, i) && line.filename != "" && line.filename == exe then Member(i, 2)
    else Loose
  }

  /** Before lines[i] the latest group of the executable, if any, is its text mapping alone. */
  ghost predicate TextAlone(exe: string, lines: seq<Line>, i: nat)
    requires i <= |lines|
    decreases i, 0
  {
    i > 0
    && if OfExe(exe, lines, i - 1) then PlaceOf(exe, lines, i - 1).rank == 1
       else TextAlone(exe, lines, i - 1)
  }

  /** lines[i] belongs to a group of the executable. */
  ghost predicate OfExe(exe: string, lines: seq<Line>, i: nat)
    requires i < |lines|
    decreases i, 2
  {
    var p := PlaceOf(exe, lines, i);
    p.Member? && lines[p.opener].filename == exe
  }

  ghost function TypeOf(exe: string, lines: seq<Line>, i: nat): RegionType
    requires i < |lines|
  {
    if OfExe(exe, lines, i) then Exe
    else if PlaceOf(exe, lines, i).Member? then Code
    else if lines[i].filename == "[heap]" then Heap
    else if lines[i].filename == "[stack]" then Stack
    else Misc
  }

  /** The line whose start is the base address of lines[i]. */
  ghost function BaseOf(exe: string, lines: seq<Line>, i: nat): (o: nat)
    requires i < |lines|
    ensures o <= i
  {
    match PlaceOf(exe, lines, i)
    case Loose => i
    case Member(opener, _) => opener
  }

  ghost function RegionOf(exe: string, lines: seq<Line>, i: nat): MapRegion
    requires i < |lines|
  {
    MapRegion(lines[i], TypeOf(exe, lines, i), lines[BaseOf(exe, lines, i)].start)
  }

  /** What each level is after, among readable and non-empty regions. */
  ghost predicate Wanted(exe: string, level: ScanLevel, r: MapRegion) {
    && (level.All? || r.line.perm.write)
    && match level
       case All => true
       case AllRw => true
       case HeapStackExecutable => r.typ.Heap? || r.typ.Stack? || r.typ.Exe? || r.line.filename == exe
       case HeapStackExecutableBss =>
         r.typ.Heap? || r.typ.Stack? || r.typ.Exe? || r.line.filename == exe || r.line.filename == ""
  }

  /** Kept at every level that wants it: readable, not empty, not skipped, and shared only if the executable's own. */
  ghost predicate Eligible(exe: string, r: MapRegion) {
    && r.line.perm.read && r.line.start != r.line.end
    && !Skipped(r.line.filename)
    && (r.line.perm.shared ==> r.line.filename == exe)
  }

  ghost predicate Kept(exe: string, level: ScanLevel, r: MapRegion) {
    Eligible(exe, r) && Wanted(exe, level, r)
  }

  /** The regions the first `n` lines deliver. */
  ghost function Parsed(exe: string, level: ScanLevel, lines: seq<Line>, n: nat): (regions: seq<MapRegion>)
    requires n <= |lines|
    ensures |regions| <= n
  {
    if n == 0 then []
    else
      var r := RegionOf(exe, lines, n - 1);
      Parsed(exe, level, lines, n - 1) + if Kept(exe, level, r) then [r] else []
  }

  /** What the counters say about the lines before `n`. */
  ghost predicate Counters(exe: string, lines: seq<Line>, n: nat, codeRegions: nat, exeRegions: nat, prevEnd: nat,
                           loadAddr: nat, isExe: bool, binName: string)
    requires n <= |lines|
  {
    if n == 0 then codeRegions == 0 && exeRegions == 0 && !isExe
    else
      var place := PlaceOf(exe, lines, n - 1);
      && codeRegions == (if place.Member? then place.rank else 0)
      && isExe == OfExe(exe, lines, n - 1)
      && exeRegions == (if isExe then codeRegions else if TextAlone(exe, lines, n) then 1 else 0)
      && (place.Member? ==> binName == lines[place.opener].filename)
      && prevEnd == lines[n - 1].end
      && loadAddr == lines[BaseOf(exe, lines, n - 1)].start
  }

  /** lines[i] goes on with the group of the line before it. */
  ghost predicate Joins(exe: string, lines: seq<Line>, i: nat)
    requires i < |lines|
  {
    i > 0
    && var before := PlaceOf(exe, lines, i - 1);
       before.Member? && before.rank < 4 && Attached(lines, i, lines[before.opener].filename)
  }

  /** The bounds the counters keep on every line of every listing. */
  lemma CounterBounds(exe: string, lines: seq<Line>, n: nat, codeRegions: nat, exeRegions: nat, prevEnd: nat,
                      loadAddr: nat, isExe: bool, binName: string)
    requires n <= |lines| && Counters(exe, lines, n, codeRegions, exeRegions, prevEnd, loadAddr, isExe, binName)
    ensures codeRegions <= 4
    ensures isExe ==> codeRegions == exeRegions > 0
    ensures !isExe ==> exeRegions <= 1
  {
  }

  lemma ParsedNext(exe: string, level: ScanLevel, lines: seq<Line>, n: nat, next: nat)
    requires next == n + 1 <= |lines|
    ensures var r := RegionOf(exe, lines, n);
            Parsed(exe, level, lines, next) == Parsed(exe, level, lines, n) + if Kept(exe, level, r) then [r] else []
  {
    hide Kept, RegionOf;
  }

  /** Leaves the group of the line before, or counts lines[n] in. */
  method LeaveOrJoin(exe: string, lines: seq<Line>, n: nat, codeRegions: nat, exeRegions: nat, prevEnd: nat,
                     ghost loadAddr: nat, isExe: bool, binName: string)
    returns (code: nat, exes: nat, inExe: bool)
    requires n < |lines| && Counters(exe, lines, n, codeRegions, exeRegions, prevEnd, loadAddr, isExe, binName)
    ensures code > 0 <==> Joins(exe, lines, n)
    ensures code == 0 ==> !inExe && exes == if TextAlone(exe, lines, n) then 1 else 0
    ensures code > 0 ==> code == codeRegions + 1 > 1 && inExe == isExe && exes == exeRegions + if isExe then 1 else 0
  {
    code, exes, inExe := codeRegions, exeRegions, isExe;
    if code > 0 {
      var r := lines[n];
      if r.perm.exec || (r.filename != binName && (r.filename != "" || r.start != prevEnd)) || code >= 4 {
        code := 0;
        inExe := false;
        if exes > 1 {
          exes := 0;
        }
      } else {
        code := code + 1;
        if inExe {
          exes := exes + 1;
        }
      }
    }
  }

  /** Opens a group at a line that is in none, and sets the base address. */
  method OpenGroup(exe: string, lines: seq<Line>, n: nat, exeRegions: nat, exeLoad: nat, binName: string)
    returns (code: nat, exes: nat, inExe: bool, name: string, loadAddr: nat, newLoad: nat)
    requires n < |lines| && !Joins(exe, lines, n) && exeRegions == if TextAlone(exe, lines, n) then 1 else 0
    ensures Counters(exe, lines, n + 1, code, exes, lines[n].end, loadAddr, inExe, name)
  {
    var r := lines[n];
    var start, filename := r.start, r.filename;
    newLoad := exeLoad;
    code, exes, inExe, name := 0, exeRegions, false, binName;
    if r.perm.exec && filename != "" {
      code := code + 1;
      if filename == exe {
        exes := 1;
        newLoad := start;
        inExe := true;
      }
      name := filename;
    } else if exes == 1 && filename != "" && filename == exe {
      exes := exes + 1;
      code := exes;
      newLoad := start;
      inExe := true;
      name := filename;
    }
    loadAddr := if exes < 2 then start else newLoad;
  }

  lemma JoinedCounters(exe: string, lines: seq<Line>, n: nat, codeRegions: nat, exeRegions: nat, prevEnd: nat,
                       loadAddr: nat, isExe: bool, binName: string)
    requires n < |lines| && Counters(exe, lines, n, codeRegions, exeRegions, prevEnd, loadAddr, isExe, binName)
    requires Joins(exe, lines, n)
    ensures Counters(exe, lines, n + 1, codeRegions + 1, exeRegions + if isExe then 1 else 0,
                     lines[n].end, loadAddr, isExe, binName)
  {
  }

  /** Reads a listing line by line, tracking groups by counters, and keeps the regions the level is after. */
  method Parse(lines: seq<Line>, exe: string, args: seq<nat>) returns (regions: seq<MapRegion>)
    ensures regions == Parsed(exe, LevelOf(args), lines, |lines|)
  {
    var scanLevel := LevelOf(args);
    regions := [];
    var codeRegions: nat, exeRegions: nat, prevEnd: nat, loadAddr: nat, exeLoad: nat := 0, 0, 0, 0, 0;
    var isExe, binName := false, "";
    var n := 0;
    hide Counters, Joins, TextAlone, Kept;
    while n < |lines|
      invariant 0 <= n <= |lines|
      invariant Counters(exe, lines, n, codeRegions, exeRegions, prevEnd, loadAddr, isExe, binName)
      invariant regions == Parsed(exe, scanLevel, lines, n)
    {
      var next := n + 1;
      var code, exes, inExe := LeaveOrJoin(exe, lines, n, codeRegions, exeRegions, prevEnd, loadAddr, isExe, binName);
      if code == 0 {
        code, exes, inExe, binName, loadAddr, exeLoad := OpenGroup(exe, lines, n, exes, exeLoad, binName);
      } else {
        JoinedCounters(exe, lines, n, codeRegions, exeRegions, prevEnd, loadAddr, isExe, binName);
      }
      codeRegions, exeRegions, isExe, prevEnd := code, exes, inExe, lines[n].end;
      var typ := if isExe then Exe else if codeRegions > 0 then Code
                 else if lines[n].filename == "[heap]" then Heap
                 else if lines[n].filename == "[stack]" then Stack else Misc;
      var region := MapRegion(lines[n], typ, loadAddr);
      RegionCounted(exe, lines, n, codeRegions, exeRegions, prevEnd, loadAddr, isExe, binName);
      var keep := Keep(exe, scanLevel, region);
      if keep {
        regions := regions + [region];
      }
      n := next;
    }
  }

  lemma RegionCounted(exe: string, lines: seq<Line>, n: nat, codeRegions: nat, exeRegions: nat, prevEnd: nat,
                      loadAddr: nat, isExe: bool, binName: string)
    requires n < |lines| && Counters(exe, lines, n + 1, codeRegions, exeRegions, prevEnd, loadAddr, isExe, binName)
    ensures var typ := if isExe then Exe else if codeRegions > 0 then Code
                       else if lines[n].filename == "[heap]" then Heap
                       else if lines[n].filename == "[stack]" then Stack else Misc;
            RegionOf(exe, lines, n) == MapRegion(lines[n], typ, loadAddr)
  {
  }

  /** The filters, in the order the source applies them. */
  method Keep(exe: string, scanLevel: ScanLevel, region: MapRegion) returns (keep: bool)
    ensures keep <==> Kept(exe, scanLevel, region)
  {
    var perm, filename := region.line.perm, region.line.filename;
    if !perm.read || region.line.Size() <= 0 {
      return false;
    }
    if !scanLevel.All? && !perm.write {
      return false;
    }
    var useful := false;
    match scanLevel {
      case All => useful := true;
      case AllRw => useful := true;
      case HeapStackExecutableBss =>
        useful := filename == "" || region.typ.Heap? || region.typ.Stack? || region.typ.Exe? || filename == exe;
      case HeapStackExecutable =>
        useful := region.typ.Heap? || region.typ.Stack? || region.typ.Exe? || filename == exe;
    }
    if !useful {
      return false;
    }
    var skip := IsSkipRegion(filename);
    if skip {
      return false;
    }
    return !(perm.shared && filename != exe);
  }

  // ---------------------------------------------------------------- What a listing delivers

  /** lines[from..to] is one run of a group: each further line attaches to the one before. */
  ghost predicate Run(lines: seq<Line>, from: nat, to: nat)
    requires from <= to < |lines|
  {
    forall k :: from < k <= to ==> Attached(lines, k, lines[from].filename)
  }

  /**
   A group is an unbroken run of at most four lines from its opener on. It was opened by a named executable
   mapping, or by a mapping of the executable, which then counts as the second of its group.
   */
  lemma {:induction false} GroupShape(exe: string, lines: seq<Line>, i: nat)
    requires i < |lines| && PlaceOf(exe, lines, i).Member?
    ensures var o := PlaceOf(exe, lines, i).opener;
            && Run(lines, o, i)
            && (forall k :: o <= k <= i ==> PlaceOf(exe, lines, k).Member? && PlaceOf(exe, lines, k).opener == o)
            && PlaceOf(exe, lines, i).rank == i - o + (if lines[o].perm.exec then 1 else 2)
            && (lines[o].perm.exec || lines[o].filename == exe)
    decreases i
  {
    if Joins(exe, lines, i) {
      GroupShape(exe, lines, i - 1);
    }
  }

  /** A group's lines are one run, so anonymous memory in it lies right behind the line before. */
  lemma GroupBaseShared(exe: string, lines: seq<Line>, i: nat, k: nat)
    requires i < |lines| && BaseOf(exe, lines, i) <= k <= i
    ensures BaseOf(exe, lines, k) == BaseOf(exe, lines, i)
    ensures BaseOf(exe, lines, i) + 3 >= i
    ensures OfExe(exe, lines, k) == OfExe(exe, lines, i)
  {
    if PlaceOf(exe, lines, i).Member? {
      GroupShape(exe, lines, i);
    }
  }

  /** What the kernel lists: ascending, disjoint, page-aligned mappings. */
  ghost predicate KernelListing(lines: seq<Line>) {
    && (forall i :: 0 <= i < |lines| ==>
          lines[i].start <= lines[i].end && lines[i].start % PAGE_SIZE == 0 && lines[i].end % PAGE_SIZE == 0)
    && (forall i, j :: 0 <= i < j < |lines| ==> lines[i].end <= lines[j].start)
  }

  /** A parse delivers exactly the regions of the lines that pass the filters. */
  lemma {:induction false} ParsedMembers(exe: string, level: ScanLevel, lines: seq<Line>, n: nat)
    requires n <= |lines|
    ensures forall r :: r in Parsed(exe, level, lines, n) <==>
                        exists i :: 0 <= i < n && r == RegionOf(exe, lines, i) && Kept(exe, level, r)
  {
    if n > 0 {
      ParsedMembers(exe, level, lines, n - 1);
      hide RegionOf, Kept;
    }
  }

  /** Every region's base address is the start of the line that opened its group, at or below the region. */
  lemma BaseBelowStart(exe: string, level: ScanLevel, lines: seq<Line>, r: MapRegion)
    requires KernelListing(lines) && r in Parsed(exe, level, lines, |lines|)
    ensures r.baseAddr <= r.line.start
    ensures exists i :: 0 <= i < |lines| && r.line == lines[i] && r.baseAddr == lines[BaseOf(exe, lines, i)].start
  {
    ParsedMembers(exe, level, lines, |lines|);
    var i :| 0 <= i < |lines| && r == RegionOf(exe, lines, i) && Kept(exe, level, r);
    var o := BaseOf(exe, lines, i);
    assert o < i ==> lines[o].end <= lines[i].start;
  }

  /** The regions a level is after, in order. */
  ghost function Narrowed(exe: string, level: ScanLevel, regions: seq<MapRegion>): seq<MapRegion> {
    if regions == [] then []
    else
      var last := |regions| - 1;
      Narrowed(exe, level, regions[..last]) + if Wanted(exe, level, regions[last]) then [regions[last]] else []
  }

  lemma NarrowedNext(exe: string, level: ScanLevel, wide: seq<MapRegion>, r: MapRegion, kept: bool)
    ensures Narrowed(exe, level, wide + if kept then [r] else [])
            == Narrowed(exe, level, wide) + if kept && Wanted(exe, level, r) then [r] else []
  {
    if kept {
      assert (wide + [r])[..|wide|] == wide;
    } else {
      assert wide + [] == wide;
    }
    hide Wanted;
  }

  /** How much a level lets through: all, writable, executable with zero-filled data, executable. */
  function Looseness(level: ScanLevel): nat {
    match level
    case All => 3
    case AllRw => 2
    case HeapStackExecutableBss => 1
    case HeapStackExecutable => 0
  }

  /**
   A stricter level only drops regions: its answer is the looser level's, filtered, with types and base
   addresses unchanged.
   */
  lemma {:induction false} StricterNarrows(exe: string, strict: ScanLevel, loose: ScanLevel, lines: seq<Line>, n: nat)
    requires n <= |lines| && Looseness(strict) <= Looseness(loose)
    ensures Parsed(exe, strict, lines, n) == Narrowed(exe, strict, Parsed(exe, loose, lines, n))
  {
    if n > 0 {
      var m := n - 1;
      var r := RegionOf(exe, lines, m);
      StricterNarrows(exe, strict, loose, lines, m);
      ParsedNext(exe, strict, lines, m, n);
      ParsedNext(exe, loose, lines, m, n);
      NarrowedNext(exe, strict, Parsed(exe, loose, lines, m), r, Kept(exe, loose, r));
      LevelsNest(exe, strict, loose, r);
      hide *;
    }
  }

  lemma LevelsNest(exe: string, strict: ScanLevel, loose: ScanLevel, r: MapRegion)
    requires Looseness(strict) <= Looseness(loose)
    ensures Kept(exe, strict, r) <==> Kept(exe, loose, r) && Wanted(exe, strict, r)
  {
    assert Wanted(exe, strict, r) ==> Wanted(exe, loose, r);
  }

  /**
   The two strictest levels deliver the same on every listing if and only if the executable's name is empty, as
   it is when its path cannot be read: the stricter one then lets anonymous memory through.
   */
  lemma UnknownExecutable(exe: string)
    ensures exe == "" <==>
            forall lines: seq<Line> ::
                Parsed(exe, HeapStackExecutable, lines, |lines|) == Parsed(exe, HeapStackExecutableBss, lines, |lines|)
  {
    if exe == "" {
      forall lines: seq<Line>
        ensures Parsed(exe, HeapStackExecutable, lines, |lines|) == Parsed(exe, HeapStackExecutableBss, lines, |lines|)
      {
        AnonymousKept(lines, |lines|);
      }
    } else {
      AnonymousDropped(exe);
    }
  }

  lemma {:induction false} AnonymousKept(lines: seq<Line>, n: nat)
    requires n <= |lines|
    ensures Parsed("", HeapStackExecutable, lines, n) == Parsed("", HeapStackExecutableBss, lines, n)
  {
    if n > 0 {
      AnonymousKept(lines, n - 1);
      assert Kept("", HeapStackExecutable, RegionOf("", lines, n - 1)) <==>
               Kept("", HeapStackExecutableBss, RegionOf("", lines, n - 1));
      hide Kept, RegionOf;
    }
  }

  /** One page of anonymous memory on its own. */
  const ANONYMOUS: Line := Line(0, 4096, Permissions(true, true, false, false), "")

  lemma AnonymousDropped(exe: string)
    requires exe != ""
    ensures Parsed(exe, HeapStackExecutable, [ANONYMOUS], 1) != Parsed(exe, HeapStackExecutableBss, [ANONYMOUS], 1)
  {
    var lines := [ANONYMOUS];
    var r := RegionOf(exe, lines, 0);
    NoPrefixOfNothing();
    assert r.typ == Misc;
    assert Kept(exe, HeapStackExecutableBss, r) && !Kept(exe, HeapStackExecutable, r);
    hide Kept, RegionOf;
    assert Parsed(exe, HeapStackExecutable, lines, 0) == [] == Parsed(exe, HeapStackExecutableBss, lines, 0);
    ParsedNext(exe, HeapStackExecutable, lines, 0, 1);
    ParsedNext(exe, HeapStackExecutableBss, lines, 0, 1);
  }

  /** The address ranges of regions, as scanning uses them. */
  ghost function Spans(regions: seq<MapRegion>): (r: seq<Regions.Region>)
    ensures |r| == |regions|
    ensures forall i :: 0 <= i < |r| ==>
              r[i] == Regions.Region(regions[i].line.start, regions[i].line.end, regions[i].line.Size())
  {
    seq(|regions|, i requires 0 <= i < |regions| =>
      Regions.Region(regions[i].line.start, regions[i].line.end, regions[i].line.Size()))
  }

  /** One more region at or above the end of a listing. */
  lemma ListingSnoc(regions: seq<Regions.Region>, r: Regions.Region, bound: nat)
    requires Regions.Listing(regions) && Regions.Sane(r)
    requires (forall s :: s in regions ==> s.end <= bound) && bound <= r.start
    ensures Regions.Listing(regions + [r])
    ensures forall s :: s in regions + [r] ==> s.end <= r.end
  {
    forall i, j | 0 <= i < j < |regions + [r]| ensures (regions + [r])[i].end <= (regions + [r])[j].start {
      assert regions != [] && (regions + [r])[i] in regions;
    }
  }

  lemma SpansSnoc(regions: seq<MapRegion>, r: MapRegion)
    ensures Spans(regions + [r]) == Spans(regions) + [Regions.Region(r.line.start, r.line.end, r.line.Size())]
  {
  }

  /** The spans of the first regions lie at or below the end of the last line read. */
  ghost predicate Below(spans: seq<Regions.Region>, lines: seq<Line>, n: nat)
    requires n <= |lines|
  {
    forall s :: s in spans ==> n > 0 && s.end <= lines[n - 1].end
  }

  lemma ListedNext(spans: seq<Regions.Region>, lines: seq<Line>, n: nat, next: nat)
    requires KernelListing(lines) && next == n + 1 <= |lines|
    requires Regions.Listing(spans) && Below(spans, lines, n)
    ensures Below(spans, lines, next)
    ensures var span := Regions.Region(lines[n].start, lines[n].end, lines[n].Size());
            Regions.Listing(spans + [span]) && Below(spans + [span], lines, next)
  {
    var span := Regions.Region(lines[n].start, lines[n].end, lines[n].Size());
    var bound := if n == 0 then 0 else lines[n - 1].end;
    assert bound <= span.start <= span.end;
    assert Regions.Sane(span);
    hide Regions.Listing, Regions.Sane;
    ListingSnoc(spans, span, bound);
  }

  /** Parsing the kernel's listing delivers regions in the shape that planning and scanning need, at every level. */
  lemma {:induction false} ParsedListing(exe: string, level: ScanLevel, lines: seq<Line>, n: nat)
    requires KernelListing(lines) && n <= |lines|
    ensures Regions.Listing(Spans(Parsed(exe, level, lines, n)))
    ensures Below(Spans(Parsed(exe, level, lines, n)), lines, n)
  {
    if n > 0 {
      var m := n - 1;
      ParsedListing(exe, level, lines, m);
      var before := Parsed(exe, level, lines, m);
      var r := RegionOf(exe, lines, m);
      ParsedNext(exe, level, lines, m, n);
      SpansSnoc(before, r);
      ListedNext(Spans(before), lines, m, n);
      hide *;
    }
  }
}

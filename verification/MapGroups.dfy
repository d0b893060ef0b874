/** How a listing is grouped, in terms of its lines alone: no counters and no recursion over places. */
module MapGroups {
  import opened MemoryMaps

  /**
   lines[k] belongs with the mappings of `name` before it: not executable, and that file again or anonymous right
   behind.
   */
  ghost predicate Follows(lines: seq<Line>, k: nat, name: string)
    requires 0 < k < |lines|
  {
    && !lines[k].perm.exec
    && (lines[k].filename == name || (lines[k].filename == "" && lines[k].start == lines[k - 1].end))
  }

  /** Every line behind lines[o], up to lines[i], follows the file of lines[o]. */
  ghost predicate AllFollow(lines: seq<Line>, o: nat, i: nat)
    requires o <= i < |lines|
  {
    forall k :: o < k <= i ==> Follows(lines, k, lines[o].filename)
  }

  /** lines[i] is one of at most four mappings that begin with the named executable mapping lines[o]. */
  ghost predicate InText(lines: seq<Line>, o: nat, i: nat) {
    && o <= i < |lines| && i <= o + 3
    && lines[o].perm.exec && lines[o].filename != ""
    && AllFollow(lines, o, i)
  }

  /** The executable's text at lines[t] stands alone: nothing follows it, and lines[o] is the executable's next line. */
  ghost predicate AloneUntil(exe: string, lines: seq<Line>, t: nat, o: nat)
    requires o < |lines|
  {
    && t + 1 < o && lines[t].perm.exec && lines[t].filename == exe
    && !Follows(lines, t + 1, exe)
    && forall j :: t < j < o ==> lines[j].filename != exe
  }

  /** lines[o] is the executable's second mapping, apart from its text. */
  ghost predicate Second(exe: string, lines: seq<Line>, o: nat) {
    && o < |lines| && exe != "" && lines[o].filename == exe && !lines[o].perm.exec
    && exists t :: 0 <= t && AloneUntil(exe, lines, t, o)
  }

  /** lines[i] is one of at most three mappings that begin with such a second mapping. */
  ghost predicate InSecond(exe: string, lines: seq<Line>, o: nat, i: nat) {
    o <= i < |lines| && i <= o + 2 && Second(exe, lines, o) && AllFollow(lines, o, i)
  }

  /** The place of lines[i] by its lines, if some group holds it. */
  ghost predicate PlacedBy(exe: string, lines: seq<Line>, i: nat, p: Place)
    requires i < |lines|
  {
    match p
    case Member(o, rank) =>
      || (InText(lines, o, i) && rank == i - o + 1)
      || (InSecond(exe, lines, o, i) && rank == i - o + 2)
    case Loose => forall o :: 0 <= o <= i ==> !InText(lines, o, i) && !InSecond(exe, lines, o, i)
  }

  /** Before lines[i] the text of the executable stands alone exactly if it does so by its lines. */
  ghost predicate LastAlone(exe: string, lines: seq<Line>, t: nat, i: nat)
    requires i <= |lines|
  {
    && t < i && PlaceOf(exe, lines, t) == Member(t, 1) && lines[t].filename == exe
    && forall j :: t < j < i ==> !OfExe(exe, lines, j)
  }

  lemma {:induction false} AloneIs(exe: string, lines: seq<Line>, i: nat)
    requires i <= |lines|
    requires forall j :: 0 <= j < i ==> PlacedBy(exe, lines, j, PlaceOf(exe, lines, j))
    ensures TextAlone(exe, lines, i) <==> exists t :: 0 <= t && LastAlone(exe, lines, t, i)
    decreases i
  {
    if i > 0 {
      var m := i - 1;
      AloneIs(exe, lines, m);
      if OfExe(exe, lines, m) {
        RankOne(exe, lines, m);
        if PlaceOf(exe, lines, m).rank == 1 {
          assert LastAlone(exe, lines, m, i);
        }
      } else if TextAlone(exe, lines, m) {
        var t :| 0 <= t && LastAlone(exe, lines, t, m);
        assert LastAlone(exe, lines, t, i);
      }
      if t :| 0 <= t && LastAlone(exe, lines, t, i) {
        if t < m {
          assert !OfExe(exe, lines, m);
          assert LastAlone(exe, lines, t, m);
        }
      }
    }
  }

  /** Only a line that opens a group with its text has rank one. */
  lemma RankOne(exe: string, lines: seq<Line>, i: nat)
    requires i < |lines| && PlacedBy(exe, lines, i, PlaceOf(exe, lines, i))
    ensures PlaceOf(exe, lines, i).Member? && PlaceOf(exe, lines, i).rank == 1 ==> PlaceOf(exe, lines, i).opener == i
  {
  }

  /** A line belongs to the group of one opener only. */
  lemma OneOpener(exe: string, lines: seq<Line>, o: nat, p: nat, i: nat)
    requires o <= p <= i && (InText(lines, o, i) || InSecond(exe, lines, o, i))
    requires InText(lines, p, i) || InSecond(exe, lines, p, i)
    ensures o == p && (InText(lines, o, i) <==> InText(lines, p, i))
  {
    if o < p {
      NoLater(exe, lines, o, p, i);
      assert false;
    }
  }

  lemma NoLater(exe: string, lines: seq<Line>, o: nat, p: nat, i: nat)
    requires o < p <= i < |lines| && AllFollow(lines, o, i) && lines[o].filename != ""
    ensures !InText(lines, p, i) && !InSecond(exe, lines, p, i)
  {
    assert Follows(lines, p, lines[o].filename);
    forall t: nat | lines[o].filename == exe ensures !AloneUntil(exe, lines, t, p) {
      OpenerNotPast(exe, lines, o, t, p, i);
    }
  }

  /** The line behind a text that stands alone follows nothing of the executable, so no run of it leads past. */
  lemma OpenerNotPast(exe: string, lines: seq<Line>, o: nat, t: nat, p: nat, i: nat)
    requires o < p <= i < |lines| && AllFollow(lines, o, i) && lines[o].filename == exe
    ensures !AloneUntil(exe, lines, t, p)
  {
    assert o < t <= i ==> Follows(lines, t, lines[o].filename);
    assert t + 1 <= i && o == t ==> Follows(lines, t + 1, lines[o].filename);
  }

  ghost predicate AllPlaced(exe: string, lines: seq<Line>, i: nat)
    requires i <= |lines|
  {
    forall j :: 0 <= j < i ==> PlacedBy(exe, lines, j, PlaceOf(exe, lines, j))
  }

  /** A text that stands alone by its lines does so by its places. */
  lemma AloneByPlaces(exe: string, lines: seq<Line>, t: nat, o: nat)
    requires o < |lines| && exe != "" && AllPlaced(exe, lines, o) && AloneUntil(exe, lines, t, o)
    ensures LastAlone(exe, lines, t, o)
  {
    forall j | t < j < o ensures !OfExe(exe, lines, j) {
      var place := PlaceOf(exe, lines, j);
      assert PlacedBy(exe, lines, j, place);
      if OfExe(exe, lines, j) {
        NotOfExe(exe, lines, t, o, place.opener, j);
        assert false;
      }
    }
  }

  lemma NotOfExe(exe: string, lines: seq<Line>, t: nat, o: nat, p: nat, j: nat)
    requires o < |lines| && AloneUntil(exe, lines, t, o) && t < j < o && p <= j && lines[p].filename == exe
    ensures !InText(lines, p, j) && !InSecond(exe, lines, p, j)
  {
    assert p <= t;
    if p < t {
      RunStops(lines, p, t, j);
    } else {
      RunStops(lines, p, t + 1, j);
    }
  }

  /** A run does not lead past a line that does not follow. */
  lemma RunStops(lines: seq<Line>, p: nat, k: nat, j: nat)
    requires p < k <= j < |lines| && !Follows(lines, k, lines[p].filename)
    ensures !AllFollow(lines, p, j)
  {
  }

  lemma FollowerIsExe(exe: string, lines: seq<Line>, t: nat)
    requires t + 1 < |lines| && PlaceOf(exe, lines, t) == Member(t, 1) && lines[t].filename == exe
    requires Follows(lines, t + 1, exe)
    ensures OfExe(exe, lines, t + 1)
  {
    assert Joins(exe, lines, t + 1);
  }

  /** And the other way round, at a line of the executable that is in no group. */
  lemma AloneByLines(exe: string, lines: seq<Line>, t: nat, o: nat)
    requires o < |lines| && exe != "" && AllPlaced(exe, lines, o) && LastAlone(exe, lines, t, o)
    requires lines[o].filename == exe && !lines[o].perm.exec && !Joins(exe, lines, o)
    ensures AloneUntil(exe, lines, t, o)
  {
    assert PlacedBy(exe, lines, t, PlaceOf(exe, lines, t));
    assert lines[t].perm.exec;
    assert t + 1 < o;
    assert !OfExe(exe, lines, t + 1);
    if Follows(lines, t + 1, exe) {
      FollowerIsExe(exe, lines, t);
      assert false;
    }
    forall j | t < j < o ensures lines[j].filename != exe {
      if lines[j].filename == exe {
        NamedIsExe(exe, lines, t, j);
        assert false;
      }
    }
  }

  /** Behind a text standing alone, the executable's next line is of its group whatever it is. */
  lemma NamedIsExe(exe: string, lines: seq<Line>, t: nat, j: nat)
    requires t < j < |lines| && exe != "" && AllPlaced(exe, lines, j) && LastAlone(exe, lines, t, j)
    requires lines[j].filename == exe
    ensures OfExe(exe, lines, j)
  {
    AloneIs(exe, lines, j);
    assert TextAlone(exe, lines, j);
  }

  /** The grouping rule agrees with the lines, everywhere. */
  lemma {:induction false} PlacedByLines(exe: string, lines: seq<Line>, i: nat)
    requires i < |lines| && AllPlaced(exe, lines, i)
    ensures PlacedBy(exe, lines, i, PlaceOf(exe, lines, i))
  {
    var line := lines[i];
    if Joins(exe, lines, i) {
      JoinedPlace(exe, lines, i);
    } else if line.perm.exec && line.filename != "" {
      assert InText(lines, i, i);
    } else if TextAlone(exe, lines, i) && line.filename != "" && line.filename == exe {
      AloneIs(exe, lines, i);
      var t :| 0 <= t && LastAlone(exe, lines, t, i);
      AloneByLines(exe, lines, t, i);
      assert InSecond(exe, lines, i, i);
    } else {
      forall o | 0 <= o <= i ensures !InText(lines, o, i) && !InSecond(exe, lines, o, i) {
        LoosePlace(exe, lines, o, i);
      }
    }
  }

  lemma JoinedPlace(exe: string, lines: seq<Line>, i: nat)
    requires i < |lines| && AllPlaced(exe, lines, i) && Joins(exe, lines, i)
    ensures PlacedBy(exe, lines, i, PlaceOf(exe, lines, i))
  {
    var before := PlaceOf(exe, lines, i - 1);
    assert PlacedBy(exe, lines, i - 1, before);
    assert Follows(lines, i, lines[before.opener].filename);
    assert AllFollow(lines, before.opener, i);
  }

  lemma LoosePlace(exe: string, lines: seq<Line>, o: nat, i: nat)
    requires o <= i < |lines| && AllPlaced(exe, lines, i) && !Joins(exe, lines, i)
    requires PlaceOf(exe, lines, i) == Loose
    ensures !InText(lines, o, i) && !InSecond(exe, lines, o, i)
  {
    if o == i {
      if InSecond(exe, lines, o, i) {
        var t :| 0 <= t && AloneUntil(exe, lines, t, i);
        AloneByPlaces(exe, lines, t, i);
        AloneIs(exe, lines, i);
        assert false;
      }
    } else if InText(lines, o, i) || InSecond(exe, lines, o, i) {
      EarlierPlace(exe, lines, o, i);
      assert false;
    }
  }

  /** A group that holds lines[i] held the line before, with room for one more. */
  lemma EarlierPlace(exe: string, lines: seq<Line>, o: nat, i: nat)
    requires o < i < |lines| && AllPlaced(exe, lines, i)
    requires InText(lines, o, i) || InSecond(exe, lines, o, i)
    ensures Joins(exe, lines, i)
  {
    var m := i - 1;
    var before := PlaceOf(exe, lines, m);
    assert PlacedBy(exe, lines, m, before);
    assert AllFollow(lines, o, m);
    assert InText(lines, o, m) || InSecond(exe, lines, o, m);
    assert before.Member?;
    if before.opener < o {
      OneOpener(exe, lines, before.opener, o, m);
    } else {
      OneOpener(exe, lines, o, before.opener, m);
    }
    assert Follows(lines, i, lines[o].filename);
  }

  lemma {:induction false} EveryLinePlaced(exe: string, lines: seq<Line>, n: nat)
    requires n <= |lines|
    ensures AllPlaced(exe, lines, n)
  {
    if n > 0 {
      EveryLinePlaced(exe, lines, n - 1);
      PlacedByLines(exe, lines, n - 1);
    }
  }

  /** What a region is called that is in no group. */
  function NamedType(filename: string): RegionType {
    if filename == "[heap]" then Heap else if filename == "[stack]" then Stack else Misc
  }

  /**
   Type and base address of every line, by the lines alone. A named executable mapping and the at most three
   mappings that follow it are the executable's or code, and the executable's second mapping and the at most two
   that follow it the executable's, all based at the first of them. Any other line stands for itself.
   */
  lemma TypeAndBase(exe: string, lines: seq<Line>, i: nat)
    requires i < |lines|
    ensures forall o: nat | InText(lines, o, i) ::
              RegionOf(exe, lines, i)
              == MapRegion(lines[i], if lines[o].filename == exe then Exe else Code, lines[o].start)
    ensures forall o: nat | InSecond(exe, lines, o, i) ::
              RegionOf(exe, lines, i) == MapRegion(lines[i], Exe, lines[o].start)
    ensures (forall o: nat :: !InText(lines, o, i) && !InSecond(exe, lines, o, i)) ==>
              RegionOf(exe, lines, i) == MapRegion(lines[i], NamedType(lines[i].filename), lines[i].start)
  {
    EveryLinePlaced(exe, lines, i + 1);
    var place := PlaceOf(exe, lines, i);
    assert PlacedBy(exe, lines, i, place);
    assert place.Member? ==> InText(lines, place.opener, i) || InSecond(exe, lines, place.opener, i);
    forall o: nat | InText(lines, o, i) || InSecond(exe, lines, o, i)
      ensures place.Member? && place.opener == o
    {
      assert o <= i && place.Member?;
      if place.opener < o {
        OneOpener(exe, lines, place.opener, o, i);
      } else {
        OneOpener(exe, lines, o, place.opener, i);
      }
    }
  }

  /** A named executable mapping always begins a group, whatever came before. */
  lemma ExecutableOpens(exe: string, lines: seq<Line>, i: nat)
    requires i < |lines| && lines[i].perm.exec && lines[i].filename != ""
    ensures RegionOf(exe, lines, i)
            == MapRegion(lines[i], if lines[i].filename == exe then Exe else Code, lines[i].start)
  {
    assert InText(lines, i, i);
    TypeAndBase(exe, lines, i);
  }

  /** A listed prefix followed by anything is skipped. */
  lemma PrefixSkips(j: nat, rest: string)
    requires j < |SKIPPED|
    ensures Skipped(SKIPPED[j] + rest)
  {
    assert HasPrefix(SKIPPED[j] + rest, SKIPPED[j]);
  }

  /** The name is the j-th listed prefix followed by `rest`. */
  ghost predicate Begins(filename: string, j: nat, rest: string) {
    j < |SKIPPED| && filename == SKIPPED[j] + rest
  }

  /** Exactly the names that begin with one of the eight listed prefixes are skipped. */
  lemma SkippedNames(filename: string)
    ensures Skipped(filename) <==> exists j: nat, rest: string :: Begins(filename, j, rest)
    ensures |SKIPPED| == 8
    ensures SKIPPED[0] == "/usr/share/" && SKIPPED[1] == "/usr/lib/" && SKIPPED[2] == "/run/host/usr/lib/"
    ensures SKIPPED[3] == "/usr/lib/x86_64-linux-gnu/" && SKIPPED[4] == "/dev/dri"
    ensures SKIPPED[5] == "[vvar]" && SKIPPED[6] == "[vdso]"
    ensures SKIPPED[7] == "/home/deck/.local/share/Steam/ubuntu12_64/"
  {
    if Skipped(filename) {
      var j: nat :| j < |SKIPPED| && HasPrefix(filename, SKIPPED[j]);
      assert Begins(filename, j, filename[|SKIPPED[j]|..]);
    }
    if j: nat, rest: string :| Begins(filename, j, rest) {
      PrefixSkips(j, rest);
    }
  }

  /**
   What a listing delivers, by level number, line and region: readable, not empty, of no skipped name, shared only
   if the executable's own; at levels 1 to 3 writable; at level 2 the executable's, the heap and the stack, and at
   level 3 anonymous memory as well.
   */
  ghost predicate DeliveredAt(exe: string, level: nat, r: MapRegion) {
    && r.line.perm.read && r.line.start != r.line.end
    && !Skipped(r.line.filename)
    && (r.line.perm.shared ==> r.line.filename == exe)
    && (1 <= level <= 3 ==> r.line.perm.write)
    && (level == 2 ==> r.typ == Exe || r.typ == Heap || r.typ == Stack || r.line.filename == exe)
    && (level == 3 ==>
          r.typ == Exe || r.typ == Heap || r.typ == Stack || r.line.filename == exe || r.line.filename == "")
  }

  /** The parser delivers exactly the regions of such lines; without a level, or with an unknown one, it is level 0. */
  lemma DeliveredRegions(exe: string, args: seq<nat>, lines: seq<Line>, r: MapRegion)
    ensures var level := if args != [] && args[0] <= 3 then args[0] else 0;
            r in Parsed(exe, LevelOf(args), lines, |lines|) <==>
            DeliveredAt(exe, level, r) && exists i :: 0 <= i < |lines| && r == RegionOf(exe, lines, i)
  {
    var level := if args != [] && args[0] <= 3 then args[0] else 0;
    ParsedMembers(exe, LevelOf(args), lines, |lines|);
    assert Kept(exe, LevelOf(args), r) <==> DeliveredAt(exe, level, r);
    hide Kept, DeliveredAt, RegionOf, Parsed;
  }
}

/** When first scans panic, and when the two next-scan strategies agree. */
module ScanResults {
  import opened Arithmetic
  import opened Kernel
  import opened Values
  import opened Sequences
  import opened VirtualRegions
  import opened Scanners
  import opened ScanTasks
  import opened SparseRead
  import opened SparseScan
  import opened ScanMeaning
  import opened Regions
  import opened DenseScans
  import opened Session
  import opened PlannedScans

  /** A page-aligned region has no more matches of a value that packs than room for whole values. */
  lemma AnswerFits(proc: Process, v: Value, start: nat, size: nat)
    requires v.Valid() && Packs(v) && start % PAGE_SIZE == 0 && size % PAGE_SIZE == 0
    ensures |FirstAnswer(proc, v, start, size)| <= size / v.Size()
  {
    hide Hit, Packs;
    FilterAscending(Interval(start, start + size), (x: nat) => Hit(proc, v, start, size, 0, x));
    HitsFit(proc, v, start, size, 0, FirstAnswer(proc, v, start, size));
  }

  /** Values of eight or more bytes never overfill a task's buffer: a planned region has room for no more of them. */
  lemma EightBytesFit(proc: Process, v: Value, regions: seq<Region>)
    requires v.Valid() && Packs(v) && v.Size() >= 8 && Listing(regions)
    ensures !TooMany(proc, v, Plan(regions))
  {
    var plan := Plan(regions);
    hide FirstAnswer, AllOrdered, Packs;
    forall i | 0 <= i < |plan| ensures |FirstParts(proc, v, plan)[i]| <= REGION_RESULTS_ALLOC_CAPS {
      PlanSmall(regions, plan, i);
      EightByteAnswer(proc, v, plan[i].start, plan[i].end - plan[i].start);
    }
    hide FirstParts, AllOrdered, Listing;
  }

  lemma PlanSmall(regions: seq<Region>, plan: seq<Region>, i: nat)
    requires Listing(regions) && plan == Plan(regions) && i < |plan|
    ensures Sane(plan[i]) && plan[i].end - plan[i].start <= REGION_LARGE_SIZE
  {
    OptimizePlans(regions, 0);
    assert plan[i] in plan;
  }

  lemma EightByteAnswer(proc: Process, v: Value, start: nat, size: nat)
    requires v.Valid() && Packs(v) && v.Size() >= 8 && size <= REGION_LARGE_SIZE
    requires start % PAGE_SIZE == 0 && size % PAGE_SIZE == 0
    ensures |FirstAnswer(proc, v, start, size)| <= REGION_RESULTS_ALLOC_CAPS
  {
    AnswerFits(proc, v, start, size);
    EighthOf(size, v.Size());
    hide FirstAnswer;
  }

  lemma EighthOf(size: nat, w: nat)
    requires w >= 8 && size <= REGION_LARGE_SIZE
    ensures size / w <= REGION_RESULTS_ALLOC_CAPS
  {
    Euclid(size, w);
    MulMono(8, w, size / w);
  }

  /** Some word compares equal to the value; for an exact one, its own bytes. */
  ghost predicate Matchable(v: Value) {
    exists word: seq<byte> :: Matches(v, word)
  }

  predicate Matches(v: Value, word: seq<byte>) {
    |word| == v.Size() && v.EqualBytes(word)
  }

  /** Memory filled with copies of a word, one after another. */
  ghost function Tiled(word: seq<byte>): Process
    requires word != []
  {
    Process(Memory((a: nat) => word[a % |word|], (p: nat) => true), 0)
  }

  ghost function Multiples(n: nat, w: nat): (s: seq<nat>)
    requires w > 0
    ensures |s| == n && Ascending(s)
    ensures forall x :: x in s ==> x % w == 0 && x + w <= n * w
  {
    if n == 0 then []
    else
      var s := Multiples(n - 1, w);
      ModUnique(n - 1, 0, w);
      assert n * w == (n - 1) * w + w;
      assert s != [] ==> s[|s| - 1] in s;
      s + [(n - 1) * w]
  }

  lemma TiledHolds(v: Value, word: seq<byte>, x: nat)
    requires v.Valid() && Matches(v, word) && x % v.Size() == 0
    ensures HeldAt(Tiled(word).mem, v, x)
  {
    var w := v.Size();
    WholeReadable(Tiled(word).mem, x, w);
    forall i | 0 <= i < w ensures Tiled(word).mem.Slice(x, w)[i] == word[i] {
      ModAdd(x, i, w);
      ModUnique(0, i, w);
    }
    assert Tiled(word).mem.Slice(x, w) == word;
  }

  lemma TiledIn(v: Value, word: seq<byte>, x: nat)
    requires v.Valid() && Exact(v) && Matches(v, word) && x % v.Size() == 0 && x + v.Size() <= REGION_LARGE_SIZE
    ensures x in FirstAnswer(Tiled(word), v, 0, REGION_LARGE_SIZE)
  {
    TiledHolds(v, word, x);
    hide Hit, FirstAnswer, Exact, HeldAt;
    FirstFindsAll(Tiled(word), v, 0, REGION_LARGE_SIZE, x);
    InFirstAnswer(Tiled(word), v, 0, REGION_LARGE_SIZE, x);
  }

  lemma TiledMany(v: Value, word: seq<byte>, n: nat)
    requires v.Valid() && Exact(v) && Matches(v, word) && n * v.Size() <= REGION_LARGE_SIZE
    ensures n <= |FirstAnswer(Tiled(word), v, 0, REGION_LARGE_SIZE)|
  {
    hide FirstAnswer, Tiled, Exact, Multiples, Ascending, Value.EqualBytes;
    var multiples, answer := Multiples(n, v.Size()), FirstAnswer(Tiled(word), v, 0, REGION_LARGE_SIZE);
    PartAscending(Tiled(word), v, 0, REGION_LARGE_SIZE);
    forall x | x in multiples ensures x in answer {
      TiledIn(v, word, x);
    }
    SubsetLength(multiples, answer);
  }

  lemma TiledAnswer(v: Value, word: seq<byte>)
    requires v.Valid() && Exact(v) && Matches(v, word)
    ensures REGION_LARGE_SIZE / v.Size() <= |FirstAnswer(Tiled(word), v, 0, REGION_LARGE_SIZE)|
  {
    hide FirstAnswer, Tiled, Exact, Matches;
    Euclid(REGION_LARGE_SIZE, v.Size());
    TiledMany(v, word, REGION_LARGE_SIZE / v.Size());
  }

  lemma LargeRegionPlan()
    ensures var regions := [Region(0, REGION_LARGE_SIZE, REGION_LARGE_SIZE)];
            Listing(regions) && Plan(regions) == regions
  {
    var regions := [Region(0, REGION_LARGE_SIZE, REGION_LARGE_SIZE)];
    assert Listing(regions);
    ListingOrdered(regions);
    assert Optimize(regions, 1) == [];
    assert Optimize(regions, 0) == regions;
  }

  /** Smaller ones can: one large region tiled with a word that matches has more matches than the buffer has room. */
  lemma SmallerOverfill(v: Value, word: seq<byte>, plan: seq<Region>)
    requires v.Valid() && Exact(v) && Matches(v, word) && v.Size() < 8
    requires plan == [Region(0, REGION_LARGE_SIZE, REGION_LARGE_SIZE)] && AllOrdered(plan)
    ensures TooMany(Tiled(word), v, plan)
  {
    TiledAnswer(v, word);
    MoreThanEighth(v.Size());
    hide FirstAnswer, Tiled, Exact;
    assert |FirstParts(Tiled(word), v, plan)[0]| > REGION_RESULTS_ALLOC_CAPS;
  }

  lemma MoreThanEighth(w: nat)
    requires 1 <= w < 8
    ensures REGION_LARGE_SIZE / w > REGION_RESULTS_ALLOC_CAPS
  {
    assert w == 1 || w == 2 || w == 3 || w == 4 || w == 5 || w == 6 || w == 7;
  }

  /** So first scans of an exact value that matches any word never overfill a buffer iff it has eight or more bytes. */
  lemma FirstScanRoom(v: Value)
    requires v.Valid() && Exact(v) && Matchable(v)
    ensures v.Size() >= 8 <==>
            forall proc: Process, regions: seq<Region> :: Listing(regions) ==> !TooMany(proc, v, Plan(regions))
  {
    if v.Size() >= 8 {
      forall proc: Process, regions: seq<Region> | Listing(regions) ensures !TooMany(proc, v, Plan(regions)) {
        EightBytesFit(proc, v, regions);
      }
    } else {
      var word :| Matches(v, word);
      LargeRegionPlan();
      SmallerOverfill(v, word, Plan([Region(0, REGION_LARGE_SIZE, REGION_LARGE_SIZE)]));
    }
  }

  /** The two strategies keep the same of `results`. */
  ghost predicate SameAnswer(mem: Memory, v: Value, results: seq<nat>)
    requires v.Valid()
  {
    DenseKept(Process(mem, 0), v, results) == SparseKept(mem, v, results)
  }

  /** Fully readable memory with `word` at address `x`. */
  ghost function Holding(x: nat, word: seq<byte>): Memory {
    Memory((a: nat) => if x <= a < x + |word| then word[a - x] else 0, (p: nat) => true)
  }

  lemma HoldingHolds(v: Value, x: nat, word: seq<byte>, results: seq<nat>)
    requires Matches(v, word)
    ensures HeldAt(Holding(x, word), v, x) && Settled(Holding(x, word), v, results)
  {
    var mem := Holding(x, word);
    forall a: nat ensures Whole(mem, a, v.Size()) {
      WholeReadable(mem, a, v.Size());
    }
    assert mem.Slice(x, v.Size()) == word;
  }

  /**
   What a caller can check beforehand: with clamped counts, the two strategies keep the same over every memory
   that leaves no stale slot in play if and only if every result is aligned for the value's type.
   */
  lemma StrategiesAgree(v: Value, results: seq<nat>)
    requires v.Valid() && Exact(v) && Matchable(v) && Ascending(results)
    ensures AllAligned(v, results) <==>
            forall mem: Memory :: Settled(mem, v, results) ==> SameAnswer(mem, v, results)
  {
    hide Exact, Settled, HeldAt, DenseKept, SparseKept;
    if AllAligned(v, results) {
      forall mem: Memory | Settled(mem, v, results) ensures SameAnswer(mem, v, results) {
        DenseIsFilter(Process(mem, 0), v, results);
        KeptReported(mem, v, results);
      }
    } else {
      var x :| x in results && x % v.Size() != 0;
      var word :| Matches(v, word);
      HoldingHolds(v, x, word, results);
      MisalignedSplits(Holding(x, word), v, results, x);
    }
  }

  /** A misaligned result that holds the value is kept by the sparse strategy only. */
  lemma MisalignedSplits(mem: Memory, v: Value, results: seq<nat>, x: nat)
    requires v.Valid() && Exact(v) && v.Aligned() && Ascending(results)
    requires x in results && x % v.Size() != 0 && HeldAt(mem, v, x)
    ensures x in SparseKept(mem, v, results) && x !in DenseKept(Process(mem, 0), v, results)
    ensures !SameAnswer(mem, v, results)
  {
    hide Exact, DenseKept, SparseKept;
    KeptReported(mem, v, results);
    KeptMembers(Process(mem, 0), v, results, x);
  }

  /** A zero Int32 over zero memory: the result at address 2 stays in a sparse scan and goes in a dense one. */
  lemma MisalignedResultSplits()
    ensures var mem := Memory((a: nat) => 0, (p: nat) => true);
            var v := Value(Int32, [0, 0, 0, 0], None);
            && v.Valid() && SparseKept(mem, v, [2]) == [2] && DenseKept(Process(mem, 0), v, [2]) == []
  {
    var mem := Memory((a: nat) => 0, (p: nat) => true);
    var v := Value(Int32, [0, 0, 0, 0], None);
    WholeReadable(mem, 2, 4);
    assert mem.Slice(2, 4) == [0, 0, 0, 0];
    assert v.Valid() && Exact(v) && HeldAt(mem, v, 2) && Settled(mem, v, [2]) && Ascending([2]);
    assert 2 % v.Size() != 0;
    hide *;
    OneMisaligned(mem, v, 2);
  }

  lemma OneMisaligned(mem: Memory, v: Value, x: nat)
    requires v.Valid() && Exact(v) && Settled(mem, v, [x]) && Ascending([x])
    requires x % v.Size() != 0 && v.Aligned() && HeldAt(mem, v, x)
    ensures SparseKept(mem, v, [x]) == [x] && DenseKept(Process(mem, 0), v, [x]) == []
  {
    hide DenseKept, SparseKept, HeldAt, Exact, Settled;
    KeptReported(mem, v, [x]);
    FilterOne(x, Held(mem, v));
    var dense := DenseKept(Process(mem, 0), v, [x]);
    if dense != [] {
      assert dense[0] in dense;
      KeptMembers(Process(mem, 0), v, [x], dense[0]);
      assert false;
    }
  }

  lemma FilterOne(x: nat, p: nat -> bool)
    ensures Filter([x], p) == if p(x) then [x] else []
  {
    assert [x][..0] == [];
  }

  /**
   The exact loss of the dense strategy with bare -1 counts: over aligned results it keeps what the sparse one
   keeps, less precisely the values cut off in front of unreadable memory of their span.
   */
  lemma DenseLosesExactlyCuts(proc: Process, v: Value, results: seq<nat>)
    requires v.Valid() && Exact(v) && Ascending(results) && AllAligned(v, results) && Settled(proc.mem, v, results)
    ensures forall x :: x in DenseKept(proc, v, results) ==> x in SparseKept(proc.mem, v, results)
    ensures forall x :: x in SparseKept(proc.mem, v, results) && x !in DenseKept(proc, v, results) <==>
                        x in results && HeldAt(proc.mem, v, x) && Cut(proc, v, results, x)
  {
    KeptReported(proc.mem, v, results);
    hide DenseKept, SparseKept, Exact, Cut, Settled;
    forall x ensures x in DenseKept(proc, v, results) <==>
                     x in results && HeldAt(proc.mem, v, x) && !Cut(proc, v, results, x) {
      KeptMembers(proc, v, results, x);
    }
  }

  /**
   An unreadable address compares equal for a rounded float whenever its range accepts the stale slot with the
   disturbing byte in front, and never for an exact value.
   */
  lemma StaleSlotVerdict(mem: Memory, v: Value, x: nat, stale: seq<byte>)
    requires v.Valid() && |stale| == v.Size() && !mem.Readable(x)
    ensures ReadSlot(mem, x, v.DisturbingByte(), stale) == [v.DisturbingByte()] + stale[1..]
    ensures var equal := v.EqualBytes(ReadSlot(mem, x, v.DisturbingByte(), stale));
            equal <==> v.HasOption() && v.EqualBytes([v.DisturbingByte()] + stale[1..])
  {
    WholeReadable(mem, x, v.Size());
    assert Transferred(mem, x, stale) == stale;
    if !v.HasOption() {
      DisturbedNeverEqual(v, ReadSlot(mem, x, v.DisturbingByte(), stale));
    }
  }

  lemma {:induction false} EqualMembers(v: Value, addresses: seq<nat>, slots: seq<seq<byte>>, n: nat, x: nat)
    requires n <= |addresses| && n <= |slots|
    ensures x in EqualSlots(v, addresses, slots, n) <==> exists j ::
              0 <= j < n && addresses[j] == x && v.EqualBytes(slots[j])
  {
    if n > 0 {
      EqualMembers(v, addresses, slots, n - 1, x);
    }
  }

  /** A result is kept exactly if the slot of its place in its share compares equal. */
  lemma KeptAt(mem: Memory, v: Value, results: seq<nat>, i: nat, p: nat)
    requires v.Valid() && Ascending(results) && i < ShareCount(|results|) && p < |Share(results, i)|
    ensures Share(results, i)[p] in SparseKept(mem, v, results) <==> v.EqualBytes(SlotOf(mem, v, Share(results, i), p))
  {
    var x, parts, share := Share(results, i)[p], SparseParts(mem, v, results), Share(results, i);
    hide Value.EqualBytes, SlotOf, SharesEnd;
    if v.EqualBytes(SlotOf(mem, v, share, p)) {
      EqualMembers(v, share, SlotsOf(mem, v, share), |share|, x);
      assert SlotsOf(mem, v, share)[p] == SlotOf(mem, v, share, p);
      assert x in parts[i];
    }
    if x in SparseKept(mem, v, results) {
      var j :| 0 <= j < |parts| && x in parts[j];
      var other := Share(results, j);
      EqualMembers(v, other, SlotsOf(mem, v, other), |other|, x);
      var q :| 0 <= q < |other| && other[q] == x && v.EqualBytes(SlotsOf(mem, v, other)[q]);
      SharePlaces(results, i, p, j, q);
      assert SlotsOf(mem, v, other)[q] == SlotOf(mem, v, other, q);
    }
  }

  /** The shares of an ascending list have no entry in common. */
  lemma SharePlaces(results: seq<nat>, i: nat, p: nat, j: nat, q: nat)
    requires Ascending(results) && i < ShareCount(|results|) && j < ShareCount(|results|)
    requires p < |Share(results, i)| && q < |Share(results, j)| && Share(results, i)[p] == Share(results, j)[q]
    ensures i == j && p == q
  {
    var k, l := SharesEnd(results, i) + p, SharesEnd(results, j) + q;
    assert results[k] == results[l];
    assert k == l;
  }

  /** The place of a result among the shares: 32768 to a share. */
  lemma ShareOf(results: seq<nat>, j: nat)
    requires j < |results|
    ensures j / 32768 < ShareCount(|results|) && j % 32768 < |Share(results, j / 32768)|
    ensures Share(results, j / 32768)[j % 32768] == results[j]
    ensures j % 32768 >= 1024 ==> Share(results, j / 32768)[j % 32768 - 1024] == results[j - 1024]
  {
  }

  /**
   When a result that cannot be read is kept: for a rounded float only, if the range accepts the complemented
   first byte followed by the rest of the slot, which is cleared for the first 1024 of each 32768 results and
   otherwise holds the word of the result 1024 before, if that could be read.
   */
  lemma UnreadableKept(mem: Memory, v: Value, results: seq<nat>, j: nat)
    requires v.Valid() && Ascending(results) && j < |results| && !mem.Readable(results[j])
    ensures var kept, rounded := results[j] in SparseKept(mem, v, results),
                                 v.rounding.Some? && (v.typ == Float32 || v.typ == Float64);
            && (kept ==> rounded)
            && (rounded && j % 32768 < 1024 ==>
                  (kept <==> v.rounding.value([255 - v.data[0]] + Zeros(|v.data| - 1))))
            && (rounded && j % 32768 >= 1024 && mem.ReadableRange(results[j - 1024], |v.data|) ==>
                  (kept <==> v.rounding.value([255 - v.data[0]] + mem.Slice(results[j - 1024], |v.data|)[1..])))
  {
    hide *;
    var i, p := j / 32768, j % 32768;
    ShareOf(results, j);
    KeptAt(mem, v, results, i, p);
    UnreadSlot(mem, v, Share(results, i), p);
    if p < 1024 {
      FirstStale(mem, v, Share(results, i), p);
    } else if mem.ReadableRange(results[j - 1024], |v.data|) {
      WholeStale(mem, v, Share(results, i), p, p - 1024);
    }
  }

  /** The comparison of an unreadable address's slot. */
  lemma UnreadSlot(mem: Memory, v: Value, addresses: seq<nat>, j: nat)
    requires v.Valid() && j < |addresses| && !mem.Readable(addresses[j])
    ensures v.EqualBytes(SlotOf(mem, v, addresses, j)) <==>
            && v.rounding.Some? && (v.typ == Float32 || v.typ == Float64)
            && v.rounding.value([255 - v.data[0]] + StaleOf(mem, v, addresses, j)[1..])
  {
    var stale := StaleOf(mem, v, addresses, j);
    assert SlotOf(mem, v, addresses, j) == ReadSlot(mem, addresses[j], v.DisturbingByte(), stale);
    hide SlotOf, StaleOf, ReadSlot;
    StaleSlotVerdict(mem, v, addresses[j], stale);
  }

  lemma FirstStale(mem: Memory, v: Value, addresses: seq<nat>, j: nat)
    requires v.Valid() && j < |addresses| && j < 1024
    ensures StaleOf(mem, v, addresses, j)[1..] == Zeros(|v.data| - 1)
  {
    assert StaleOf(mem, v, addresses, j) == Zeros(|v.data|);
    hide StaleOf;
  }

  lemma WholeStale(mem: Memory, v: Value, addresses: seq<nat>, j: nat, before: nat)
    requires v.Valid() && j < |addresses| && before == j - 1024 && mem.ReadableRange(addresses[before], |v.data|)
    ensures StaleOf(mem, v, addresses, j) == mem.Slice(addresses[before], |v.data|)
  {
    hide StaleOf, SlotOf;
    LaterStale(mem, v, addresses, j, before);
    WholeSlot(mem, v, addresses, before);
  }

  lemma WholeSlot(mem: Memory, v: Value, addresses: seq<nat>, j: nat)
    requires v.Valid() && j < |addresses| && mem.ReadableRange(addresses[j], |v.data|)
    ensures SlotOf(mem, v, addresses, j) == mem.Slice(addresses[j], |v.data|)
  {
    WholeReadable(mem, addresses[j], |v.data|);
  }

  /**
   When a sparse scan fails: for one-byte values and raw counts only, at an unreadable result that begins one of
   the batches of 1024 or follows another unreadable one.
   */
  lemma FailsExactlyWhen(proc: Process, v: Value, results: seq<nat>)
    requires v.Valid()
    ensures SparseJams(proc, results, v.Size(), |results|) <==>
            && proc.failCount < 0 && |v.data| == 1
            && exists i :: 0 <= i < |results| && UnreadableFirst(proc.mem, results, i)
  {
    if |v.data| == 1 {
      forall i | 0 <= i < |results|
        ensures Strands(proc.mem, results, 1, i) <==> UnreadableFirst(proc.mem, results, i)
      {
        StrandsAt(proc.mem, results, i);
      }
    }
    hide Strands, UnreadableFirst;
  }

  /** An unreadable result that begins a batch of 1024 or follows another one. */
  ghost predicate UnreadableFirst(mem: Memory, results: seq<nat>, i: nat)
    requires i < |results|
  {
    !mem.Readable(results[i]) && (i % 1024 == 0 || !mem.Readable(results[i - 1]))
  }

  lemma StrandsAt(mem: Memory, results: seq<nat>, i: nat)
    requires i < |results|
    ensures Strands(mem, results, 1, i) <==> UnreadableFirst(mem, results, i)
  {
    WholeReadable(mem, results[i], 1);
    if i > 0 {
      WholeReadable(mem, results[i - 1], 1);
    }
    hide Whole, Memory.Readable;
  }

  /** A sparse scan over this memory keeps an address that cannot be read. */
  ghost predicate KeepsUnreadable(mem: Memory, v: Value, results: seq<nat>, x: nat)
    requires v.Valid()
  {
    x in SparseKept(mem, v, results) && !mem.Readable(x)
  }

  /** A word with the disturbing byte in front that compares equal. */
  ghost predicate AcceptedDisturbed(v: Value, word: seq<byte>)
    requires v.Valid()
  {
    |word| == |v.data| && word[0] == 255 - v.data[0] && v.EqualBytes(word)
  }

  /** Over some memory a sparse scan keeps an unreadable address if and only if some disturbed word is accepted. */
  lemma SparseKeepsUnreadable(v: Value)
    requires v.Valid()
    ensures (exists mem: Memory, results: seq<nat>, x: nat :: Ascending(results) && KeepsUnreadable(mem, v, results, x))
            <==> exists word: seq<byte> :: AcceptedDisturbed(v, word)
  {
    if mem: Memory, results: seq<nat>, x: nat :| Ascending(results) && KeepsUnreadable(mem, v, results, x) {
      KeptWord(mem, v, results, x);
    }
    if word: seq<byte> :| AcceptedDisturbed(v, word) {
      StaleWitness(v, word);
    }
  }

  lemma KeptWord(mem: Memory, v: Value, results: seq<nat>, x: nat)
    requires v.Valid() && KeepsUnreadable(mem, v, results, x)
    ensures exists word: seq<byte> :: AcceptedDisturbed(v, word)
  {
    var parts := SparseParts(mem, v, results);
    var i :| 0 <= i < |parts| && x in parts[i];
    var share := Share(results, i);
    EqualMembers(v, share, SlotsOf(mem, v, share), |share|, x);
    var j :| 0 <= j < |share| && share[j] == x && v.EqualBytes(SlotsOf(mem, v, share)[j]);
    WholeReadable(mem, x, v.Size());
    assert SlotsOf(mem, v, share)[j] == SlotOf(mem, v, share, j);
    assert AcceptedDisturbed(v, SlotOf(mem, v, share, j));
  }

  /** 1025 addresses: the first leaves the word in its slot, the last one reuses the slot and cannot be read. */
  ghost function Reusing(): (results: seq<nat>)
    ensures |results| == IOV_MAX + 1 && forall j :: 0 <= j < |results| ==> results[j] == 8 * j
    ensures Ascending(results)
  {
    seq(IOV_MAX + 1, j requires 0 <= j < IOV_MAX + 1 => 8 * j)
  }

  ghost function Leaving(word: seq<byte>): Memory {
    Memory((a: nat) => if a < |word| then word[a] else 0, (p: nat) => p < 2)
  }

  lemma StaleWitness(v: Value, word: seq<byte>)
    requires v.Valid() && AcceptedDisturbed(v, word)
    ensures KeepsUnreadable(Leaving(word), v, Reusing(), 8192)
    ensures Ascending(Reusing())
  {
    var mem, results, w := Leaving(word), Reusing(), v.Size();
    if !v.HasOption() {
      DisturbedNeverEqual(v, word);
      assert false;
    }
    assert w <= 8;
    assert Share(results, 0) == results;
    WholeReadable(mem, 0, w);
    assert mem.Slice(0, w) == word;
    assert SlotOf(mem, v, results, 0) == word;
    assert results[IOV_MAX] == 8192;
    StaleSlotVerdict(mem, v, 8192, word);
    assert [v.DisturbingByte()] + word[1..] == word;
    assert SlotOf(mem, v, results, IOV_MAX) == word;
    EqualMembers(v, results, SlotsOf(mem, v, results), |results|, 8192);
    assert SlotsOf(mem, v, results)[IOV_MAX] == word;
    var parts := SparseParts(mem, v, results);
    assert 8192 in parts[0];
  }
}

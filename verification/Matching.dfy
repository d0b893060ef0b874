/** What it means for a word of memory to match, in terms of the value's type, bytes and rounding range alone. */
module Matching {
  import opened Kernel
  import opened Values
  import opened Sequences
  import opened Scanners
  import opened ScanTasks
  import opened SparseRead
  import opened SparseScan
  import opened ScanMeaning
  import opened Regions
  import opened DenseScans
  import opened Session
  import opened PlannedScans

  /** How many bytes a value of each type has; a byte pattern may have any positive number. */
  lemma TypeSizes(v: Value)
    requires v.Valid()
    ensures match v.typ
            case Bytes => |v.data| >= 1
            case Int8 => |v.data| == 1
            case Int16 => |v.data| == 2
            case Int32 => |v.data| == 4
            case Float32 => |v.data| == 4
            case Int64 => |v.data| == 8
            case Float64 => |v.data| == 8
    ensures v.Size() == |v.data|
  {
  }

  /** The word at `x` is in a rounded float's range, or for any other value equal to its bytes. */
  ghost predicate MatchesAt(mem: Memory, v: Value, x: nat) {
    var word := mem.Slice(x, |v.data|);
    if v.rounding.Some? && (v.typ == Float32 || v.typ == Float64) then v.rounding.value(word) else word == v.data
  }

  /** Every type but byte patterns is found at multiples of its size only. */
  ghost predicate Placed(v: Value, x: nat) {
    v.typ == Bytes || (v.data != [] && x % |v.data| == 0)
  }

  ghost predicate Mapped(mem: Memory) {
    forall p :: mem.mapped(p)
  }

  /** In readable memory, holding a value is matching. */
  lemma HeldIsMatch(mem: Memory, v: Value, x: nat)
    requires v.Valid() && Mapped(mem)
    ensures HeldAt(mem, v, x) <==> MatchesAt(mem, v, x)
    ensures AlignedHeldAt(mem, v, x) <==> MatchesAt(mem, v, x) && Placed(v, x)
  {
    WholeReadable(mem, x, v.Size());
  }

  /**
   A first scan of readable memory answers with exactly the matching places that lie entirely within one planned
   region: for a rounded float by its range, for every other value by its bytes.
   */
  lemma FirstScanMatches(proc: Process, v: Value, regions: seq<Region>, x: nat)
    requires v.Valid() && Exact(v) && Mapped(proc.mem) && Listing(regions)
    ensures x in Flatten(FirstParts(proc, v, Plan(regions))) <==>
            && LiesWithin(Plan(regions), |v.data|, x) && Placed(v, x)
            && if v.rounding.Some? && (v.typ == Float32 || v.typ == Float64)
               then v.rounding.value(proc.mem.Slice(x, |v.data|)) else proc.mem.Slice(x, |v.data|) == v.data
  {
    hide Listing, FirstParts, LiesWithin, Exact, HeldAt, AlignedHeldAt;
    ReadablePlaces(proc, v, Plan(regions), x);
    HeldIsMatch(proc.mem, v, x);
  }

  /** A complete dense scan of readable memory keeps exactly the matching results at multiples of the value's size. */
  lemma DenseScanMatches(proc: Process, v: Value, results: seq<nat>, x: nat)
    requires v.Valid() && Exact(v) && Mapped(proc.mem) && Ascending(results)
    ensures x in DenseKept(proc, v, results) <==>
            && x in results && Placed(v, x)
            && if v.rounding.Some? && (v.typ == Float32 || v.typ == Float64)
               then v.rounding.value(proc.mem.Slice(x, |v.data|)) else proc.mem.Slice(x, |v.data|) == v.data
  {
    hide DenseKept, Exact, HeldAt, AlignedHeldAt, Ascending;
    KeptMembers(proc, v, results, x);
    HeldIsMatch(proc.mem, v, x);
    NothingCutOff(proc, v, results, x);
  }

  lemma NothingCutOff(proc: Process, v: Value, results: seq<nat>, x: nat)
    requires v.Valid() && Mapped(proc.mem)
    ensures !Cut(proc, v, results, x)
  {
    hide SpansOf;
    forall i | 0 <= i < |SpansOf(v, results)| ensures !CutInSpan(proc, v, results, i, x) {
      assert proc.mem.Readable(x + v.Size());
    }
  }

  /** A complete sparse scan of readable memory keeps exactly the matching results, aligned or not. */
  lemma SparseScanMatches(mem: Memory, v: Value, results: seq<nat>, x: nat)
    requires v.Valid() && Mapped(mem) && Ascending(results)
    ensures x in SparseKept(mem, v, results) <==>
            && x in results
            && if v.rounding.Some? && (v.typ == Float32 || v.typ == Float64)
               then v.rounding.value(mem.Slice(x, |v.data|)) else mem.Slice(x, |v.data|) == v.data
  {
    AllSettled(mem, v, results);
    hide SparseKept, HeldAt, Ascending, Settled;
    KeptReported(mem, v, results);
    HeldIsMatch(mem, v, x);
  }

  lemma AllSettled(mem: Memory, v: Value, results: seq<nat>)
    requires Mapped(mem)
    ensures Settled(mem, v, results)
  {
    forall x | x in results ensures Whole(mem, x, v.Size()) {
      WholeReadable(mem, x, v.Size());
    }
  }
}

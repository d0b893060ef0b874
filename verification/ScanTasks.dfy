/** The scanning task of a first scan and of a dense next scan: one region, one private result buffer. */
module ScanTasks {
  import opened Arithmetic
  import opened Kernel
  import opened Values
  import opened Sequences
  import opened Streams
  import opened RegionReaders
  import opened MmapStore
  import opened VirtualRegions
  import opened Collectors
  import opened Scanners

  const REGION_RESULTS_ALLOC_CAPS: nat := REGION_LARGE_SIZE / 8

  /** What a scan runs against: the memory and the count its failing reads report. */
  datatype Process = Process(mem: Memory, failCount: FailCount)

  ghost function ScanStream(proc: Process, v: Value, start: nat, size: nat, expected: nat): Stream
    requires v.Valid()
  {
    Stream(proc.mem, proc.failCount, start, size, NewScannerBuffer(v, DEF_SCAN_BUFFER_SIZE), expected)
  }

  /** `x` is an address a scan of [start, start + size) has to report. */
  ghost predicate Hit(proc: Process, v: Value, start: nat, size: nat, expected: nat, x: nat)
    requires v.Valid()
  {
    start <= x && ScanStream(proc, v, start, size, expected).Reports(v, x - start)
  }

  /** The answer of a first scan of one region: no options, so the first unreadable page ends it. */
  ghost function FirstAnswer(proc: Process, v: Value, start: nat, size: nat): seq<nat>
    requires v.Valid()
  {
    Filter(Interval(start, start + size), (x: nat) => Hit(proc, v, start, size, 0, x))
  }

  /** The answer of a dense scan of one span: the listed addresses that hit, with page jumps enabled. */
  ghost function DenseAnswer(proc: Process, v: Value, start: nat, size: nat, addresses: seq<nat>): seq<nat>
    requires v.Valid()
  {
    Filter(addresses, (x: nat) => Hit(proc, v, start, size, size, x))
  }

  /** A slot is empty for no results; past capacity its cursor is out of bounds. */
  ghost predicate SlotHolds(slot: MmapUint64?, taken: seq<nat>)
    reads slot, if slot == null then {} else {slot.data}
  {
    if slot == null then taken == []
    else taken != [] && slot.cursor == |taken| && (slot.InBounds() ==> slot.Data() == taken)
  }

  /** The scan that feeds the collector, up to and including its last Put. */
  method Run(proc: Process, v: Value, start: nat, end: nat, region: VirtualRegion?, options: Option<nat>,
             buf: MmapUint64, ctx: Context)
    returns (ghost taken: seq<nat>, ghost seen: seq<nat>, ghost bound: int)
    requires v.Valid() && start <= end && start % PAGE_SIZE == 0 && buf.cursor == 0
    requires region != null ==> region.cursor == 0 && Ascending(region.addresses)
    modifies ctx`done, buf, buf.data, region
    ensures old(ctx.done) ==> ctx.done
    ensures buf.data == old(buf.data) && buf.cursor == |taken|
    ensures buf.InBounds() ==> buf.Data() == taken
    ensures Collected(taken, seen, start, if region == null then None else Some(region.addresses))
    ensures Answers(ScanStream(proc, v, start, end - start, options.GetOr(0)), v, seen, bound)
    ensures || ctx.done
            || bound >= end - start
            || (region != null && seen != [] && bound == seen[|seen| - 1] + 1
                && forall a :: a in region.addresses ==> a <= start + seen[|seen| - 1])
  {
    hide Answers, Collected;
    var bufSize := NewScannerBuffer(v, DEF_SCAN_BUFFER_SIZE);
    var reader := new RegionReader(proc.mem, proc.failCount, start, end);
    var collector := new Collector(start, region, buf);
    bound := ScanCollector(reader, bufSize, v, collector, options, ctx);
    seen := collector.Seen;
    taken := collector.writer.Taken;
    collector.writer.Flush();
  }

  method TaskFirstScan(proc: Process, v: Value, start: nat, end: nat, ctx: Context)
    returns (slot: MmapUint64?, ghost taken: seq<nat>)
    requires v.Valid() && start <= end && start % PAGE_SIZE == 0
    modifies ctx
    ensures old(ctx.done) ==> ctx.done
    ensures ctx.ended == old(ctx.ended) + if ctx.done then 0 else 1
    ensures SlotHolds(slot, taken) && Ascending(taken)
    ensures slot != null ==> fresh(slot) && fresh(slot.data) && slot.data.Length == REGION_RESULTS_ALLOC_CAPS
    ensures forall x :: x in taken ==> Hit(proc, v, start, end - start, 0, x)
    ensures taken <= FirstAnswer(proc, v, start, end - start)
    ensures !ctx.done ==> taken == FirstAnswer(proc, v, start, end - start)
  {
    var buf := new MmapUint64(REGION_RESULTS_ALLOC_CAPS);
    ghost var seen, bound;
    taken, seen, bound := Run(proc, v, start, end, null, None, buf, ctx);
    FirstTaken(proc, v, start, end - start, taken, seen, bound);
    ctx.ended := ctx.ended + if ctx.done then 0 else 1;
    slot := null;
    if buf.cursor > 0 {
      slot := buf;
    }
  }

  /** Stopped or not, the task has taken the first hits of its answer. */
  lemma FirstTaken(proc: Process, v: Value, start: nat, size: nat, taken: seq<nat>, seen: seq<nat>, bound: int)
    requires v.Valid()
    requires Collected(taken, seen, start, None)
    requires Answers(ScanStream(proc, v, start, size, 0), v, seen, bound)
    ensures Ascending(taken) && taken <= FirstAnswer(proc, v, start, size)
    ensures forall x :: x in taken ==> Hit(proc, v, start, size, 0, x)
    ensures bound >= size ==> taken == FirstAnswer(proc, v, start, size)
  {
    FilterAscending(Interval(start, start + size), (x: nat) => Hit(proc, v, start, size, 0, x));
    PrefixBelow(taken, FirstAnswer(proc, v, start, size), start + bound);
    if bound >= size {
      AscendingUnique(taken, FirstAnswer(proc, v, start, size));
    }
  }

  method TaskNextScanDense(proc: Process, v: Value, region: VirtualRegion, bufSize: nat, ctx: Context)
    returns (slot: MmapUint64?, ghost taken: seq<nat>)
    requires v.Valid() && region.start <= region.end && region.start % PAGE_SIZE == 0
    requires region.size == region.end - region.start
    requires region.cursor == 0 && Ascending(region.addresses)
    requires forall a :: a in region.addresses ==> region.start <= a < region.end
    modifies ctx, region
    ensures old(ctx.done) ==> ctx.done
    ensures ctx.ended == old(ctx.ended) + if ctx.done then 0 else 1
    ensures SlotHolds(slot, taken) && Ascending(taken)
    ensures slot != null ==> fresh(slot) && fresh(slot.data) && slot.data.Length == bufSize
    ensures forall x :: x in taken ==> x in region.addresses && Hit(proc, v, region.start, region.size, region.size, x)
    ensures taken <= DenseAnswer(proc, v, region.start, region.size, region.addresses)
    ensures !ctx.done ==> taken == DenseAnswer(proc, v, region.start, region.size, region.addresses)
  {
    var buf := new MmapUint64(bufSize);
    ghost var seen, bound;
    taken, seen, bound := Run(proc, v, region.start, region.end, region, Some(region.size), buf, ctx);
    DenseTaken(proc, v, region.start, region.size, region.addresses, taken, seen, bound);
    ctx.ended := ctx.ended + if ctx.done then 0 else 1;
    slot := null;
    if buf.cursor > 0 {
      slot := buf;
    }
  }

  /**
   Stopped or not, the task has taken the first hits of its answer. The scan may stop once every listed address
   is behind it: nothing listed is left to find.
   */
  lemma DenseTaken(proc: Process, v: Value, start: nat, size: nat, addresses: seq<nat>,
                   taken: seq<nat>, seen: seq<nat>, bound: int)
    requires v.Valid() && Ascending(addresses)
    requires forall a :: a in addresses ==> start <= a < start + size
    requires Collected(taken, seen, start, Some(addresses))
    requires Answers(ScanStream(proc, v, start, size, size), v, seen, bound)
    ensures Ascending(taken) && taken <= DenseAnswer(proc, v, start, size, addresses)
    ensures forall x :: x in taken ==> x in addresses && Hit(proc, v, start, size, size, x)
    ensures (forall a :: a in addresses ==> a < start + bound)
            ==> taken == DenseAnswer(proc, v, start, size, addresses)
  {
    FilterAscending(addresses, (x: nat) => Hit(proc, v, start, size, size, x));
    PrefixBelow(taken, DenseAnswer(proc, v, start, size, addresses), start + bound);
    if forall a :: a in addresses ==> a < start + bound {
      AscendingUnique(taken, DenseAnswer(proc, v, start, size, addresses));
    }
  }

  /** Values whose hits never outnumber the whole values a page-aligned region has room for. */
  ghost predicate Packs(v: Value) {
    v.Size() > 0 && (Exact(v) || PAGE_SIZE % v.Size() == 0)
  }

  /** A buffer of size / value-size entries never overflows for such a value. */
  lemma HitsFit(proc: Process, v: Value, start: nat, size: nat, expected: nat, taken: seq<nat>)
    requires v.Valid() && Packs(v) && start % PAGE_SIZE == 0 && size % PAGE_SIZE == 0 && Ascending(taken)
    requires forall x :: x in taken ==> Hit(proc, v, start, size, expected, x)
    ensures |taken| <= size / v.Size()
  {
    assert v.Aligned() ==> Exact(v);
    hide Hit, Exact, Ascending;
    if Exact(v) {
      ExactHitsFit(proc, v, start, size, expected, taken);
    } else {
      PackedHitsFit(proc, v, start, size, expected, taken);
    }
  }

  /** Hits of an exact value do not overlap. */
  lemma ExactHitsFit(proc: Process, v: Value, start: nat, size: nat, expected: nat, taken: seq<nat>)
    requires v.Valid() && Exact(v) && Ascending(taken)
    requires forall x :: x in taken ==> Hit(proc, v, start, size, expected, x)
    ensures |taken| <= size / v.Size()
  {
    hide Hit, Exact, Ascending;
    forall x, y | x in taken && y in taken && x < y ensures x + v.Size() <= y {
      HitsApart(proc, v, start, size, expected, x, y);
    }
    forall x | x in taken ensures start <= x && x + v.Size() <= start + size {
      HitInside(proc, v, start, size, expected, x);
    }
    SpacedCount(taken, start, start + size, v.Size());
  }

  /** The block of the region, one value long, in which the last byte of the value at `x` lies. */
  function BlockOf(start: nat, size: pos, x: nat): nat {
    if start <= x then (x - start + size - 1) / size else 0
  }

  /** Hits of a value that divides the page may overlap, but no two end in the same block. */
  lemma PackedHitsFit(proc: Process, v: Value, start: nat, size: nat, expected: nat, taken: seq<nat>)
    requires v.Valid() && !v.Aligned() && PAGE_SIZE % v.Size() == 0
    requires start % PAGE_SIZE == 0 && size % PAGE_SIZE == 0 && Ascending(taken)
    requires forall x :: x in taken ==> Hit(proc, v, start, size, expected, x)
    ensures |taken| <= size / v.Size()
  {
    hide Hit;
    var w := v.Size();
    var blocks := seq(|taken|, i requires 0 <= i < |taken| => BlockOf(start, w, taken[i]));
    forall i, j | 0 <= i < j < |blocks| ensures blocks[i] < blocks[j] {
      BlocksApart(proc, v, start, size, expected, taken[i], taken[j]);
    }
    forall i | 0 <= i < |blocks| ensures blocks[i] < size / w {
      HitInside(proc, v, start, size, expected, taken[i]);
      MultipleOfMultiple(size, PAGE_SIZE, w);
      LastBlock(taken[i] - start + w - 1, size, w);
    }
    SpacedCount(blocks, 0, size / w, 1);
  }

  lemma BlocksApart(proc: Process, v: Value, start: nat, size: nat, expected: nat, x: nat, y: nat)
    requires v.Valid() && !v.Aligned() && PAGE_SIZE % v.Size() == 0 && start % PAGE_SIZE == 0
    requires Hit(proc, v, start, size, expected, x) && Hit(proc, v, start, size, expected, y) && x < y
    ensures BlockOf(start, v.Size(), x) < BlockOf(start, v.Size(), y)
  {
    hide *;
    HitReports(proc, v, start, size, expected, x);
    HitReports(proc, v, start, size, expected, y);
    BlocksDiffer(ScanStream(proc, v, start, size, expected), v, start, x, y);
  }

  lemma HitReports(proc: Process, v: Value, start: nat, size: nat, expected: nat, x: nat)
    requires v.Valid() && Hit(proc, v, start, size, expected, x)
    ensures var s := ScanStream(proc, v, start, size, expected);
            && start <= x && s.start == start && s.Reports(v, x - start)
            && (!v.Aligned() && PAGE_SIZE % v.Size() == 0 ==> s.bufSize % v.Size() == 0)
  {
    if !v.Aligned() && PAGE_SIZE % v.Size() == 0 {
      BufferMultiple(v);
    }
    hide NewScannerBuffer, Stream.Reports;
  }

  lemma BlocksDiffer(s: Stream, v: Value, start: nat, x: nat, y: nat)
    requires v.Valid() && PAGE_SIZE % v.Size() == 0 && s.start == start && start % PAGE_SIZE == 0
    requires s.bufSize % v.Size() == 0 && start <= x < y && s.Reports(v, x - start) && s.Reports(v, y - start)
    ensures BlockOf(start, v.Size(), x) < BlockOf(start, v.Size(), y)
  {
    hide Stream.Reports;
    PlacesInBlocks(s, v, x - start, y - start);
  }

  lemma BufferMultiple(v: Value)
    requires v.Valid() && !v.Aligned() && PAGE_SIZE % v.Size() == 0
    ensures NewScannerBuffer(v, DEF_SCAN_BUFFER_SIZE) % v.Size() == 0
  {
    var w := v.Size();
    LargestDivisor(w);
    assert NewScannerBuffer(v, DEF_SCAN_BUFFER_SIZE) == DEF_SCAN_BUFFER_SIZE;
    MultipleOfMultiple(DEF_SCAN_BUFFER_SIZE, PAGE_SIZE, w);
  }

  lemma LargestDivisor(w: nat)
    requires w > 0 && PAGE_SIZE % w == 0
    ensures w <= PAGE_SIZE
  {
  }

  lemma PlacesInBlocks(s: Stream, v: Value, q: nat, o: nat)
    requires v.Valid() && PAGE_SIZE % v.Size() == 0 && s.start % PAGE_SIZE == 0 && s.bufSize % v.Size() == 0
    requires s.Reports(v, q) && s.Reports(v, o) && q < o
    ensures (q + v.Size() - 1) / v.Size() < (o + v.Size() - 1) / v.Size()
  {
    var w := v.Size();
    var e, f := q + w - 1, o + w - 1;
    Euclid(e, w);
    Euclid(f, w);
    DivBound(e / w, f, w);
    if f / w == e / w {
      RunAligned(s, v, o);
      var rs := s.RunStart(o);
      BehindRun(s, v, q, o);
      AddMultiple(rs, e - rs, w);
      AddMultiple(rs, f - rs, w);
      SameQuotient(e - rs, f - rs, w, s.bufSize);
      assert s.SameBuffer(v, q, o);
      assert false;
    }
  }

  /** A readable run starts at the region's start or at a page boundary. */
  lemma RunAligned(s: Stream, v: Value, o: nat)
    requires v.Valid() && PAGE_SIZE % v.Size() == 0 && s.start % PAGE_SIZE == 0 && s.Target(v, o)
    ensures s.RunStart(o) % v.Size() == 0
  {
    var rs := s.RunStart(o);
    assert s.Delivered(o);
    if rs > 0 {
      assert s.Readable(rs) && !s.Readable(rs - 1);
      hide Stream.RunStart, Stream.Target, Stream.Delivered;
      PageBoundary(s.start, rs);
    }
    hide *;
    MultipleOfMultiple(rs, PAGE_SIZE, v.Size());
  }

  lemma PageBoundary(start: nat, rs: nat)
    requires start % PAGE_SIZE == 0 && rs > 0 && (start + rs - 1) / PAGE_SIZE != (start + rs) / PAGE_SIZE
    ensures rs % PAGE_SIZE == 0
  {
  }

  /** A place that overlaps one of a run lies in the run. */
  lemma BehindRun(s: Stream, v: Value, q: nat, o: nat)
    requires v.Valid() && s.Target(v, q) && q < o < q + v.Size()
    ensures s.RunStart(o) <= q
  {
    var rs := s.RunStart(o);
    assert rs > 0 ==> !s.Readable(rs - 1);
    assert forall p :: q <= p < q + v.Size() ==> s.Delivered(p);
    assert rs > q ==> s.Delivered(rs - 1);
  }

  lemma HitInside(proc: Process, v: Value, start: nat, size: nat, expected: nat, x: nat)
    requires v.Valid() && Hit(proc, v, start, size, expected, x)
    ensures start <= x && x + v.Size() <= start + size
  {
  }

  lemma HitsApart(proc: Process, v: Value, start: nat, size: nat, expected: nat, x: nat, y: nat)
    requires v.Valid() && Exact(v) && Hit(proc, v, start, size, expected, x)
               && Hit(proc, v, start, size, expected, y) && x < y
    ensures x + v.Size() <= y
  {
    var s := ScanStream(proc, v, start, size, expected);
    PlacesApart(s, v, x - start, y - start);
  }

  lemma PlacesApart(s: Stream, v: Value, q: nat, o: nat)
    requires v.Valid() && Exact(v) && s.Target(v, q) && s.Target(v, o) && q < o
    ensures q + v.Size() <= o
  {
    if v.Aligned() {
      AlignedGap(q, o, v.Size());
    } else if o < q + v.Size() {
      s.OverlapIsBorder(v, q, o);
      assert false;
    }
  }
}

/** What the scanning tasks' answers mean in terms of the memory: the dense and the sparse strategy compared. */
module ScanMeaning {
  import opened Arithmetic
  import opened Kernel
  import opened Values
  import opened Streams
  import opened Scanners
  import opened ScanTasks
  import opened SparseRead
  import opened SparseScan

  /** The value lies at `x` in readable memory, at an address its type may have. */
  ghost predicate AlignedHeldAt(mem: Memory, v: Value, x: nat) {
    HeldAt(mem, v, x) && (v.Aligned() ==> v.Size() > 0 && x % v.Size() == 0)
  }

  lemma WholeReadable(mem: Memory, a: nat, size: nat)
    ensures Whole(mem, a, size) <==> mem.ReadableRange(a, size)
  {
    var r := mem.ReadablePrefix(a, size);
    if r < size {
      assert !mem.Readable(a + r);
    }
  }

  /** Offsets and addresses of an aligned type are aligned alike, because regions start at page boundaries. */
  lemma AlignmentShifts(v: Value, start: nat, x: nat)
    requires v.Valid() && v.Aligned() && start % PAGE_SIZE == 0 && start <= x
    ensures (x - start) % v.Size() == 0 <==> x % v.Size() == 0
  {
    var w := v.Size();
    AlignedInPage(v, 0);
    MultipleOfMultiple(start, PAGE_SIZE, w);
    ModAdd(start, x - start, w);
  }

  /** A hit is always a place that holds the value, whatever the failing reads report. */
  lemma HitHolds(proc: Process, v: Value, start: nat, size: nat, expected: nat, x: nat)
    requires v.Valid() && start % PAGE_SIZE == 0 && Hit(proc, v, start, size, expected, x)
    ensures AlignedHeldAt(proc.mem, v, x) && x + v.Size() <= start + size
  {
    var s := ScanStream(proc, v, start, size, expected);
    forall a | x <= a < x + v.Size() ensures proc.mem.Readable(a) {
      assert s.Delivered(a - start);
    }
    WholeReadable(proc.mem, x, v.Size());
    if v.Aligned() {
      AlignmentShifts(v, start, x);
    }
  }

  /** An unreadable page before a readable offset ends at or before that offset's page. */
  lemma PagesBefore(s: Stream, p: nat, o: nat)
    requires s.start % PAGE_SIZE == 0 && p <= o < s.size && !s.Readable(p) && s.Readable(o)
    ensures PageEnd(p) <= PageStart(o) <= o
  {
    if p / PAGE_SIZE == o / PAGE_SIZE {
      SamePage(s.start, p, o);
      assert false;
    }
  }

  lemma SamePage(start: nat, p: nat, o: nat)
    requires start % PAGE_SIZE == 0 && p / PAGE_SIZE == o / PAGE_SIZE
    ensures (start + p) / PAGE_SIZE == (start + o) / PAGE_SIZE
  {
  }

  /** With the region size as expectation every readable offset is reached. */
  lemma AllReached(s: Stream, o: nat)
    requires s.start % PAGE_SIZE == 0 && s.expected == s.size && o < s.size && s.Readable(o)
    ensures s.Reached(o)
  {
    forall p: nat | p <= o && p < s.size && !s.Readable(p) ensures PageEnd(p) < s.expected {
      PagesBefore(s, p, o);
    }
  }

  /** The value's last byte is the one a failing read takes off: an unreadable page follows inside a buffer. */
  ghost predicate CutOff(proc: Process, v: Value, start: nat, size: nat, x: nat)
    requires v.Valid() && start <= x
  {
    var s := ScanStream(proc, v, start, size, size);
    var end := x - start + v.Size();
    proc.failCount < 0 && end < size && !s.Readable(end) && (end - s.RunStart(end - 1)) % BufferFor(|v.data|) != 0
  }

  /** The bytes of a readable value are delivered unless its last one is cut off. */
  lemma DeliveredUnlessCut(proc: Process, v: Value, start: nat, size: nat, x: nat)
    requires v.Valid() && start <= x && x + v.Size() <= start + size
    requires proc.mem.ReadableRange(x, v.Size())
    ensures var s := ScanStream(proc, v, start, size, size);
            (forall p :: x - start <= p < x - start + v.Size() ==> s.Delivered(p)) <==> !CutOff(proc, v, start, size, x)
  {
    var s := ScanStream(proc, v, start, size, size);
    var o, end := x - start, x - start + v.Size();
    forall p | o <= p < end ensures s.Readable(p) {
      assert proc.mem.Readable(start + p);
    }
    var last := end - 1;
    assert last + 1 == end;
    LastDelivered(proc, v, start, size, x, last);
    forall p | o <= p < last ensures s.Delivered(p) {
      assert s.Readable(p + 1);
    }
    hide Stream.Delivered, CutOff, Stream.Readable;
  }

  lemma LastDelivered(proc: Process, v: Value, start: nat, size: nat, x: nat, last: nat)
    requires v.Valid() && start <= x && last + 1 == x - start + v.Size()
    requires ScanStream(proc, v, start, size, size).Readable(last)
    ensures ScanStream(proc, v, start, size, size).Delivered(last) <==> !CutOff(proc, v, start, size, x)
  {
    hide NewScannerBuffer, BufferFor, Stream.RunStart, Stream.Readable;
    DefaultBuffer(v);
  }

  /**
   The dense scan of a span finds an address that holds the value unless -1 counts cut the value's last byte
   off: exactly then it is missed.
   */
  lemma DenseFindsUnlessCut(proc: Process, v: Value, start: nat, size: nat, x: nat)
    requires v.Valid() && Exact(v) && start % PAGE_SIZE == 0
    requires start <= x && x + v.Size() <= start + size
    ensures Hit(proc, v, start, size, size, x) <==> AlignedHeldAt(proc.mem, v, x) && !CutOff(proc, v, start, size, x)
  {
    hide Stream.Delivered, Stream.Reached, CutOff, Memory.Readable, Stream.SameBuffer, Stream.RunStart;
    var s := ScanStream(proc, v, start, size, size);
    var w, o := v.Size(), x - start;
    ExactReports(s, v, o);
    hide Stream.Reports;
    WholeReadable(proc.mem, x, w);
    if Hit(proc, v, start, size, size, x) {
      HitHolds(proc, v, start, size, size, x);
    }
    if AlignedHeldAt(proc.mem, v, x) {
      DeliveredUnlessCut(proc, v, start, size, x);
      ReachedThere(s, o);
      if v.Aligned() {
        AlignmentShifts(v, start, x);
      }
      assert s.Holds(v, o) <==> !CutOff(proc, v, start, size, x);
    }
  }

  lemma ReachedThere(s: Stream, o: nat)
    requires s.start % PAGE_SIZE == 0 && s.expected == s.size && o < s.size && s.mem.Readable(s.start + o)
    ensures s.Reached(o)
  {
    AllReached(s, o);
  }

  /** A witness that -1 counts lose a match: a zero Int32 in the last word before an unreadable page. */
  lemma RawCountLosesMatch()
    ensures var proc := Process(Memory((a: nat) => 0, (p: nat) => p == 0), -1);
            var v := Value(Int32, [0, 0, 0, 0], None);
            && v.Valid() && HeldAt(proc.mem, v, 4092) && !Hit(proc, v, 0, 8192, 8192, 4092)
            && Hit(proc.(failCount := 0), v, 0, 8192, 8192, 4092)
  {
    var mem := Memory((a: nat) => 0, (p: nat) => p == 0);
    var proc := Process(mem, -1);
    var v := Value(Int32, [0, 0, 0, 0], None);
    WholeReadable(mem, 4092, 4);
    assert mem.Slice(4092, 4) == v.data;
    var s := ScanStream(proc, v, 0, 8192, 8192);
    assert s.bufSize == 65536;
    forall p | 0 <= p < 4095 ensures s.Readable(p) {}
    s.RunStartAt(0, 4095);
    assert CutOff(proc, v, 0, 8192, 4092);
    DenseFindsUnlessCut(proc, v, 0, 8192, 4092);
    DenseFindsUnlessCut(proc.(failCount := 0), v, 0, 8192, 4092);
  }

  /** Unreadable memory right behind the value, inside a buffer, makes a raw count take off its last byte. */
  ghost predicate FirstCutOff(proc: Process, v: Value, start: nat, size: nat, x: nat)
    requires v.Valid() && start <= x
  {
    var end := x - start + v.Size();
    && proc.failCount < 0 && end < size && !proc.mem.Readable(x + v.Size())
    && end % BufferFor(|v.data|) != 0
  }

  /** Without page jumps a place is reached exactly if everything before it can be read. */
  lemma ReachedInFront(s: Stream, v: Value, o: nat)
    requires v.Valid() && s.expected == 0 && o + v.Size() <= s.size
    requires s.mem.ReadableRange(s.start + o, v.Size())
    ensures s.Reached(o) <==> s.mem.ReadableRange(s.start, o + v.Size())
  {
    if s.Reached(o) {
      forall a | s.start <= a < s.start + o + v.Size() ensures s.mem.Readable(a) {
        var p: nat := a - s.start;
        assert p <= o ==> s.Readable(p);
      }
    }
    if s.mem.ReadableRange(s.start, o + v.Size()) {
      forall p: nat | p <= o ensures s.Readable(p) {
        assert s.mem.Readable(s.start + p);
      }
    }
  }

  /** In a run readable from the region's start the bytes of a value arrive unless its last one is cut off. */
  lemma DeliveredInFront(proc: Process, v: Value, start: nat, size: nat, x: nat)
    requires v.Valid() && start <= x && x + v.Size() <= start + size
    requires proc.mem.ReadableRange(start, x - start + v.Size())
    ensures var s := ScanStream(proc, v, start, size, 0);
            (forall p :: x - start <= p < x - start + v.Size() ==> s.Delivered(p)) <==>
                !FirstCutOff(proc, v, start, size, x)
  {
    DefaultBuffer(v);
    var s := ScanStream(proc, v, start, size, 0);
    var o, last := x - start, x - start + v.Size() - 1;
    forall p | 0 <= p <= last ensures s.Readable(p) {
      assert proc.mem.Readable(start + p);
    }
    s.RunStartAt(0, last);
    hide Stream.RunStart;
    forall p | o <= p < last ensures s.Delivered(p) {
      assert s.Readable(p + 1);
    }
    assert s.Delivered(last) <==> !FirstCutOff(proc, v, start, size, x);
    hide Stream.Delivered, FirstCutOff;
  }

  /**
   A first scan of a region finds a place of an exact value if and only if it holds the value, everything from
   the region's start through the value can be read, and no raw count takes its last byte off.
   */
  lemma FirstFindsUnlessCut(proc: Process, v: Value, start: nat, size: nat, x: nat)
    requires v.Valid() && Exact(v) && start % PAGE_SIZE == 0
    requires start <= x && x + v.Size() <= start + size
    ensures Hit(proc, v, start, size, 0, x) <==>
            && AlignedHeldAt(proc.mem, v, x) && proc.mem.ReadableRange(start, x - start + v.Size())
            && !FirstCutOff(proc, v, start, size, x)
  {
    hide Stream.Delivered, Stream.Reached, FirstCutOff;
    hide Memory.Readable, Memory.ReadableRange, Stream.SameBuffer, Stream.RunStart;
    var s := ScanStream(proc, v, start, size, 0);
    var w, o := v.Size(), x - start;
    ExactReports(s, v, o);
    hide Stream.Reports;
    WholeReadable(proc.mem, x, w);
    if Hit(proc, v, start, size, 0, x) {
      HitHolds(proc, v, start, size, 0, x);
    }
    if AlignedHeldAt(proc.mem, v, x) {
      if v.Aligned() {
        AlignmentShifts(v, start, x);
      }
      ReachedInFront(s, v, o);
      if proc.mem.ReadableRange(start, o + w) {
        DeliveredInFront(proc, v, start, size, x);
      }
    }
  }

  /** Over a fully readable region the first scan's hits are all places that hold the value. */
  lemma FirstFindsAll(proc: Process, v: Value, start: nat, size: nat, x: nat)
    requires v.Valid() && Exact(v) && start % PAGE_SIZE == 0 && proc.mem.ReadableRange(start, size)
    requires start <= x && x + v.Size() <= start + size
    ensures Hit(proc, v, start, size, 0, x) <==> AlignedHeldAt(proc.mem, v, x)
  {
    FirstFindsUnlessCut(proc, v, start, size, x);
    hide Hit, AlignedHeldAt, Exact;
  }

  /** An aligned value at an address inside a page-aligned region lies inside it entirely. */
  lemma FitsRegion(v: Value, start: nat, end: nat, x: nat)
    requires v.Valid() && v.Aligned() && x % v.Size() == 0
    requires end % PAGE_SIZE == 0 && start <= x < end
    ensures x + v.Size() <= end
  {
    AlignedInPage(v, x);
    if end < PageEnd(x) {
      AlignedGap(PageStart(x), end, PAGE_SIZE);
      assert false;
    }
  }
}

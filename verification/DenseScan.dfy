/** What a complete dense scan keeps of a result list, as a function of the memory, the value and the list. */
module DenseScans {
  import opened Kernel
  import opened Values
  import opened Sequences
  import opened VirtualRegions
  import opened Scanners
  import opened ScanTasks
  import opened SparseScan
  import opened ScanMeaning
  import opened TaskRuns

  ghost function SpansOf(v: Value, results: seq<nat>): seq<AddressSpan> {
    Grouped(results, v.Size(), |results|)
  }

  function SpanSize(span: AddressSpan): nat {
    if span.start <= span.end then span.end - span.start else 0
  }

  /** The results a span lists. */
  function SpanList(span: AddressSpan, results: seq<nat>): seq<nat> {
    if span.from <= span.to <= |results| then results[span.from..span.to] else []
  }

  /** What every span of a result list is: page-aligned memory that holds all of its listed values. */
  ghost predicate ProperSpan(v: Value, span: AddressSpan, results: seq<nat>) {
    && span.from < span.to <= |results| && span.start <= span.end && span.start % PAGE_SIZE == 0
    && SpanSize(span) % PAGE_SIZE == 0
    && Ascending(SpanList(span, results))
    && forall a :: a in SpanList(span, results) ==> span.start <= a && a + v.Size() <= span.start + SpanSize(span)
  }

  lemma SpanIsProper(v: Value, results: seq<nat>, i: nat)
    requires Ascending(results) && i < |SpansOf(v, results)|
    ensures ProperSpan(v, SpansOf(v, results)[i], results)
  {
    GroupedStretches(results, v.Size(), |results|);
    StretchIsProper(v, SpansOf(v, results), results, i);
    hide Stretches, Grouped, ProperSpan;
  }

  lemma StretchIsProper(v: Value, spans: seq<AddressSpan>, results: seq<nat>, i: nat)
    requires Ascending(results) && Stretches(spans, results, v.Size(), |results|) && i < |spans|
    ensures ProperSpan(v, spans[i], results)
  {
    hide Stretches;
    StretchBounds(spans, results, v.Size(), |results|, i);
    StretchAscending(results, spans[i].from, spans[i].to);
    AlignedDifference(spans[i].start, spans[i].end);
    hide Ascending;
  }

  lemma AlignedDifference(start: nat, end: nat)
    requires start <= end && start % PAGE_SIZE == 0 && end % PAGE_SIZE == 0
    ensures (end - start) % PAGE_SIZE == 0
  {
  }

  /** The answer of the dense task for one span of the given results. */
  ghost function SpanAnswer(proc: Process, v: Value, span: AddressSpan, results: seq<nat>): seq<nat>
    requires v.Valid()
  {
    DenseAnswer(proc, v, span.start, SpanSize(span), SpanList(span, results))
  }

  ghost function DenseParts(proc: Process, v: Value, results: seq<nat>): (parts: seq<seq<nat>>)
    requires v.Valid()
    ensures |parts| == |SpansOf(v, results)|
    ensures forall i :: 0 <= i < |parts| ==> parts[i] == SpanAnswer(proc, v, SpansOf(v, results)[i], results)
  {
    var spans := SpansOf(v, results);
    seq(|spans|, i requires 0 <= i < |spans| => SpanAnswer(proc, v, spans[i], results))
  }

  /** What a complete dense scan keeps. */
  ghost function DenseKept(proc: Process, v: Value, results: seq<nat>): seq<nat>
    requires v.Valid()
  {
    Flatten(DenseParts(proc, v, results))
  }

  /** The room of a span's buffer. */
  function SpanRoom(v: Value, span: AddressSpan): nat
    requires v.Valid()
  {
    SpanSize(span) / v.Size()
  }

  /** Some span has more hits than its task's buffer has room for. */
  ghost predicate DenseTooMany(proc: Process, v: Value, results: seq<nat>)
    requires v.Valid()
  {
    DenseTooManyBelow(proc, v, results, |SpansOf(v, results)|)
  }

  /** One of the first `k` does. */
  ghost predicate DenseTooManyBelow(proc: Process, v: Value, results: seq<nat>, k: nat)
    requires v.Valid() && k <= |SpansOf(v, results)|
  {
    exists i :: 0 <= i < k && |DenseParts(proc, v, results)[i]| > SpanRoom(v, SpansOf(v, results)[i])
  }

  /** A region that carries a span answers as the span does, into a buffer of the same room. */
  lemma RegionAnswer(proc: Process, v: Value, region: VirtualRegion, span: AddressSpan, results: seq<nat>,
                     taken: seq<nat>, complete: bool)
    requires v.Valid() && DenseTook(proc, v, region, taken, complete) && Spans(region, v.Size()) && Scannable(region)
    requires span.from <= span.to <= |results| && region.addresses == results[span.from..span.to]
    requires region.start == span.start && region.end == span.end
    ensures taken <= SpanAnswer(proc, v, span, results) && region.size == SpanSize(span)
    ensures complete ==> taken == SpanAnswer(proc, v, span, results)
  {
    hide Hit, DenseAnswer;
  }

  /** The answers of the dense tasks that ended are those of the spans, and the others begin them. */
  lemma TakenParts(proc: Process, v: Value, regions: seq<VirtualRegion>, results: seq<nat>,
                   takens: seq<seq<nat>>, k: nat)
    requires v.Valid() && Grouping(regions, results, v.Size())
    requires forall i :: 0 <= i < |regions| ==> Scannable(regions[i])
    requires DenseAllTook(proc, v, regions, takens, k)
    ensures |takens| == |regions| == |SpansOf(v, results)| && k <= |regions|
    ensures forall i :: 0 <= i < |regions| ==> takens[i] <= DenseParts(proc, v, results)[i]
    ensures forall i :: 0 <= i < k ==> takens[i] == DenseParts(proc, v, results)[i]
    ensures forall i :: k < i < |regions| ==> takens[i] == []
    ensures forall i :: 0 <= i < |regions| ==> regions[i].size == SpanSize(SpansOf(v, results)[i])
  {
    GroupingCarries(regions, results, v.Size());
    var spans := SpansOf(v, results);
    assert CarriesSpans(regions, spans, results);
    hide Scannable, DenseTook, Spans, SpanAnswer, SpanSize, SpansOf, Grouped;
    forall i | 0 <= i < |regions|
      ensures regions[i].size == SpanSize(spans[i]) && takens[i] <= SpanAnswer(proc, v, spans[i], results)
      ensures i < k ==> takens[i] == SpanAnswer(proc, v, spans[i], results)
    {
      assert DenseTook(proc, v, regions[i], takens[i], i < k);
      assert Spans(regions[i], v.Size());
      RegionAnswer(proc, v, regions[i], spans[i], results, takens[i], i < k);
    }
  }

  /** A listed address in front of whose span's unreadable memory a raw count takes the value's last byte. */
  ghost predicate CutInSpan(proc: Process, v: Value, results: seq<nat>, i: nat, x: nat)
    requires v.Valid() && i < |SpansOf(v, results)|
  {
    var span := SpansOf(v, results)[i];
    x in SpanList(span, results) && span.start <= x && CutOff(proc, v, span.start, SpanSize(span), x)
  }

  ghost predicate Cut(proc: Process, v: Value, results: seq<nat>, x: nat)
    requires v.Valid()
  {
    exists i :: 0 <= i < |SpansOf(v, results)| && CutInSpan(proc, v, results, i, x)
  }

  /** An address of a span is kept exactly if it holds the value and is not cut off there. */
  lemma PartMembers(proc: Process, v: Value, results: seq<nat>, i: nat, x: nat)
    requires v.Valid() && Exact(v) && Ascending(results) && i < |SpansOf(v, results)|
    ensures x in DenseParts(proc, v, results)[i] <==>
            x in SpanList(SpansOf(v, results)[i], results) && AlignedHeldAt(proc.mem, v, x)
                && !CutInSpan(proc, v, results, i, x)
  {
    var span := SpansOf(v, results)[i];
    SpanIsProper(v, results, i);
    hide Hit, AlignedHeldAt, CutOff, Exact, SpansOf, SpanList, SpanSize, Ascending;
    if x in SpanList(span, results) {
      DenseFindsUnlessCut(proc, v, span.start, SpanSize(span), x);
    }
    assert DenseParts(proc, v, results)[i] == SpanAnswer(proc, v, span, results);
    hide DenseParts;
  }

  /** Each result belongs to one span only. */
  lemma OneSpan(v: Value, results: seq<nat>, i: nat, j: nat, x: nat)
    requires Ascending(results) && i < |SpansOf(v, results)| && j < |SpansOf(v, results)|
    requires x in SpanList(SpansOf(v, results)[i], results) && x in SpanList(SpansOf(v, results)[j], results)
    ensures i == j
  {
    GroupedStretches(results, v.Size(), |results|);
    var spans := SpansOf(v, results);
    hide SpansOf, Grouped;
    if i < j {
      ListsApart(spans, results, v.Size(), i, j, x, x);
    } else if j < i {
      ListsApart(spans, results, v.Size(), j, i, x, x);
    }
  }

  lemma ListsApart(spans: seq<AddressSpan>, results: seq<nat>, valueSize: nat, i: nat, j: nat, x: nat, y: nat)
    requires Ascending(results) && Stretches(spans, results, valueSize, |results|) && i < j < |spans|
    requires x in SpanList(spans[i], results) && y in SpanList(spans[j], results)
    ensures x < y
  {
    assert spans[i].to <= spans[j].from;
    hide Stretches;
    var k := ListIndex(spans[i], results, x);
    var l := ListIndex(spans[j], results, y);
  }

  lemma ListIndex(span: AddressSpan, results: seq<nat>, x: nat) returns (k: nat)
    requires x in SpanList(span, results)
    ensures span.from <= k < span.to <= |results| && results[k] == x
  {
    var i :| 0 <= i < span.to - span.from && results[span.from..span.to][i] == x;
    k := span.from + i;
  }

  /** Every result is listed by a span. */
  lemma SpanOf(v: Value, results: seq<nat>, x: nat) returns (i: nat)
    requires x in results
    ensures i < |SpansOf(v, results)| && x in SpanList(SpansOf(v, results)[i], results)
  {
    GroupedStretches(results, v.Size(), |results|);
    var k :| 0 <= k < |results| && results[k] == x;
    i := StretchOf(SpansOf(v, results), results, v.Size(), |results|, k);
    var span := SpansOf(v, results)[i];
    assert span.to <= |results|;
    assert results[span.from..span.to][k - span.from] == x;
  }

  /**
   The exact result of a complete dense scan, for either kind of count: the results that hold the value at an
   address its type may have, less those whose last byte a raw count takes off in their span.
   */
  lemma KeptMembers(proc: Process, v: Value, results: seq<nat>, x: nat)
    requires v.Valid() && Exact(v) && Ascending(results)
    ensures x in DenseKept(proc, v, results) <==>
            x in results && AlignedHeldAt(proc.mem, v, x) && !Cut(proc, v, results, x)
  {
    hide AlignedHeldAt, SpansOf, SpanList, DenseParts, CutInSpan, Exact, Ascending;
    if x in results && AlignedHeldAt(proc.mem, v, x) && !Cut(proc, v, results, x) {
      var i := SpanOf(v, results, x);
      PartMembers(proc, v, results, i, x);
      assert x in DenseParts(proc, v, results)[i];
    }
    if x in DenseKept(proc, v, results) {
      var i :| 0 <= i < |DenseParts(proc, v, results)| && x in DenseParts(proc, v, results)[i];
      PartMembers(proc, v, results, i, x);
      SpanListed(SpansOf(v, results)[i], results, x);
      if Cut(proc, v, results, x) {
        var j :| 0 <= j < |SpansOf(v, results)| && CutInSpan(proc, v, results, j, x);
        CutListed(proc, v, results, j, x);
        OneSpan(v, results, i, j, x);
        assert false;
      }
    }
  }

  lemma SpanListed(span: AddressSpan, results: seq<nat>, x: nat)
    requires x in SpanList(span, results)
    ensures x in results
  {
  }

  lemma CutListed(proc: Process, v: Value, results: seq<nat>, i: nat, x: nat)
    requires v.Valid() && i < |SpansOf(v, results)| && CutInSpan(proc, v, results, i, x)
    ensures x in SpanList(SpansOf(v, results)[i], results)
    ensures proc.failCount < 0 && !proc.mem.Readable(x + v.Size())
  {
    hide SpansOf, SpanList, SpanSize;
  }

  /** A dense scan's answer is ascending. */
  lemma KeptAscending(proc: Process, v: Value, results: seq<nat>)
    requires v.Valid() && Ascending(results)
    ensures Ascending(DenseKept(proc, v, results))
  {
    var spans, parts := SpansOf(v, results), DenseParts(proc, v, results);
    GroupedStretches(results, v.Size(), |results|);
    assert Stretches(spans, results, v.Size(), |results|);
    hide SpansOf, SpanList, Stretches, Grouped;
    forall i | 0 <= i < |parts|
      ensures Ascending(parts[i]) && forall x :: x in parts[i] ==> x in SpanList(spans[i], results)
    {
      SpanIsProper(v, results, i);
      AnswerAscending(proc, v, spans[i], results);
    }
    forall i, j, x, y | 0 <= i < j < |parts| && x in parts[i] && y in parts[j] ensures x < y {
      ListsApart(spans, results, v.Size(), i, j, x, y);
    }
    hide DenseParts;
    FlattenAscending(parts);
  }

  lemma AnswerAscending(proc: Process, v: Value, span: AddressSpan, results: seq<nat>)
    requires v.Valid() && ProperSpan(v, span, results)
    ensures Ascending(SpanAnswer(proc, v, span, results))
    ensures forall x :: x in SpanAnswer(proc, v, span, results) ==>
                          x in SpanList(span, results) && Hit(proc, v, span.start, SpanSize(span), SpanSize(span), x)
  {
    hide Hit, SpanList, Ascending;
    FilterAscending(SpanList(span, results), (x: nat) => Hit(proc, v, span.start, SpanSize(span), SpanSize(span), x));
  }

  /** Every address is one the value's type may have. */
  ghost predicate AllAligned(v: Value, addresses: seq<nat>) {
    v.Aligned() ==> v.Size() > 0 && forall x :: x in addresses ==> x % v.Size() == 0
  }

  /** With clamped counts nothing is cut off: over aligned results the dense scan is the plain filter. */
  lemma DenseIsFilter(proc: Process, v: Value, results: seq<nat>)
    requires v.Valid() && Exact(v) && proc.failCount == 0 && AllAligned(v, results) && Ascending(results)
    ensures DenseKept(proc, v, results) == Filter(results, Held(proc.mem, v))
  {
    hide CutInSpan, DenseKept;
    forall x ensures x in DenseKept(proc, v, results) <==> x in results && HeldAt(proc.mem, v, x) {
      KeptMembers(proc, v, results, x);
      NothingCut(proc, v, results, x);
    }
    KeptAscending(proc, v, results);
    FilterAscending(results, Held(proc.mem, v));
    AscendingUnique(DenseKept(proc, v, results), Filter(results, Held(proc.mem, v)));
  }

  lemma NothingCut(proc: Process, v: Value, results: seq<nat>, x: nat)
    requires v.Valid() && proc.failCount == 0
    ensures !Cut(proc, v, results, x)
  {
    hide SpansOf;
  }

  /** The room of a buffer always suffices for values that do not overlap themselves, or that divide the page. */
  lemma PackedFits(proc: Process, v: Value, results: seq<nat>)
    requires v.Valid() && Packs(v) && Ascending(results)
    ensures !DenseTooMany(proc, v, results)
  {
    hide SpansOf, SpanAnswer, Packs, ProperSpan;
    forall i | 0 <= i < |SpansOf(v, results)|
      ensures |DenseParts(proc, v, results)[i]| <= SpanRoom(v, SpansOf(v, results)[i])
    {
      SpanIsProper(v, results, i);
      SpanFits(proc, v, SpansOf(v, results)[i], results);
    }
  }

  lemma SpanFits(proc: Process, v: Value, span: AddressSpan, results: seq<nat>)
    requires v.Valid() && Packs(v) && ProperSpan(v, span, results)
    ensures |SpanAnswer(proc, v, span, results)| <= SpanRoom(v, span)
  {
    AnswerAscending(proc, v, span, results);
    hide SpanAnswer, Packs, Hit, Ascending;
    HitsFit(proc, v, span.start, SpanSize(span), SpanSize(span), SpanAnswer(proc, v, span, results));
  }
}

/** Grouping of result addresses into page-aligned spans, and the cursor that intersects a scan with them. */
module VirtualRegions {
  import opened Kernel
  import opened Sequences

  const REGION_LARGE_SIZE: nat := PAGE_SIZE * 512

  /** slices.BinarySearch: the first position whose entry is not below `target`. */
  method BinarySearch(x: seq<nat>, target: nat) returns (i: nat, found: bool)
    requires Ascending(x)
    ensures i <= |x|
    ensures forall j :: 0 <= j < i ==> x[j] < target
    ensures forall j :: i <= j < |x| ==> target <= x[j]
    ensures found <==> i < |x| && x[i] == target
  {
    i := 0;
    var j := |x|;
    while i < j
      invariant i <= j <= |x|
      invariant forall k :: 0 <= k < i ==> x[k] < target
      invariant forall k :: j <= k < |x| ==> target <= x[k]
    {
      var h := (i + j) / 2;
      if x[h] < target {
        i := h + 1;
      } else {
        j := h;
      }
    }
    found := i < |x| && x[i] == target;
  }

  class VirtualRegion {
    const start: nat
    const end: nat
    const size: nat
    const addresses: seq<nat>
    var cursor: nat

    constructor (start: nat, end: nat, addresses: seq<nat>)
      requires start <= end
      ensures this.start == start && this.end == end && this.size == end - start
      ensures this.addresses == addresses && cursor == 0
    {
      this.start, this.end, this.size := start, end, end - start;
      this.addresses := addresses;
      cursor := 0;
    }

    /** The cursor splits the list at `last`: everything before it is at most `last`, the rest above. */
    ghost predicate SplitAt(last: nat)
      reads this
    {
      && cursor <= |addresses|
      && (forall j :: 0 <= j < cursor ==> addresses[j] <= last)
      && (forall j :: cursor <= j < |addresses| ==> last < addresses[j])
    }

    /** The state `Match` may be called in with `address`: the cursor has not passed any later address. */
    ghost predicate Ready(address: nat)
      reads this
    {
      cursor <= |addresses| && forall j :: 0 <= j < cursor ==> addresses[j] < address
    }

    method Match(address: nat) returns (matched: bool)
      requires Ascending(addresses) && Ready(address)
      modifies this`cursor
      ensures matched <==> address in addresses
      ensures SplitAt(address)
    {
      hide Ascending;
      if cursor >= |addresses| {
        return false;
      }
      if addresses[cursor] == address {
        CutAt(cursor, address);
        cursor := cursor + 1;
        return true;
      }
      if addresses[cursor] < address {
        TailAscending(cursor);
        var i, found := BinarySearch(addresses[cursor..], address);
        SearchedTail(cursor, i, address);
        cursor := cursor + i;
        CutAt(cursor, address);
        if found {
          cursor := cursor + 1;
          return true;
        }
        return false;
      }
      CutAt(cursor, address);
      return false;
    }

    /** If everything before `at` is below `address` and the entry at `at` is not, `at` is where it belongs. */
    lemma CutAt(at: nat, address: nat)
      requires Ascending(addresses) && at <= |addresses|
      requires forall j :: 0 <= j < at ==> addresses[j] < address
      requires at < |addresses| ==> address <= addresses[at]
      ensures address in addresses <==> at < |addresses| && addresses[at] == address
      ensures forall j :: at < j < |addresses| ==> address < addresses[j]
    {
    }

    lemma TailAscending(at: nat)
      requires Ascending(addresses) && at <= |addresses|
      ensures Ascending(addresses[at..])
    {
    }

    /** What a binary search of the tail from `from` says about the whole list. */
    lemma SearchedTail(from: nat, i: nat, address: nat)
      requires from + i <= |addresses|
      requires forall j :: 0 <= j < i ==> addresses[from..][j] < address
      requires i < |addresses| - from ==> address <= addresses[from..][i]
      requires forall j :: 0 <= j < from ==> addresses[j] < address
      ensures forall j :: 0 <= j < from + i ==> addresses[j] < address
      ensures i < |addresses| - from ==> addresses[from..][i] == addresses[from + i] && address <= addresses[from + i]
    {
      forall j | from <= j < from + i ensures addresses[j] < address {
        assert addresses[j] == addresses[from..][j - from];
      }
    }

    predicate IsFinished()
      reads this
    {
      cursor >= |addresses|
    }
  }

  ghost function Lists(regions: seq<VirtualRegion>): (ls: seq<seq<nat>>)
    ensures |ls| == |regions|
    ensures forall i :: 0 <= i < |ls| ==> ls[i] == regions[i].addresses
  {
    seq(|regions|, i requires 0 <= i < |regions| => regions[i].addresses)
  }

  /** A span around a nonempty address list, from the first address's page to the last value's page end. */
  ghost predicate Spans(r: VirtualRegion, valueSize: nat) {
    && r.addresses != []
    && r.start == PageStart(r.addresses[0])
    && r.end == PageRoundUp(r.addresses[|r.addresses| - 1] + valueSize)
    && r.size == r.end - r.start
    && (forall j :: 1 <= j < |r.addresses| ==> r.addresses[j] + valueSize - r.start <= REGION_LARGE_SIZE)
  }

  /** The spans list the addresses in order, and each starts only where the previous one could not grow. */
  ghost predicate Grouping(regions: seq<VirtualRegion>, addresses: seq<nat>, valueSize: nat) {
    && Flatten(Lists(regions)) == addresses
    && (forall i :: 0 <= i < |regions| ==> Spans(regions[i], valueSize))
    && (forall i :: 1 <= i < |regions| ==>
          regions[i].addresses[0] + valueSize - regions[i - 1].start > REGION_LARGE_SIZE)
  }

  lemma GroupingSnoc(regions: seq<VirtualRegion>, r: VirtualRegion, addresses: seq<nat>, valueSize: nat)
    requires Grouping(regions, addresses, valueSize) && Spans(r, valueSize)
    requires regions != [] ==>
               r.addresses[0] + valueSize - regions[|regions| - 1].start > REGION_LARGE_SIZE
    ensures Grouping(regions + [r], addresses + r.addresses, valueSize)
  {
    FlattenSnoc(Lists(regions), r.addresses);
    assert Lists(regions + [r]) == Lists(regions) + [r.addresses];
  }

  /** addresses[from..to] is a span in the making that starts at `start` and may still grow. */
  ghost predicate Open(addresses: seq<nat>, from: nat, to: nat, start: nat, valueSize: nat) {
    && from < to <= |addresses|
    && start == PageStart(addresses[from])
    && (forall j :: from < j < to ==> addresses[j] + valueSize - start <= REGION_LARGE_SIZE)
  }

  /** The spans built so far list addresses[..from], and `from` is where the last one could not grow. */
  ghost predicate Built(regions: seq<VirtualRegion>, addresses: seq<nat>, from: nat, valueSize: nat) {
    && from <= |addresses|
    && Grouping(regions, addresses[..from], valueSize)
    && (from < |addresses| && regions != [] ==>
          addresses[from] + valueSize - regions[|regions| - 1].start > REGION_LARGE_SIZE)
  }

  lemma BuiltNothing(addresses: seq<nat>, valueSize: nat)
    ensures Built([], addresses, 0, valueSize)
  {
    assert Lists([]) == [];
  }

  lemma BuiltAll(regions: seq<VirtualRegion>, addresses: seq<nat>, valueSize: nat)
    requires Built(regions, addresses, |addresses|, valueSize)
    ensures Grouping(regions, addresses, valueSize)
  {
    assert addresses[..|addresses|] == addresses;
  }

  /** Turns the open span addresses[from..to] into the next region. */
  method Close(regions: seq<VirtualRegion>, addresses: seq<nat>, from: nat, to: nat, start: nat, valueSize: nat)
    returns (r: VirtualRegion)
    requires Ascending(addresses) && Open(addresses, from, to, start, valueSize)
    requires Built(regions, addresses, from, valueSize)
    requires to < |addresses| ==> addresses[to] + valueSize - start > REGION_LARGE_SIZE
    ensures fresh(r) && r.cursor == 0
    ensures Built(regions + [r], addresses, to, valueSize)
  {
    var end := PageRoundUp(addresses[to - 1] + valueSize);
    assert start <= addresses[from] <= addresses[to - 1];
    r := new VirtualRegion(start, end, addresses[from..to]);
    GroupingSnoc(regions, r, addresses[..from], valueSize);
    assert addresses[..from] + addresses[from..to] == addresses[..to];
  }

  method BuildVirtualRegions(addresses: seq<nat>, valueSize: nat) returns (regions: seq<VirtualRegion>)
    requires Ascending(addresses)
    ensures Grouping(regions, addresses, valueSize)
    ensures forall i :: 0 <= i < |regions| ==> fresh(regions[i]) && regions[i].cursor == 0
    ensures forall i, j :: 0 <= i < j < |regions| ==> regions[i] != regions[j]
  {
    hide Grouping, Spans;
    regions := [];
    BuiltNothing(addresses, valueSize);
    if addresses == [] {
      BuiltAll(regions, addresses, valueSize);
      return;
    }
    var currentStartIdx := 0;
    var regionStartAddr := PageStart(addresses[0]);
    var i := 1;
    while i < |addresses|
      invariant Open(addresses, currentStartIdx, i, regionStartAddr, valueSize)
      invariant Built(regions, addresses, currentStartIdx, valueSize)
      invariant forall j :: 0 <= j < |regions| ==> fresh(regions[j]) && regions[j].cursor == 0
      invariant forall j, k :: 0 <= j < k < |regions| ==> regions[j] != regions[k]
    {
      var addr := addresses[i];
      if addr + valueSize - regionStartAddr > REGION_LARGE_SIZE {
        var region := Close(regions, addresses, currentStartIdx, i, regionStartAddr, valueSize);
        regions := regions + [region];
        currentStartIdx := i;
        regionStartAddr := PageStart(addr);
      }
      i := i + 1;
    }
    var region := Close(regions, addresses, currentStartIdx, |addresses|, regionStartAddr, valueSize);
    regions := regions + [region];
    BuiltAll(regions, addresses, valueSize);
  }

  /**
   A span is page-aligned, holds every one of its values entirely, and stays within the large-region
   size when rounded up, provided one value plus a page's slack fits.
   */
  lemma SpanBounds(r: VirtualRegion, valueSize: nat)
    requires Spans(r, valueSize) && Ascending(r.addresses)
    ensures r.start % PAGE_SIZE == 0 && r.end % PAGE_SIZE == 0 && r.size % PAGE_SIZE == 0
    ensures forall a :: a in r.addresses ==> r.start <= a && a + valueSize <= r.end
    ensures valueSize + (PAGE_SIZE - 1) <= REGION_LARGE_SIZE ==> r.size <= REGION_LARGE_SIZE
  {
    var last := |r.addresses| - 1;
    assert forall a :: a in r.addresses ==> r.addresses[0] <= a <= r.addresses[last];
  }

  /** A span as a value: which addresses it lists, and the memory it covers. */
  datatype AddressSpan = AddressSpan(from: nat, to: nat, start: nat, end: nat)

  /** The spans after one more address, the n-th: it joins the last span if its value fits. */
  ghost function Joined(spans: seq<AddressSpan>, a: nat, valueSize: nat, n: pos): (r: seq<AddressSpan>)
    ensures r != []
  {
    var last := |spans| - 1;
    if spans != [] && a + valueSize - spans[last].start <= REGION_LARGE_SIZE then
      spans[..last] + [AddressSpan(spans[last].from, n, spans[last].start, PageRoundUp(a + valueSize))]
    else
      spans + [AddressSpan(n - 1, n, PageStart(a), PageRoundUp(a + valueSize))]
  }

  /** The spans of the first `n` addresses. */
  ghost function Grouped(addresses: seq<nat>, valueSize: nat, n: nat): (spans: seq<AddressSpan>)
    requires n <= |addresses|
    ensures spans == [] <==> n == 0
  {
    if n == 0 then [] else Joined(Grouped(addresses, valueSize, n - 1), addresses[n - 1], valueSize, n)
  }

  /** The spans cut the first `n` addresses into consecutive nonempty stretches. */
  ghost predicate Stretches(spans: seq<AddressSpan>, addresses: seq<nat>, valueSize: nat, n: nat)
    requires n <= |addresses|
  {
    && (spans == [] <==> n == 0)
    && (spans != [] ==> spans[0].from == 0 && spans[|spans| - 1].to == n)
    && (forall i :: 0 <= i < |spans| ==>
          && spans[i].from < spans[i].to <= n
          && spans[i].start == PageStart(addresses[spans[i].from])
          && spans[i].end == PageRoundUp(addresses[spans[i].to - 1] + valueSize))
    && (forall i, j :: 0 <= i && j == i + 1 && j < |spans| ==> spans[i].to == spans[j].from)
    && (forall i, j :: 0 <= i < j < |spans| ==> spans[i].to <= spans[j].from)
  }

  lemma {:induction false} GroupedStretches(addresses: seq<nat>, valueSize: nat, n: nat)
    requires n <= |addresses|
    ensures Stretches(Grouped(addresses, valueSize, n), addresses, valueSize, n)
  {
    if n == 0 {
      return;
    }
    hide *;
    var m := n - 1;
    GroupedStretches(addresses, valueSize, m);
    StretchesNext(Grouped(addresses, valueSize, m), addresses, valueSize, m, n);
    GroupedNext(addresses, valueSize, m, n);
  }

  /**
   Where the first `n` addresses are divided: every value after a span's first ends at most 2 MiB behind the
   span's start, and the value that begins the next span would have ended beyond.
   */
  ghost predicate Divided(spans: seq<AddressSpan>, addresses: seq<nat>, valueSize: nat, n: nat)
    requires n <= |addresses|
  {
    && (forall i :: 0 <= i < |spans| ==> 0 <= spans[i].from < spans[i].to <= n)
    && (forall i, j :: 0 <= i < |spans| && spans[i].from < j < spans[i].to ==>
          addresses[j] + valueSize - spans[i].start <= 2097152)
    && (forall i, j :: 0 <= i && j == i + 1 && j < |spans| ==>
          addresses[spans[j].from] + valueSize - spans[i].start > 2097152)
  }

  lemma DividedNext(spans: seq<AddressSpan>, addresses: seq<nat>, valueSize: nat, m: nat, n: pos)
    requires n == m + 1 <= |addresses| && Divided(spans, addresses, valueSize, m)
    requires spans != [] ==> spans[|spans| - 1].to == m
    ensures Divided(Joined(spans, addresses[m], valueSize, n), addresses, valueSize, n)
  {
    hide PageStart, PageRoundUp;
  }

  lemma {:induction false} GroupedDivided(addresses: seq<nat>, valueSize: nat, n: nat)
    requires n <= |addresses|
    ensures Divided(Grouped(addresses, valueSize, n), addresses, valueSize, n)
  {
    if n == 0 {
      return;
    }
    hide *;
    var m := n - 1;
    GroupedDivided(addresses, valueSize, m);
    GroupedStretches(addresses, valueSize, m);
    LastEnds(Grouped(addresses, valueSize, m), addresses, valueSize, m);
    DividedNext(Grouped(addresses, valueSize, m), addresses, valueSize, m, n);
    GroupedNext(addresses, valueSize, m, n);
  }

  lemma LastEnds(spans: seq<AddressSpan>, addresses: seq<nat>, valueSize: nat, n: nat)
    requires n <= |addresses| && Stretches(spans, addresses, valueSize, n)
    ensures spans != [] ==> spans[|spans| - 1].to == n
  {
  }

  /** A span goes from the page of its first address to the page end of its last value. */
  ghost predicate Numbered(span: AddressSpan, addresses: seq<nat>, valueSize: nat) {
    && span.from < span.to <= |addresses|
    && span.start == addresses[span.from] / 4096 * 4096
    && span.end == (addresses[span.to - 1] + valueSize + 4095) / 4096 * 4096
  }

  /** The spans in numbers: consecutive stretches of whole pages, divided exactly where a span would exceed 2 MiB. */
  lemma SpansInNumbers(addresses: seq<nat>, valueSize: nat)
    ensures var spans := Grouped(addresses, valueSize, |addresses|);
            && (spans == [] <==> addresses == [])
            && (spans != [] ==> spans[0].from == 0 && spans[|spans| - 1].to == |addresses|)
            && (forall i :: 0 <= i < |spans| ==> Numbered(spans[i], addresses, valueSize))
            && (forall i, j :: 0 <= i && j == i + 1 && j < |spans| ==> spans[i].to == spans[j].from)
            && Divided(spans, addresses, valueSize, |addresses|)
  {
    hide Grouped, PageStart, PageRoundUp, Numbered, Divided;
    GroupedStretches(addresses, valueSize, |addresses|);
    GroupedDivided(addresses, valueSize, |addresses|);
    var spans := Grouped(addresses, valueSize, |addresses|);
    forall i | 0 <= i < |spans| ensures Numbered(spans[i], addresses, valueSize) {
      StretchNumbered(spans, addresses, valueSize, i);
    }
  }

  lemma StretchNumbered(spans: seq<AddressSpan>, addresses: seq<nat>, valueSize: nat, i: nat)
    requires Stretches(spans, addresses, valueSize, |addresses|) && i < |spans|
    ensures Numbered(spans[i], addresses, valueSize)
  {
    hide PageStart, PageRoundUp;
    PageNumbers(addresses[spans[i].from]);
    PageNumbers(addresses[spans[i].to - 1] + valueSize);
  }

  lemma PageNumbers(a: nat)
    ensures PageStart(a) == a / 4096 * 4096 && PageRoundUp(a) == (a + 4095) / 4096 * 4096
  {
  }

  lemma GroupedNext(addresses: seq<nat>, valueSize: nat, m: nat, n: pos)
    requires n == m + 1 <= |addresses|
    ensures Grouped(addresses, valueSize, n) == Joined(Grouped(addresses, valueSize, m), addresses[m], valueSize, n)
  {
    hide Joined;
  }

  lemma StretchesNext(spans: seq<AddressSpan>, addresses: seq<nat>, valueSize: nat, m: nat, n: pos)
    requires n == m + 1 <= |addresses| && Stretches(spans, addresses, valueSize, m)
    ensures Stretches(Joined(spans, addresses[m], valueSize, n), addresses, valueSize, n)
  {
    hide PageStart, PageRoundUp, Stretches;
    var last := |spans| - 1;
    if spans != [] && addresses[m] + valueSize - spans[last].start <= REGION_LARGE_SIZE {
      StretchesExtend(spans, addresses, valueSize, m, n);
    } else {
      StretchesSnoc(spans, addresses, valueSize, m, n);
    }
  }

  lemma StretchesExtend(spans: seq<AddressSpan>, addresses: seq<nat>, valueSize: nat, m: nat, n: pos)
    requires n == m + 1 <= |addresses| && Stretches(spans, addresses, valueSize, m) && spans != []
    ensures var last := |spans| - 1;
            Stretches(spans[..last]
                + [AddressSpan(spans[last].from, n, spans[last].start, PageRoundUp(addresses[m] + valueSize))],
                      addresses, valueSize, n)
  {
    hide PageStart, PageRoundUp;
  }

  lemma StretchesSnoc(spans: seq<AddressSpan>, addresses: seq<nat>, valueSize: nat, m: nat, n: pos)
    requires n == m + 1 <= |addresses| && Stretches(spans, addresses, valueSize, m)
    ensures Stretches(spans + [AddressSpan(m, n, PageStart(addresses[m]), PageRoundUp(addresses[m] + valueSize))],
                      addresses, valueSize, n)
  {
    hide PageStart, PageRoundUp;
  }

  /** Every address is listed by one of the spans. */
  lemma StretchOf(spans: seq<AddressSpan>, addresses: seq<nat>, valueSize: nat, n: nat, j: nat) returns (i: nat)
    requires j < n <= |addresses| && Stretches(spans, addresses, valueSize, n)
    ensures i < |spans| && spans[i].from <= j < spans[i].to
  {
    i := 0;
    while spans[i].to <= j
      invariant i < |spans| && spans[i].from <= j
      decreases |spans| - i
    {
      i := i + 1;
    }
  }

  /** A span is page-aligned, holds every one of its values entirely, and its start is not beyond its end. */
  lemma StretchBounds(spans: seq<AddressSpan>, addresses: seq<nat>, valueSize: nat, n: nat, i: nat)
    requires n <= |addresses| && Ascending(addresses) && Stretches(spans, addresses, valueSize, n) && i < |spans|
    ensures spans[i].from < spans[i].to <= |addresses|
    ensures spans[i].start % PAGE_SIZE == 0 && spans[i].end % PAGE_SIZE == 0 && spans[i].start <= spans[i].end
    ensures forall a :: a in addresses[spans[i].from..spans[i].to] ==>
                          spans[i].start <= a && a + valueSize <= spans[i].end
  {
    hide PageStart, PageRoundUp, Ascending;
    var sp := spans[i];
    assert sp.from < sp.to <= n && sp.start == PageStart(addresses[sp.from]);
    assert sp.end == PageRoundUp(addresses[sp.to - 1] + valueSize);
    hide Stretches;
    ListBounds(addresses, sp.from, sp.to);
    PageBounds(addresses[sp.from], addresses[sp.to - 1], valueSize);
  }

  lemma PageBounds(first: nat, last: nat, valueSize: nat)
    requires first <= last
    ensures PageStart(first) % PAGE_SIZE == 0 && PageStart(first) <= first
    ensures PageStart(first) <= PageRoundUp(last + valueSize) && PageRoundUp(last + valueSize) % PAGE_SIZE == 0
    ensures last + valueSize <= PageRoundUp(last + valueSize)
  {
  }

  lemma ListBounds(addresses: seq<nat>, from: nat, to: nat)
    requires Ascending(addresses) && from < to <= |addresses|
    ensures addresses[from] <= addresses[to - 1]
    ensures forall a :: a in addresses[from..to] ==> addresses[from] <= a <= addresses[to - 1]
  {
  }

  /** The regions carry exactly the spans. */
  ghost predicate CarriesSpans(regions: seq<VirtualRegion>, spans: seq<AddressSpan>, addresses: seq<nat>) {
    && |regions| == |spans|
    && forall i :: 0 <= i < |spans| ==>
         && spans[i].from <= spans[i].to <= |addresses|
         && regions[i].addresses == addresses[spans[i].from..spans[i].to]
         && regions[i].start == spans[i].start && regions[i].end == spans[i].end
  }

  /** Grouping only looks at the addresses grouped so far. */
  lemma {:induction false} GroupedPrefix(p: seq<nat>, q: seq<nat>, valueSize: nat, n: nat)
    requires n <= |p|
    ensures Grouped(p + q, valueSize, n) == Grouped(p, valueSize, n)
  {
    if n > 0 {
      var m := n - 1;
      GroupedPrefix(p, q, valueSize, m);
      assert (p + q)[m] == p[m];
      hide Joined;
    }
  }

  /** A last region's addresses extend the spans before it by one span. */
  lemma {:induction false} GroupedRegion(front: seq<AddressSpan>, addresses: seq<nat>, valueSize: nat, base: nat,
                                         r: VirtualRegion, k: nat)
    requires Spans(r, valueSize) && 1 <= k <= |r.addresses| && base + |r.addresses| == |addresses|
    requires addresses[base..] == r.addresses && front == Grouped(addresses, valueSize, base)
    requires front != [] ==> r.addresses[0] + valueSize - front[|front| - 1].start > REGION_LARGE_SIZE
    ensures Grouped(addresses, valueSize, base + k)
            == front + [AddressSpan(base, base + k, r.start, PageRoundUp(r.addresses[k - 1] + valueSize))]
  {
    hide PageStart, PageRoundUp, Grouped, Joined;
    var m, n := k - 1, base + k;
    assert r.addresses[m] == addresses[base..][m] == addresses[base + m];
    GroupedNext(addresses, valueSize, base + m, n);
    if k == 1 {
      JoinStarts(front, r.addresses[0], valueSize, n);
    } else {
      GroupedRegion(front, addresses, valueSize, base, r, m);
      var span := AddressSpan(base, base + m, r.start, PageRoundUp(r.addresses[m - 1] + valueSize));
      JoinGrows(front, span, r.addresses[m], valueSize, n);
    }
  }

  lemma JoinStarts(front: seq<AddressSpan>, a: nat, valueSize: nat, n: pos)
    requires front != [] ==> a + valueSize - front[|front| - 1].start > REGION_LARGE_SIZE
    ensures Joined(front, a, valueSize, n)
            == front + [AddressSpan(n - 1, n, PageStart(a), PageRoundUp(a + valueSize))]
  {
  }

  lemma JoinGrows(front: seq<AddressSpan>, span: AddressSpan, a: nat, valueSize: nat, n: pos)
    requires a + valueSize - span.start <= REGION_LARGE_SIZE
    ensures Joined(front + [span], a, valueSize, n)
            == front + [AddressSpan(span.from, n, span.start, PageRoundUp(a + valueSize))]
  {
    assert (front + [span])[..|front|] == front;
  }

  /** Regions that group the addresses carry exactly their spans. */
  lemma {:induction false} GroupingCarries(regions: seq<VirtualRegion>, addresses: seq<nat>, valueSize: nat)
    requires Grouping(regions, addresses, valueSize)
    ensures CarriesSpans(regions, Grouped(addresses, valueSize, |addresses|), addresses)
  {
    if regions == [] {
      assert Lists(regions) == [];
      return;
    }
    var last := |regions| - 1;
    var front, r := regions[..last], regions[last];
    assert regions == front + [r];
    GroupingSplit(front, r, addresses, valueSize);
    var before := Flatten(Lists(front));
    hide *;
    GroupingCarries(front, before, valueSize);
    GroupingStep(front, r, before, addresses, valueSize);
  }

  lemma GroupingStep(front: seq<VirtualRegion>, r: VirtualRegion, before: seq<nat>, addresses: seq<nat>, valueSize: nat)
    requires Grouping(front + [r], addresses, valueSize) && Spans(r, valueSize)
    requires addresses == before + r.addresses && addresses[|before|..] == r.addresses
    requires CarriesSpans(front, Grouped(before, valueSize, |before|), before)
    ensures CarriesSpans(front + [r], Grouped(addresses, valueSize, |addresses|), addresses)
  {
    hide *;
    var spans := Grouped(before, valueSize, |before|);
    GroupedPrefix(before, r.addresses, valueSize, |before|);
    SpanEndIs(r, valueSize);
    LastGap(front, r, spans, before, addresses, valueSize);
    GroupedWhole(spans, addresses, valueSize, |before|, r);
    CarriesNext(front, r, spans, before, addresses, valueSize);
  }

  lemma GroupedWhole(front: seq<AddressSpan>, addresses: seq<nat>, valueSize: nat, base: nat, r: VirtualRegion)
    requires Spans(r, valueSize) && r.addresses != [] && base + |r.addresses| == |addresses|
    requires addresses[base..] == r.addresses && front == Grouped(addresses, valueSize, base)
    requires front != [] ==> r.addresses[0] + valueSize - front[|front| - 1].start > REGION_LARGE_SIZE
    ensures Grouped(addresses, valueSize, |addresses|) == front + [AddressSpan(base, |addresses|, r.start, r.end)]
  {
    hide *;
    SpanEndIs(r, valueSize);
    GroupedRegion(front, addresses, valueSize, base, r, |r.addresses|);
  }

  lemma SpanEndIs(r: VirtualRegion, valueSize: nat)
    requires Spans(r, valueSize)
    ensures r.addresses != [] && r.end == PageRoundUp(r.addresses[|r.addresses| - 1] + valueSize)
  {
    hide PageRoundUp;
  }

  lemma GroupingSplit(front: seq<VirtualRegion>, r: VirtualRegion, addresses: seq<nat>, valueSize: nat)
    requires Grouping(front + [r], addresses, valueSize)
    ensures var before := Flatten(Lists(front));
            && Grouping(front, before, valueSize) && Spans(r, valueSize)
            && addresses == before + r.addresses && addresses[|before|..] == r.addresses
            && |addresses| == |before| + |r.addresses|
  {
    var regions := front + [r];
    assert Lists(regions)[..|front|] == Lists(front);
    assert regions[|front|] == r;
    assert forall i :: 0 <= i < |front| ==> regions[i] == front[i];
    hide Spans;
  }

  /** The last span starts where the last region does, and the next region begins beyond what it could take. */
  lemma LastGap(front: seq<VirtualRegion>, r: VirtualRegion, spans: seq<AddressSpan>, before: seq<nat>,
                addresses: seq<nat>, valueSize: nat)
    requires Grouping(front + [r], addresses, valueSize) && CarriesSpans(front, spans, before) && r.addresses != []
    ensures spans != [] ==> r.addresses[0] + valueSize - spans[|spans| - 1].start > REGION_LARGE_SIZE
  {
    var regions := front + [r];
    assert regions[|front|] == r;
    if spans != [] {
      assert regions[|front| - 1] == front[|front| - 1];
    }
    hide Spans;
  }

  lemma CarriesNext(front: seq<VirtualRegion>, r: VirtualRegion, spans: seq<AddressSpan>, before: seq<nat>,
                    addresses: seq<nat>, valueSize: nat)
    requires CarriesSpans(front, spans, before) && addresses == before + r.addresses && Spans(r, valueSize)
    ensures CarriesSpans(front + [r], spans + [AddressSpan(|before|, |addresses|, r.start, r.end)], addresses)
  {
    forall i | 0 <= i < |spans| ensures addresses[spans[i].from..spans[i].to] == before[spans[i].from..spans[i].to] {
    }
  }
}

/** A pattern that overlaps itself can have more hits than a dense task's buffer has room for. */
module Overlap {
  import opened Kernel
  import opened Values
  import opened Sequences
  import opened Streams
  import opened VirtualRegions
  import opened Scanners
  import opened ScanTasks
  import opened DenseScans
  import opened Session

  const BUFFER: nat := 65536

  /** Memory full of one byte. */
  const UNIFORM: Process := Process(Memory((a: nat) => 97, (p: nat) => true), 0)

  const TRIPLE: Value := Value(Bytes, [97, 97, 97], None)

  /** As many results in a row as end with their three bytes at the end of two buffers. */
  ghost function Row(): (results: seq<nat>)
    ensures |results| == 2 * BUFFER - 2 && Ascending(results)
    ensures forall i :: 0 <= i < |results| ==> results[i] == i
  {
    seq(2 * BUFFER - 2, i requires 0 <= i < 2 * BUFFER - 2 => i)
  }

  /** All of them fall into one span of exactly two buffers. */
  lemma {:induction false} RowGrouped(n: nat)
    requires 1 <= n <= |Row()|
    ensures Grouped(Row(), 3, n) == [AddressSpan(0, n, 0, PageRoundUp(n + 2))]
  {
    var m := n - 1;
    assert Row()[m] == m;
    if n > 1 {
      RowGrouped(m);
      assert [AddressSpan(0, m, 0, PageRoundUp(m + 2))][..0] == [];
    }
    hide Row, PageRoundUp;
  }

  ghost function RowStream(): Stream {
    ScanStream(UNIFORM, TRIPLE, 0, 2 * BUFFER, 2 * BUFFER)
  }

  lemma EveryPlace(o: nat)
    requires o + 3 <= 2 * BUFFER
    ensures RowStream().Target(TRIPLE, o) && RowStream().RunStart(o) == 0
  {
    var s := RowStream();
    assert s.bufSize == BUFFER;
    forall p | 0 <= p < 2 * BUFFER ensures s.Readable(p) && s.Delivered(p) {
    }
    s.RunStartAt(0, o);
    assert UNIFORM.mem.Slice(o, 3) == TRIPLE.data;
  }

  /** The greedy search takes every third offset, and starts afresh with what is carried into the second buffer. */
  ghost predicate Third(o: nat) {
    if o < BUFFER - 2 then o % 3 == 0 else (o - (BUFFER - 2)) % 3 == 0
  }

  /** Only the carried bytes separate the offsets that end in the first buffer from the rest. */
  ghost predicate Together(q: nat, o: nat) {
    o < BUFFER - 2 || q >= BUFFER - 2
  }

  lemma SameHere(q: nat, o: nat)
    requires q < o < q + 3 && o + 3 <= 2 * BUFFER
    ensures RowStream().SameBuffer(TRIPLE, q, o) <==> Together(q, o)
  {
    var s := RowStream();
    EveryPlace(o);
    assert s.bufSize == BUFFER && TRIPLE.Size() == 3;
    hide Stream.RunStart, RowStream, Stream.Target;
    assert s.SameBuffer(TRIPLE, q, o) <==> (q + 2) / BUFFER == (o + 2) / BUFFER;
  }

  lemma ThirdRule(o: nat)
    ensures Third(o) <==> forall q: nat | o - 3 < q < o :: Third(q) ==> !Together(q, o)
  {
    if !Third(o) {
      var first: nat := if o < BUFFER - 2 then 0 else BUFFER - 2;
      var q: nat := o - (o - first) % 3;
      assert (q - first) % 3 == 0;
      assert Third(q) && Together(q, o);
    }
  }

  lemma {:induction false} ThirdsReported(o: nat)
    requires o + 3 <= 2 * BUFFER
    ensures RowStream().Reports(TRIPLE, o) <==> Third(o)
    decreases o
  {
    EveryPlace(o);
    ThirdRule(o);
    hide Stream.Target, Stream.RunStart, Stream.SameBuffer, RowStream, Third, Together;
    forall q: nat | o - 3 < q < o
      ensures RowStream().Reports(TRIPLE, q) <==> Third(q)
      ensures RowStream().SameBuffer(TRIPLE, q, o) <==> Together(q, o)
    {
      ThirdsReported(q);
      SameHere(q, o);
    }
    GreedyRule(RowStream(), TRIPLE, o);
  }

  /** The rule for what is reported, at a place of the value. */
  lemma GreedyRule(s: Stream, v: Value, o: nat)
    requires s.Target(v, o)
    ensures s.Reports(v, o) <==> forall q: nat | o - v.Size() < q < o :: s.Reports(v, q) ==> !s.SameBuffer(v, q, o)
  {
    hide Stream.Target, Stream.SameBuffer;
  }

  /** The offsets reported: 21845 with the first buffer, 21846 with the second. */
  ghost function Thirds(): (hits: seq<nat>)
    ensures |hits| == 43691 && Ascending(hits)
    ensures forall x :: x in hits ==> x + 3 <= 2 * BUFFER && Third(x)
  {
    seq(43691, k requires 0 <= k < 43691 => if k < 21845 then 3 * k else BUFFER - 2 + 3 * (k - 21845))
  }

  lemma TripleOverlaps()
    ensures TRIPLE.Valid() && !Exact(TRIPLE)
  {
    assert TRIPLE.data[1..] == TRIPLE.data[..2];
  }

  lemma RowSpans()
    ensures SpansOf(TRIPLE, Row()) == [AddressSpan(0, |Row()|, 0, 2 * BUFFER)]
  {
    RowGrouped(|Row()|);
    assert PageRoundUp(|Row()| + 2) == 2 * BUFFER;
    hide Row, Grouped, PageRoundUp;
  }

  /**
   A dense scan for a three-byte pattern of equal bytes over 131070 results in uniform memory has 43691 hits,
   and room for 43690: its merge panics.
   */
  lemma OverlapOverfills()
    ensures TRIPLE.Valid() && !Exact(TRIPLE) && Ascending(Row())
    ensures |Row()| > NEXT_SCAN_SPARSE_THRESHOLD
    ensures DenseTooMany(UNIFORM, TRIPLE, Row())
  {
    TripleOverlaps();
    RowSpans();
    hide Row, SpansOf, SpanAnswer, Exact;
    var span := SpansOf(TRIPLE, Row())[0];
    PartHolds(span);
    assert SpanRoom(TRIPLE, span) == 43690;
    assert DenseParts(UNIFORM, TRIPLE, Row())[0] == SpanAnswer(UNIFORM, TRIPLE, span, Row());
  }

  lemma PartHolds(span: AddressSpan)
    requires span == AddressSpan(0, |Row()|, 0, 2 * BUFFER)
    ensures |SpanAnswer(UNIFORM, TRIPLE, span, Row())| >= 43691
  {
    assert SpanList(span, Row()) == Row();
    var part := SpanAnswer(UNIFORM, TRIPLE, span, Row());
    FilterAscending(Row(), (x: nat) => Hit(UNIFORM, TRIPLE, 0, 2 * BUFFER, 2 * BUFFER, x));
    forall x | x in Thirds() ensures x in part {
      ThirdsReported(x);
      assert Row()[x] == x;
    }
    hide Thirds, Row;
    SubsetLength(Thirds(), part);
  }
}

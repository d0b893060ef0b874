/** Choosing and running a scanner, and what its answer means for a collector. */
module Scanners {
  import opened Arithmetic
  import opened Kernel
  import opened Values
  import opened Streams
  import opened RegionReaders
  import opened Collectors
  import opened ByteScan
  import opened FloatScan

  const DEF_SCAN_BUFFER_SIZE: nat := 65536

  function RoundUp(n: nat, m: pos): (r: nat)
    ensures n <= r < n + m && r % m == 0
  {
    Euclid(n + m - 1, m);
    ModUnique((n + m - 1) / m, 0, m);
    (n + m - 1) / m * m
  }

  /** What a scanner's buffer is a multiple of: four bytes, or for a rounded float eight words. */
  function BufferUnit(v: Value): pos {
    match v.typ
    case Float32 => if v.rounding.Some? then 32 else 4
    case Float64 => if v.rounding.Some? then 64 else 4
    case _ => 4
  }

  /**
   The buffer size a scanner works with: the least multiple of its unit with room for what was requested, or for
   one byte more than the value if that is longer. No word of a rounded float straddles two chunks.
   */
  function NewScannerBuffer(v: Value, requested: nat): (bufSize: pos)
    requires v.Valid()
    ensures var wanted := if requested < |v.data| then |v.data| + 1 else requested;
            bufSize % BufferUnit(v) == 0 && wanted <= bufSize < wanted + BufferUnit(v)
    ensures v.Size() <= bufSize && requested <= bufSize
    ensures v.HasOption() ==> bufSize % (LANES * v.Size()) == 0
  {
    var size := if requested < v.Size() then v.Size() + 1 else requested;
    if v.HasOption() then
      var vector := LANES * v.Size();
      if size < vector then vector else if size % vector != 0 then RoundUp(size, vector) else size
    else if size % 4 != 0 then RoundUp(size, 4)
    else size
  }

  /** How many bytes a scan asks for at a time: 65536, or for longer patterns their length and one more, by fours. */
  function BufferFor(size: nat): (bufSize: pos) {
    if size <= 65536 then 65536 else (size + 4) / 4 * 4
  }

  /** The default buffer of every fixed-size value and of every pattern up to that length is exactly 65536 bytes. */
  lemma DefaultBuffer(v: Value)
    requires v.Valid()
    ensures NewScannerBuffer(v, DEF_SCAN_BUFFER_SIZE) == BufferFor(|v.data|)
    ensures !v.typ.Bytes? || |v.data| <= 65536 ==> NewScannerBuffer(v, DEF_SCAN_BUFFER_SIZE) == 65536
    ensures |v.data| > 65536 ==>
              var bufSize := NewScannerBuffer(v, DEF_SCAN_BUFFER_SIZE);
              bufSize % 4 == 0 && |v.data| < bufSize <= |v.data| + 4
  {
  }

  /** Searches one region with the scanner the value asks for. */
  method ScanCollector(reader: RegionReader, bufSize: pos, v: Value, collector: Collector, options: Option<nat>,
                       ctx: Context)
    returns (ghost bound: int)
    requires v.Valid() && v.Size() <= bufSize && (v.HasOption() ==> bufSize % (LANES * v.Size()) == 0)
    requires reader.off == 0 && reader.start % PAGE_SIZE == 0
    requires collector.Valid() && collector.Seen == []
    modifies reader, ctx`done, collector.Repr()
    ensures collector.Valid() && (old(ctx.done) ==> ctx.done)
    ensures Answers(StreamOf(reader, bufSize, options), v, collector.Seen, bound)
    ensures || ctx.done
            || bound >= reader.size
            || (collector.Finished() && collector.Seen != [] && bound == collector.Seen[|collector.Seen| - 1] + 1)
  {
    hide Answers, Collector.Valid, Collector.Finished;
    if v.HasOption() {
      MultipleOfMultiple(bufSize, LANES * v.Size(), v.Size());
      bound := ScanFloatRounded(reader, bufSize, v, collector, options, ctx);
    } else {
      bound := ScanBytes(reader, bufSize, v, collector, options, ctx);
    }
  }

  /** Values whose every target is reported: aligned ones, and patterns that cannot overlap themselves. */
  ghost predicate Exact(v: Value) {
    v.Aligned() || v.BorderFree()
  }

  /** For an exact value the reported offsets below the bound are precisely the targets. */
  lemma ExactAnswers(s: Stream, v: Value, seen: seq<nat>, bound: int)
    requires v.Valid() && Exact(v) && Answers(s, v, seen, bound)
    ensures forall o: nat :: o in seen <==> s.Target(v, o) && o < bound
  {
    forall o: nat ensures s.Reports(v, o) <==> s.Target(v, o) {
      ExactReports(s, v, o);
    }
  }

  lemma ExactReports(s: Stream, v: Value, o: nat)
    requires v.Valid() && Exact(v)
    ensures s.Reports(v, o) <==> s.Target(v, o)
  {
    if v.Aligned() {
      s.AlignedReports(v, o);
    } else {
      s.BorderFreeReports(v, o);
    }
  }
}

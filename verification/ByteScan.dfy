/** The chunked byte search of `scanner.go`: carried bytes, alignment skips, page jumps. */
module ByteScan {
  import opened Arithmetic
  import opened Kernel
  import opened Values
  import opened Streams
  import opened ScanPosition
  import opened RegionReaders
  import opened Collectors

  ghost predicate OccursAt(window: seq<byte>, pattern: seq<byte>, p: nat) {
    p + |pattern| <= |window| && window[p..p + |pattern|] == pattern
  }

  /** No occurrence of the pattern starts in [from, to). */
  ghost predicate NoneIn(window: seq<byte>, pattern: seq<byte>, from: nat, to: int) {
    forall p: nat :: from <= p < to ==> !OccursAt(window, pattern, p)
  }

  /** The pattern occurs in the window at `p`, at a stream offset the value may have. */
  ghost predicate Wanted(v: Value, window: seq<byte>, chunkOffset: nat, p: nat) {
    && OccursAt(window, v.data, p)
    && (v.Aligned() ==> v.Size() > 0 && (chunkOffset + p) % v.Size() == 0)
  }

  /** bytes.Index over chunk[from..to): the distance to the first occurrence, or -1. */
  method Index(chunk: array<byte>, from: nat, to: nat, pattern: seq<byte>) returns (n: int)
    requires from <= to <= chunk.Length && pattern != []
    ensures n >= 0 ==> OccursAt(chunk[..to], pattern, from + n)
    ensures NoneIn(chunk[..to], pattern, from, if n >= 0 then from + n else to)
  {
    n := 0;
    while from + n + |pattern| <= to
      invariant 0 <= n
      invariant NoneIn(chunk[..to], pattern, from, from + n)
    {
      assert chunk[..to][from + n..from + n + |pattern|] == chunk[from + n..from + n + |pattern|];
      if chunk[from + n..from + n + |pattern|] == pattern {
        return;
      }
      n := n + 1;
    }
    n := -1;
  }

  /** Between a misaligned offset and the next multiple there is no multiple. */
  lemma SkipMisaligned(x: nat, y: nat, w: nat)
    requires w > 0 && x % w != 0 && x <= y < x + (w - x % w)
    ensures y % w != 0
  {
    Euclid(x, w);
    ModUnique(x / w, x % w + (y - x), w);
  }

  /** The greedy rule inside one window: a wanted occurrence that no taken one reaches into. */
  ghost predicate Takes(v: Value, window: seq<byte>, chunkOffset: nat, p: nat) {
    && Wanted(v, window, chunkOffset, p)
    && forall q: nat | p - v.Size() < q < p :: !Takes(v, window, chunkOffset, q)
  }

  /** What one window's search added: exactly what the greedy rule takes below `limit`. */
  ghost predicate Searched(v: Value, window: seq<byte>, chunkOffset: nat, added: seq<nat>, limit: int) {
    && (forall o :: o in added ==> chunkOffset <= o && o < limit && Takes(v, window, chunkOffset, o - chunkOffset))
    && (forall p: nat :: Takes(v, window, chunkOffset, p) && chunkOffset + p < limit ==> chunkOffset + p in added)
  }

  /** Nothing added reaches beyond position `i` of the window. */
  ghost predicate Clear(v: Value, chunkOffset: nat, added: seq<nat>, i: nat) {
    forall o :: o in added ==> o + v.Size() <= chunkOffset + i
  }

  /** The first occurrence at or after a clear position is taken. */
  lemma FirstIsTaken(v: Value, window: seq<byte>, chunkOffset: nat, added: seq<nat>, i: nat, pos: nat)
    requires v.Valid() && Searched(v, window, chunkOffset, added, chunkOffset + i) && Clear(v, chunkOffset, added, i)
    requires i <= pos && Wanted(v, window, chunkOffset, pos)
    requires NoneIn(window, v.data, i, pos)
    ensures Takes(v, window, chunkOffset, pos)
  {
    hide OccursAt;
    forall q: nat | pos - v.Size() < q < pos ensures !Takes(v, window, chunkOffset, q) {
      if q < i {
        assert Takes(v, window, chunkOffset, q) ==> chunkOffset + q in added;
      } else {
        assert !OccursAt(window, v.data, q);
      }
    }
  }

  /** Reporting the first occurrence at or after `i` settles everything up to its end. */
  lemma ReportSettles(v: Value, window: seq<byte>, chunkOffset: nat, added: seq<nat>, i: nat, pos: nat)
    requires v.Valid() && Searched(v, window, chunkOffset, added, chunkOffset + i) && Clear(v, chunkOffset, added, i)
    requires i <= pos && Wanted(v, window, chunkOffset, pos)
    requires NoneIn(window, v.data, i, pos)
    ensures Searched(v, window, chunkOffset, added + [chunkOffset + pos], chunkOffset + pos + 1)
    ensures Searched(v, window, chunkOffset, added + [chunkOffset + pos], chunkOffset + pos + v.Size())
    ensures Clear(v, chunkOffset, added + [chunkOffset + pos], pos + v.Size())
  {
    var o := chunkOffset + pos;
    var added' := added + [o];
    FirstIsTaken(v, window, chunkOffset, added, i, pos);
    assert forall q :: q in added' <==> q in added || q == o;
    hide OccursAt;
    forall p: nat | i <= p < pos + v.Size() && p != pos ensures !Takes(v, window, chunkOffset, p) {
      if p < pos {
        assert !OccursAt(window, v.data, p);
      }
    }
  }

  /** Skipping from a misaligned occurrence to the next aligned offset passes no wanted one. */
  lemma SkipSettles(v: Value, window: seq<byte>, chunkOffset: nat, added: seq<nat>, i: nat, pos: nat)
    requires v.Valid() && v.Aligned() && Searched(v, window, chunkOffset, added, chunkOffset + i)
    requires Clear(v, chunkOffset, added, i)
    requires i <= pos && (chunkOffset + pos) % v.Size() != 0
    requires NoneIn(window, v.data, i, pos)
    ensures var next := pos + (v.Size() - (chunkOffset + pos) % v.Size());
            Searched(v, window, chunkOffset, added, chunkOffset + next) && Clear(v, chunkOffset, added, next)
  {
    var skip := v.Size() - (chunkOffset + pos) % v.Size();
    forall p: nat | i <= p < pos + skip ensures !Takes(v, window, chunkOffset, p) {
      if p >= pos {
        SkipMisaligned(chunkOffset + pos, chunkOffset + p, v.Size());
      }
    }
  }

  lemma NothingSearched(v: Value, window: seq<byte>, chunkOffset: nat)
    ensures Searched(v, window, chunkOffset, [], chunkOffset)
    ensures Clear(v, chunkOffset, [], 0)
  {
  }

  lemma LastBelow(v: Value, window: seq<byte>, chunkOffset: nat, added: seq<nat>, limit: int)
    requires Searched(v, window, chunkOffset, added, limit)
    ensures added != [] ==> added[|added| - 1] < limit
  {
    if added != [] {
      assert added[|added| - 1] in added;
    }
  }

  lemma RestSettled(v: Value, window: seq<byte>, chunkOffset: nat, added: seq<nat>, i: nat)
    requires v.Valid() && Searched(v, window, chunkOffset, added, chunkOffset + i)
    requires NoneIn(window, v.data, i, |window|)
    ensures Searched(v, window, chunkOffset, added, chunkOffset + Max(0, |window| - v.Size() + 1))
  {
  }

  /** The inner search loop over one window of chunk[..len]. */
  method SearchWindow(chunk: array<byte>, len: nat, chunkOffset: nat, v: Value, collector: Collector)
    returns (stopped: bool, ghost added: seq<nat>)
    requires len <= chunk.Length && v.Valid() && !v.HasOption()
    requires collector.Valid()
    requires collector.Seen != [] ==> collector.Seen[|collector.Seen| - 1] < chunkOffset
    modifies collector.Repr()
    ensures chunk[..] == old(chunk[..])
    ensures collector.Valid()
    ensures collector.Seen == old(collector.Seen) + added
    ensures !stopped ==> Searched(v, chunk[..len], chunkOffset, added, chunkOffset + Max(0, len - v.Size() + 1))
    ensures stopped ==> collector.Finished() && added != []
                        && Searched(v, chunk[..len], chunkOffset, added, added[|added| - 1] + 1)
  {
    hide Searched, Clear, NoneIn, Collector.Valid, Collector.Finished, OccursAt;
    var size := v.Size();
    ghost var window := chunk[..len];
    added := [];
    NothingSearched(v, window, chunkOffset);
    stopped := false;
    var i := 0;
    while true
      invariant 0 <= i <= len
      invariant chunk[..] == old(chunk[..])
      invariant collector.Valid()
      invariant collector.Seen == old(collector.Seen) + added
      invariant Searched(v, window, chunkOffset, added, chunkOffset + i) && Clear(v, chunkOffset, added, i)
      decreases len - i
    {
      var n := Index(chunk, i, len, v.data);
      if n < 0 {
        RestSettled(v, window, chunkOffset, added, i);
        break;
      }
      var pos := i + n;
      var finalIndex := chunkOffset + pos;
      if !v.Aligned() || finalIndex % size == 0 {
        ReportSettles(v, window, chunkOffset, added, i, pos);
        LastBelow(v, window, chunkOffset, added, chunkOffset + i);
        var more := collector.Collect(finalIndex);
        added := added + [finalIndex];
        if !more {
          return true, added;
        }
        i := pos + size;
      } else {
        SkipSettles(v, window, chunkOffset, added, i, pos);
        i := pos + (size - finalIndex % size);
      }
    }
  }

  /** The window is the carried bytes followed by the bytes just read, as they lie in the region. */
  ghost predicate Windowed(s: Stream, window: seq<byte>, offset: nat, carried: nat, k: nat) {
    && carried <= offset
    && |window| == carried + Backward(s, offset, k)
    && (forall j :: 0 <= j < |window| ==> window[j] == s.mem.bytes(s.start + (offset - carried) + j))
  }

  /** As many bytes are carried as a value cut off at the end of the last buffer could need. */
  ghost predicate Carries(v: Value, offset: nat, rs: nat, carried: nat) {
    rs <= offset && carried == Min(v.Size() - 1, offset - rs)
  }

  /** Inside the window, wanted occurrences are exactly the targets. */
  lemma WindowTarget(s: Stream, v: Value, window: seq<byte>, offset: nat, rs: nat, carried: nat, k: nat, p: nat)
    requires v.Valid() && !v.HasOption()
    requires At(s, offset, rs) && Obtained(s, offset, k)
    requires Carries(v, offset, rs, carried) && Windowed(s, window, offset, carried, k)
    requires p + v.Size() <= |window|
    ensures Wanted(v, window, offset - carried, p) <==> s.Target(v, offset - carried + p)
  {
    var o := offset - carried + p;
    WindowDelivered(s, offset, rs, k);
    assert window[p..p + v.Size()] == s.mem.Slice(s.start + o, v.Size());
    assert forall q :: o <= q < o + v.Size() ==> s.Delivered(q);
    assert s.Delivered(o + v.Size() - 1);
    assert s.Reached(o);
  }

  /** What starts before the window and ends beyond the last read covers the byte before the resumption point. */
  lemma NoTargetBeforeWindow(s: Stream, v: Value, offset: nat, rs: nat, carried: nat, o: nat)
    requires v.Valid() && At(s, offset, rs) && Carries(v, offset, rs, carried)
    requires o < offset - carried && o + v.Size() > offset
    ensures !s.Target(v, o)
  {
    assert rs > 0 && o <= rs - 1 < o + v.Size();
    assert !s.Delivered(rs - 1);
  }

  /** A value whose last byte arrives with the read at `offset` ends in that read's buffer of the run from `rs`. */
  lemma BufferOf(s: Stream, offset: nat, rs: nat, k: nat, last: nat)
    requires At(s, offset, rs) && offset <= last < offset + k <= offset + s.bufSize
    ensures (last - rs) / s.bufSize == (offset - rs) / s.bufSize
    ensures last - rs >= 0
  {
    Euclid(offset - rs, s.bufSize);
    ModUnique((offset - rs) / s.bufSize, last - offset, s.bufSize);
  }

  /** The run of everything in the window starts where delivery last resumed. */
  lemma RunOfWindow(s: Stream, offset: nat, rs: nat, k: nat, o: nat)
    requires At(s, offset, rs) && Obtained(s, offset, k) && rs <= o < offset + k
    ensures s.RunStart(o) == rs
  {
    assert s.Readable(rs);
    s.RunStartAt(rs, o);
  }

  /** A reported place that reaches into the window and ends in its buffer lies in the window. */
  lemma ReporterInWindow(s: Stream, v: Value, offset: nat, rs: nat, carried: nat, k: nat, q: nat, o: nat)
    requires v.Valid() && At(s, offset, rs) && Obtained(s, offset, k) && Carries(v, offset, rs, carried)
    requires offset - carried <= o && o + v.Size() <= offset + k
    requires s.Reports(v, q) && q < o < q + v.Size() && s.SameBuffer(v, q, o)
    ensures offset - carried <= q
  {
    RunOfWindow(s, offset, rs, k, o);
    NotBeforeRun(s, v, offset, rs, q, o);
    var last, other := o + v.Size() - 1, q + v.Size() - 1;
    assert (other - rs) / s.bufSize == (last - rs) / s.bufSize;
    BufferOf(s, offset, rs, k, last);
    assert (offset - rs) % s.bufSize == 0;
    hide At, Obtained, Stream.Reports, Stream.SameBuffer;
    BufferStart(other - rs, offset - rs, s.bufSize);
  }

  lemma BufferStart(x: nat, y: nat, w: pos)
    requires y % w == 0 && x / w == y / w
    ensures x >= y
  {
    Euclid(x, w);
    Euclid(y, w);
  }

  /** A reported place that overlaps a place of the run does not start before the run. */
  lemma NotBeforeRun(s: Stream, v: Value, offset: nat, rs: nat, q: nat, o: nat)
    requires v.Valid() && At(s, offset, rs) && s.Reports(v, q) && q < o < q + v.Size() && rs <= o
    ensures rs <= q
  {
    assert s.Target(v, q);
    assert rs > 0 ==> !s.Delivered(rs - 1);
  }

  /** Occurrences of one window end in the same buffer. */
  lemma WindowSameBuffer(s: Stream, v: Value, offset: nat, rs: nat, carried: nat, k: nat, q: nat, o: nat)
    requires v.Valid() && At(s, offset, rs) && Obtained(s, offset, k) && Carries(v, offset, rs, carried)
    requires offset - carried <= q < o && o + v.Size() <= offset + k
    ensures s.SameBuffer(v, q, o)
  {
    RunOfWindow(s, offset, rs, k, o);
    BufferOf(s, offset, rs, k, o + v.Size() - 1);
    BufferOf(s, offset, rs, k, q + v.Size() - 1);
  }

  /** What the window's rule takes just before `p` is reported, and ends in the buffer that `o` ends in. */
  ghost predicate TakenReported(s: Stream, v: Value, window: seq<byte>, co: nat, p: nat, o: nat) {
    forall q: nat | p - v.Size() < q < p ::
      Takes(v, window, co, q) ==> s.Reports(v, co + q) && s.SameBuffer(v, co + q, o)
  }

  /** What is reported just before `o` and ends in the same buffer is taken by the window's rule. */
  ghost predicate ReportedTaken(s: Stream, v: Value, window: seq<byte>, co: nat, p: nat, o: nat) {
    forall x: nat | o - v.Size() < x < o && s.Reports(v, x) && s.SameBuffer(v, x, o) ::
      co <= x && Takes(v, window, co, x - co)
  }

  /** Inside the window, the greedy rule takes exactly what is to be reported. */
  lemma {:induction false} WindowReports(s: Stream, v: Value, window: seq<byte>, offset: nat, rs: nat, carried: nat,
                                         k: nat, p: nat)
    requires v.Valid() && !v.HasOption()
    requires At(s, offset, rs) && Obtained(s, offset, k)
    requires Carries(v, offset, rs, carried) && Windowed(s, window, offset, carried, k)
    requires p + v.Size() <= |window|
    ensures Takes(v, window, offset - carried, p) <==> s.Reports(v, offset - carried + p)
    decreases p, 1
  {
    hide *;
    WindowTarget(s, v, window, offset, rs, carried, k, p);
    TakenBefore(s, v, window, offset, rs, carried, k, p);
    ReportedBefore(s, v, window, offset, rs, carried, k, p);
    SameRule(s, v, window, offset - carried, p, offset - carried + p);
  }

  lemma {:induction false} TakenBefore(s: Stream, v: Value, window: seq<byte>, offset: nat, rs: nat, carried: nat,
                                       k: nat, p: nat)
    requires v.Valid() && !v.HasOption()
    requires At(s, offset, rs) && Obtained(s, offset, k)
    requires Carries(v, offset, rs, carried) && Windowed(s, window, offset, carried, k)
    requires p + v.Size() <= |window|
    ensures carried <= offset && TakenReported(s, v, window, offset - carried, p, offset - carried + p)
    decreases p, 0
  {
    hide At, Obtained, Carries, Windowed, Takes, Stream.Reports, Stream.SameBuffer;
    WindowFits(s, v, window, offset, rs, carried, k);
    var co: nat := offset - carried;
    forall q: nat | p - v.Size() < q < p
      ensures Takes(v, window, co, q) ==> s.Reports(v, co + q) && s.SameBuffer(v, co + q, co + p)
    {
      WindowReports(s, v, window, offset, rs, carried, k, q);
      WindowSameBuffer(s, v, offset, rs, carried, k, co + q, co + p);
    }
  }

  lemma {:induction false} ReportedBefore(s: Stream, v: Value, window: seq<byte>, offset: nat, rs: nat, carried: nat,
                                          k: nat, p: nat)
    requires v.Valid() && !v.HasOption()
    requires At(s, offset, rs) && Obtained(s, offset, k)
    requires Carries(v, offset, rs, carried) && Windowed(s, window, offset, carried, k)
    requires p + v.Size() <= |window|
    ensures carried <= offset && ReportedTaken(s, v, window, offset - carried, p, offset - carried + p)
    decreases p, 0
  {
    hide At, Obtained, Carries, Windowed, Takes, Stream.Reports, Stream.SameBuffer;
    WindowFits(s, v, window, offset, rs, carried, k);
    var co: nat := offset - carried;
    var o := co + p;
    forall x: nat | o - v.Size() < x < o && s.Reports(v, x) && s.SameBuffer(v, x, o)
      ensures co <= x && Takes(v, window, co, x - co)
    {
      ReporterInWindow(s, v, offset, rs, carried, k, x, o);
      WindowReports(s, v, window, offset, rs, carried, k, x - co);
    }
  }

  lemma WindowFits(s: Stream, v: Value, window: seq<byte>, offset: nat, rs: nat, carried: nat, k: nat)
    requires v.Valid() && Carries(v, offset, rs, carried) && Windowed(s, window, offset, carried, k)
    ensures carried <= offset && |window| <= carried + k
  {
  }

  /** Both rules say the same of `o` if they do of everything before it. */
  lemma SameRule(s: Stream, v: Value, window: seq<byte>, co: nat, p: nat, o: nat)
    requires o == co + p && v.Valid()
    requires Wanted(v, window, co, p) <==> s.Target(v, o)
    requires TakenReported(s, v, window, co, p, o) && ReportedTaken(s, v, window, co, p, o)
    ensures Takes(v, window, co, p) <==> s.Reports(v, o)
  {
    hide Wanted, Stream.Target, Stream.SameBuffer;
  }

  /** Searching the window extends the answer to everything that ends inside it. */
  lemma AfterWindow(s: Stream, v: Value, seen: seq<nat>, added: seq<nat>, window: seq<byte>,
                    offset: nat, rs: nat, carried: nat, k: nat, limit: int)
    requires v.Valid() && !v.HasOption()
    requires At(s, offset, rs) && Obtained(s, offset, k)
    requires Carries(v, offset, rs, carried) && Windowed(s, window, offset, carried, k)
    requires Answers(s, v, seen, offset - v.Size() + 1)
    requires Searched(v, window, offset - carried, added, limit)
    requires offset - v.Size() + 1 <= limit <= offset + Backward(s, offset, k) - v.Size() + 1
    ensures Answers(s, v, seen + added, limit)
  {
    hide At, Obtained, Stream.Target, Takes;
    var co := offset - carried;
    forall o: nat ensures o in seen + added <==> s.Reports(v, o) && o < limit {
      if o in added {
        WindowReports(s, v, window, offset, rs, carried, k, o - co);
      }
      if s.Reports(v, o) && offset - v.Size() + 1 <= o < limit {
        if o < co {
          NoTargetBeforeWindow(s, v, offset, rs, carried, o);
        } else {
          WindowReports(s, v, window, offset, rs, carried, k, o - co);
          assert co + (o - co) in added;
        }
      }
    }
  }

  /** The builtin copy of `n` bytes. */
  method CopyBytes(dst: array<byte>, src: array<byte>, from: nat, n: nat)
    requires n <= dst.Length && from + n <= src.Length && dst != src
    modifies dst
    ensures forall j :: 0 <= j < n ==> dst[j] == src[from + j]
    ensures forall j :: n <= j < dst.Length ==> dst[j] == old(dst[j])
  {
    var i := 0;
    while i < n
      invariant i <= n
      invariant forall j :: 0 <= j < i ==> dst[j] == src[from + j]
      invariant forall j :: i <= j < dst.Length ==> dst[j] == old(dst[j])
    {
      dst[i] := src[from + i];
      i := i + 1;
    }
  }

  /** The scanner's jump after an unexpected read error: only with options, and never at the end of the region. */
  method TryAlignNextPage(err: ReadError, options: Option<nat>, reader: RegionReader, at: nat)
    returns (nextOffset: nat, ok: bool)
    modifies reader`off
    ensures ok <==> err != NoError && err != EOF && PageEnd(at) < options.GetOr(0)
    ensures ok ==> nextOffset == reader.off == PageEnd(at)
  {
    nextOffset, ok := 0, false;
    if err != NoError && err != EOF && options.Some? {
      nextOffset, ok := AlignNextPage(options.value, reader, at);
    }
  }

  ghost function StreamOf(reader: RegionReader, bufSize: pos, options: Option<nat>): Stream {
    Stream(reader.mem, reader.failCount, reader.start, reader.size, bufSize, options.GetOr(0))
  }

  /** How a full read's report reads off what was obtained. */
  ghost predicate ReadReport(s: Stream, offset: nat, k: nat, backward: nat, err: ReadError) {
    && Obtained(s, offset, k) && backward == Backward(s, offset, k)
    && backward <= k <= s.bufSize && (k == s.bufSize ==> backward == k)
    && (err == NoError <==> k == s.bufSize)
    && (Faulted(s, offset, k) ==> err == EFAULT)
  }

  lemma ReadReported(reader: RegionReader, bufSize: pos, options: Option<nat>, offset: nat, k: nat)
    requires k == if offset >= reader.size then 0
                  else reader.mem.ReadablePrefix(reader.start + offset, Min(bufSize, reader.size - offset))
    ensures var (n, err) := FullReadCount(reader, offset, bufSize, k);
            ReadReport(StreamOf(reader, bufSize, options), offset, k, Max(0, n), err)
  {
    var s := StreamOf(reader, bufSize, options);
    forall p | offset <= p < offset + k ensures s.Readable(p) {
      assert s.mem.Readable(s.start + p);
    }
  }

  /** The first `carried` bytes are those in front of `offset`. */
  ghost predicate CarriedIn(s: Stream, content: seq<byte>, offset: nat, carried: nat) {
    && carried <= offset && carried <= |content|
    && (forall j :: 0 <= j < carried ==> content[j] == s.mem.bytes(s.start + (offset - carried) + j))
  }

  /** The truncated array holds the carried bytes. */
  ghost predicate Carried(s: Stream, truncated: array<byte>, offset: nat, carried: nat)
    reads truncated
  {
    && carried <= offset && carried <= truncated.Length
    && (forall j :: 0 <= j < carried ==> truncated[j] == s.mem.bytes(s.start + (offset - carried) + j))
  }

  /** Moves the carried bytes to the front of the chunk. */
  method Carry(ghost s: Stream, chunk: array<byte>, truncated: array<byte>, truncLen: nat, ghost offset: nat)
    returns (forward: nat)
    requires truncLen <= chunk.Length && chunk != truncated
    requires Carried(s, truncated, offset, truncLen)
    modifies chunk
    ensures forward == truncLen && Carried(s, chunk, offset, truncLen)
  {
    forward := 0;
    if truncLen > 0 {
      CopyBytes(chunk, truncated, 0, truncLen);
      forward := truncLen;
    }
  }

  /** Carried bytes followed by the counted part of what was read make up the window. */
  lemma WindowOf(s: Stream, before: seq<byte>, after: seq<byte>, offset: nat, carried: nat, k: nat)
    requires CarriedIn(s, before, offset, carried) && carried + k <= |before|
    requires Stored(s.mem, before, after, carried, s.start + offset, k)
    ensures carried + k <= |after|
    ensures Windowed(s, after[..carried + Backward(s, offset, k)], offset, carried, k)
  {
  }

  /** Fills the chunk from the reader behind the carried bytes. */
  method Refill(reader: RegionReader, bufSize: pos, options: Option<nat>, chunk: array<byte>, forward: nat)
    returns (backward: nat, err: ReadError, ghost k: nat)
    requires forward + bufSize <= chunk.Length
    requires Carried(StreamOf(reader, bufSize, options), chunk, reader.off, forward)
    modifies reader`off, chunk
    ensures ReadReport(StreamOf(reader, bufSize, options), old(reader.off), k, backward, err)
    ensures forward + backward <= chunk.Length
    ensures Windowed(StreamOf(reader, bufSize, options), chunk[..forward + backward], old(reader.off), forward, k)
    ensures reader.off == old(reader.off) + k
  {
    ghost var s := StreamOf(reader, bufSize, options);
    assert s.mem == reader.mem && s.start == reader.start && s.bufSize == bufSize;
    hide ReadReport, Stored, StreamOf, Carried, Windowed;
    ghost var offset := reader.off;
    ghost var before := chunk[..];
    CarriedBytes(s, chunk, offset, forward);
    backward, err, k := ReadClamped(reader, bufSize, options, chunk, forward);
    ReportedBackward(s, offset, k, backward, err);
    WindowOf(s, before, chunk[..], offset, forward, k);
    assert chunk[..forward + backward] == chunk[..][..forward + backward];
  }

  lemma CarriedBytes(s: Stream, truncated: array<byte>, offset: nat, carried: nat)
    requires Carried(s, truncated, offset, carried)
    ensures CarriedIn(s, truncated[..], offset, carried)
  {
  }

  lemma ReportedBackward(s: Stream, offset: nat, k: nat, backward: nat, err: ReadError)
    requires ReadReport(s, offset, k, backward, err)
    ensures backward == Backward(s, offset, k) <= k <= s.bufSize
  {
  }

  /** A full read behind the carried bytes, its count clamped at zero. */
  method ReadClamped(reader: RegionReader, bufSize: pos, options: Option<nat>, chunk: array<byte>, forward: nat)
    returns (backward: nat, err: ReadError, ghost k: nat)
    requires forward + bufSize <= chunk.Length
    modifies reader`off, chunk
    ensures reader.off == old(reader.off) + k && k <= bufSize
    ensures Stored(reader.mem, old(chunk[..]), chunk[..], forward, reader.start + old(reader.off), k)
    ensures ReadReport(StreamOf(reader, bufSize, options), old(reader.off), k, backward, err)
  {
    hide ReadReport, Stored, FullReadCount, StreamOf;
    k := reader.Available(reader.off, bufSize);
    ReadReported(reader, bufSize, options, reader.off, k);
    var n, e := ReadFull(reader, chunk, forward, bufSize);
    if n < 0 {
      n := 0;
    }
    backward, err := n, e;
  }

  /** Keeps the last size - 1 bytes of chunk[..len] for the next window. */
  method KeepTail(ghost s: Stream, chunk: array<byte>, len: nat, truncated: array<byte>, v: Value,
                  ghost offset: nat, ghost rs: nat, ghost carried: nat, ghost k: nat)
    requires v.Valid() && v.Size() <= len <= chunk.Length && truncated.Length == v.Size() - 1 && chunk != truncated
    requires Carries(v, offset, rs, carried) && Windowed(s, chunk[..len], offset, carried, k)
    modifies truncated
    ensures Carries(v, offset + Backward(s, offset, k), rs, v.Size() - 1)
    ensures Carried(s, truncated, offset + Backward(s, offset, k), v.Size() - 1)
  {
    var from := len - v.Size() + 1;
    ghost var window := chunk[..len];
    CopyBytes(truncated, chunk, from, v.Size() - 1);
    assert forall j :: 0 <= j < v.Size() - 1 ==> truncated[j] == window[from + j];
  }

  /** A window too short to search extends the answer as well: nothing can end in it. */
  lemma ShortWindow(s: Stream, v: Value, seen: seq<nat>, window: seq<byte>, offset: nat, rs: nat, carried: nat, k: nat)
    requires v.Valid() && !v.HasOption()
    requires At(s, offset, rs) && Obtained(s, offset, k)
    requires Carries(v, offset, rs, carried) && Windowed(s, window, offset, carried, k)
    requires Answers(s, v, seen, offset - v.Size() + 1)
    requires |window| < v.Size()
    ensures Answers(s, v, seen, offset + Backward(s, offset, k) - v.Size() + 1)
  {
    var limit := offset + Backward(s, offset, k) - v.Size() + 1;
    AfterWindow(s, v, seen, [], window, offset, rs, carried, k, limit);
    assert seen + [] == seen;
  }

  lemma SeenBefore(s: Stream, v: Value, seen: seq<nat>, offset: nat, rs: nat, carried: nat)
    requires v.Valid() && Carries(v, offset, rs, carried)
    requires Answers(s, v, seen, offset - v.Size() + 1)
    ensures carried <= Min(offset, v.Size() - 1)
    ensures seen != [] ==> seen[|seen| - 1] < offset - carried
  {
    if seen != [] {
      assert seen[|seen| - 1] in seen;
    }
  }

  /** The limit a stopped search settles lies inside the window. */
  lemma StopInWindow(s: Stream, v: Value, window: seq<byte>, offset: nat, rs: nat, carried: nat, k: nat,
                     added: seq<nat>)
    requires Carries(v, offset, rs, carried) && Windowed(s, window, offset, carried, k)
    requires added != [] && Searched(v, window, offset - carried, added, added[|added| - 1] + 1)
    requires v.Valid()
    ensures offset - v.Size() + 1 <= added[|added| - 1] + 1 <= offset + Backward(s, offset, k) - v.Size() + 1
  {
    assert added[|added| - 1] in added;
  }

  /** Searches one window, then keeps its tail for the next. */
  method SearchAndKeep(ghost s: Stream, v: Value, chunk: array<byte>, truncated: array<byte>, truncLen: nat,
                       offset: nat, backward: nat, collector: Collector, ghost rs: nat, ghost k: nat)
    returns (stopped: bool, ghost bound: int)
    requires v.Valid() && !v.HasOption() && chunk != truncated && truncated.Length == v.Size() - 1
    requires collector.Valid() && Answers(s, v, collector.Seen, offset - v.Size() + 1)
    requires At(s, offset, rs) && Obtained(s, offset, k) && backward == Backward(s, offset, k)
    requires Carries(v, offset, rs, truncLen) && v.Size() <= truncLen + backward <= chunk.Length
    requires Windowed(s, chunk[..truncLen + backward], offset, truncLen, k)
    modifies collector.Repr(), truncated
    ensures collector.Valid()
    ensures Answers(s, v, collector.Seen, bound)
    ensures !stopped ==> bound == offset + backward - v.Size() + 1
                         && Carries(v, offset + backward, rs, v.Size() - 1)
                         && Carried(s, truncated, offset + backward, v.Size() - 1)
    ensures stopped ==> collector.Finished() && collector.Seen != []
                        && bound == collector.Seen[|collector.Seen| - 1] + 1
  {
    hide At, Obtained, Answers, Searched, Windowed, Carried, Carries, Collector.Valid, Collector.Finished, Backward;
    ghost var seen := collector.Seen;
    ghost var window := chunk[..truncLen + backward];
    SeenBefore(s, v, seen, offset, rs, truncLen);
    var halted, added := SearchWindow(chunk, truncLen + backward, offset - truncLen, v, collector);
    stopped := halted;
    if stopped {
      bound := added[|added| - 1] + 1;
      StopInWindow(s, v, window, offset, rs, truncLen, k, added);
    } else {
      bound := offset + backward - v.Size() + 1;
    }
    AfterWindow(s, v, seen, added, window, offset, rs, truncLen, k, bound);
    if !stopped {
      assert chunk[..truncLen + backward] == window;
      KeepTail(s, chunk, truncLen + backward, truncated, v, offset, rs, truncLen, k);
    }
  }

  /** After a short read: jump to the next page, or the region is answered. */
  method JumpOrEnd(ghost s: Stream, v: Value, reader: RegionReader, options: Option<nat>, err: ReadError,
                   offset: nat, backward: nat, ghost seen: seq<nat>, ghost rs: nat, ghost k: nat)
    returns (nextOffset: nat, ok: bool)
    requires v.Valid() && s.start % PAGE_SIZE == 0 && s.expected == options.GetOr(0)
    requires At(s, offset, rs) && ReadReport(s, offset, k, backward, err) && k < s.bufSize
    requires Answers(s, v, seen, offset + backward - v.Size() + 1)
    modifies reader`off
    ensures ok ==> offset < nextOffset == reader.off && nextOffset < s.expected
                   && At(s, nextOffset, nextOffset) && Answers(s, v, seen, nextOffset - v.Size() + 1)
    ensures !ok ==> Answers(s, v, seen, s.size)
  {
    hide At, Answers, PageEnd;
    nextOffset, ok := TryAlignNextPage(err, options, reader, offset + backward);
    if ok {
      Resumed(s, v, seen, offset, rs, k, nextOffset);
    } else {
      Ended(s, v, seen, offset, rs, k);
    }
  }

  datatype Turn = Continue | RegionAnswered | CollectorStopped

  /** Where the loop stands: position, carried bytes, and the answer so far. */
  ghost predicate Standing(s: Stream, v: Value, truncated: array<byte>, truncLen: nat, offset: nat, rs: nat,
                           seen: seq<nat>)
    requires v.Valid()
    reads truncated
  {
    && At(s, offset, rs) && Carries(v, offset, rs, truncLen) && Carried(s, truncated, offset, truncLen)
    && Answers(s, v, seen, offset - v.Size() + 1)
  }

  lemma StandingFresh(s: Stream, v: Value, truncated: array<byte>, offset: nat, seen: seq<nat>)
    requires v.Valid() && At(s, offset, offset) && Answers(s, v, seen, offset - v.Size() + 1)
    ensures Standing(s, v, truncated, 0, offset, offset, seen)
  {
  }

  lemma StandingCarry(s: Stream, v: Value, truncated: array<byte>, truncLen: nat, offset: nat, rs: nat, seen: seq<nat>)
    requires v.Valid() && Standing(s, v, truncated, truncLen, offset, rs, seen)
    ensures truncLen <= Min(offset, v.Size() - 1)
  {
  }

  /** One turn of the search loop: carry, read, search, then advance, jump or end. */
  method ScanTurn(reader: RegionReader, bufSize: pos, v: Value, collector: Collector, options: Option<nat>,
                  chunk: array<byte>, truncated: array<byte>, truncLen0: nat, offset0: nat, ghost rs0: nat)
    returns (turn: Turn, truncLen: nat, offset: nat, ghost rs: nat, ghost bound: int)
    requires v.Valid() && !v.HasOption() && v.Size() <= bufSize && reader.start % PAGE_SIZE == 0
    requires chunk != truncated && chunk.Length == bufSize + v.Size() && truncated.Length == v.Size() - 1
    requires chunk !in collector.Repr() && truncated !in collector.Repr() && reader !in collector.Repr()
    requires collector.Valid() && reader.off == offset0
    requires Standing(StreamOf(reader, bufSize, options), v, truncated, truncLen0, offset0, rs0, collector.Seen)
    modifies reader`off, chunk, truncated, collector.Repr()
    ensures collector.Valid() && Answers(StreamOf(reader, bufSize, options), v, collector.Seen, bound)
    ensures turn.Continue? ==>
              && reader.off == offset && offset0 < offset <= Max(reader.size, options.GetOr(0))
              && Standing(StreamOf(reader, bufSize, options), v, truncated, truncLen, offset, rs, collector.Seen)
    ensures turn.RegionAnswered? ==> bound == reader.size
    ensures turn.CollectorStopped? ==> collector.Finished() && collector.Seen != []
                                       && bound == collector.Seen[|collector.Seen| - 1] + 1
  {
    hide At, Obtained, Answers, Windowed, Carried, Carries, Collector.Valid, Collector.Finished, Faulted, Backward;
    ghost var s := StreamOf(reader, bufSize, options);
    assert s.start == reader.start && s.size == reader.size && s.bufSize == bufSize && s.expected == options.GetOr(0);
    hide StreamOf, Collector.Repr;
    truncLen, offset, rs := truncLen0, offset0, rs0;
    StandingCarry(s, v, truncated, truncLen, offset, rs, collector.Seen);
    var forward := Carry(s, chunk, truncated, truncLen, offset);
    var backward, err, k := Refill(reader, bufSize, options, chunk, forward);
    if forward + backward < v.Size() {
      ShortWindow(s, v, collector.Seen, chunk[..forward + backward], offset, rs, truncLen, k);
    } else {
      var stopped;
      stopped, bound := SearchAndKeep(s, v, chunk, truncated, truncLen, offset, backward, collector, rs, k);
      if stopped {
        return CollectorStopped, truncLen, offset, rs, bound;
      }
      truncLen := v.Size() - 1;
    }
    if forward + backward < v.Size() || err != NoError || backward < bufSize {
      var nextOffset, ok := JumpOrEnd(s, v, reader, options, err, offset, backward, collector.Seen, rs, k);
      if !ok {
        return RegionAnswered, truncLen, offset, rs, s.size;
      }
      offset, truncLen, rs := nextOffset, 0, nextOffset;
      StandingFresh(s, v, truncated, offset, collector.Seen);
    } else {
      FullRead(s, offset, rs, k);
      offset := offset + backward;
    }
    return Continue, truncLen, offset, rs, offset - v.Size() + 1;
  }

  /**
   The whole search of one region. Unless cancelled or told to stop, what was reported answers the entire
   region; in every case it answers everything below `bound`.
   */
  method ScanBytes(reader: RegionReader, bufSize: pos, v: Value, collector: Collector, options: Option<nat>,
                   ctx: Context)
    returns (ghost bound: int)
    requires v.Valid() && !v.HasOption() && v.Size() <= bufSize
    requires reader.off == 0 && reader.start % PAGE_SIZE == 0
    requires collector.Valid() && collector.Seen == []
    modifies reader, ctx`done, collector.Repr()
    ensures collector.Valid() && (old(ctx.done) ==> ctx.done)
    ensures Answers(StreamOf(reader, bufSize, options), v, collector.Seen, bound)
    ensures || ctx.done
            || bound >= reader.size
            || (collector.Finished() && collector.Seen != [] && bound == collector.Seen[|collector.Seen| - 1] + 1)
  {
    hide At, Answers, Carried, Carries, Standing, Collector.Valid, Collector.Finished;
    ghost var s := StreamOf(reader, bufSize, options);
    var chunk := new byte[bufSize + v.Size()];
    var truncated := new byte[v.Size() - 1];
    var truncLen: nat, offset: nat := 0, 0;
    ghost var rs: nat := 0;
    AtStart(s, v);
    StandingFresh(s, v, truncated, 0, []);
    bound := 1 - (v.Size() as int);
    assert chunk !in collector.Repr() && truncated !in collector.Repr() && reader !in collector.Repr();
    assert ctx !in collector.Repr();
    hide Collector.Repr;
    while true
      invariant reader.off == offset && (old(ctx.done) ==> ctx.done)
      invariant collector.Valid() && Answers(s, v, collector.Seen, bound)
      invariant Standing(s, v, truncated, truncLen, offset, rs, collector.Seen)
      decreases Max(reader.size, options.GetOr(0)) - offset
    {
      var cancelled := ctx.Err();
      if cancelled {
        return bound;
      }
      var turn;
      turn, truncLen, offset, rs, bound :=
        ScanTurn(reader, bufSize, v, collector, options, chunk, truncated, truncLen, offset, rs);
      if !turn.Continue? {
        return bound;
      }
    }
  }
}

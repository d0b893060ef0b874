/**
 The rounded-float scan: chunks read whole, words tested eight at a time. One model serves the 4-byte and
 the 8-byte instance; the word test is the value's own.
 */
module FloatScan {
  import opened Arithmetic
  import opened Kernel
  import opened Values
  import opened Streams
  import opened ScanPosition
  import opened RegionReaders
  import opened Collectors
  import opened ByteScan

  const LANES: nat := 8

  /** The plain word-by-word filter of window[..i]: the offsets of accepted words, ascending. */
  ghost function WordHits(v: Value, window: seq<byte>, offset: nat, i: nat): (hits: seq<nat>)
    requires v.Valid() && i <= |window|
  {
    var w := v.Size();
    if i < w then []
    else WordHits(v, window, offset, i - w) + (if v.EqualBytes(window[i - w..i]) then [offset + i - w] else [])
  }

  lemma {:induction false} WordHitsMembers(v: Value, window: seq<byte>, offset: nat, i: nat, x: nat)
    requires v.Valid() && i <= |window| && i % v.Size() == 0
    ensures x in WordHits(v, window, offset, i) <==>
              && offset <= x && (x - offset) % v.Size() == 0 && x - offset + v.Size() <= i
              && v.EqualBytes(window[x - offset..x - offset + v.Size()])
  {
    var w := v.Size();
    if i >= w {
      OneStepBack(i, w);
      WordHitsMembers(v, window, offset, i - w, x);
      if offset <= x && (x - offset) % w == 0 {
        LastWord(x - offset, i, w);
      }
    }
  }

  /** The hits up to `i` lie below offset + i, so the collector is ready for the next word. */
  ghost predicate Emitted(v: Value, window: seq<byte>, offset: nat, i: nat, before: seq<nat>, seen: seq<nat>)
    requires v.Valid() && i <= |window|
  {
    && seen == before + WordHits(v, window, offset, i)
    && (seen != [] ==> seen[|seen| - 1] < offset + i)
  }

  lemma EmittedNext(v: Value, window: seq<byte>, offset: nat, i: nat, before: seq<nat>, seen: seq<nat>)
    requires v.Valid() && i + v.Size() <= |window| && Emitted(v, window, offset, i, before, seen)
    ensures var hit := v.EqualBytes(window[i..i + v.Size()]);
            Emitted(v, window, offset, i + v.Size(), before, if hit then seen + [offset + i] else seen)
  {
    var w := v.Size();
    assert WordHits(v, window, offset, i + w) ==
           WordHits(v, window, offset, i) + (if v.EqualBytes(window[i..i + w]) then [offset + i] else []);
  }

  /** Tests the word at `i`, already loaded; the collector's verdict is ignored. */
  method Test(v: Value, word: seq<byte>, i: nat, offset: nat, collector: Collector,
              ghost window: seq<byte>, ghost before: seq<nat>)
    requires v.Valid() && i + v.Size() <= |window| && word == window[i..i + v.Size()]
    requires collector.Valid() && Emitted(v, window, offset, i, before, collector.Seen)
    modifies collector.Repr()
    ensures collector.Valid()
    ensures Emitted(v, window, offset, i + v.Size(), before, collector.Seen)
  {
    hide Collector.Valid;
    EmittedNext(v, window, offset, i, before, collector.Seen);
    if v.EqualBytes(word) {
      var _ := collector.Collect(offset + i);
    }
  }

  /** One round of the unrolled loop: eight loads, then eight tests. */
  method TestLanes(v: Value, data: seq<byte>, i: nat, offset: nat, collector: Collector, ghost before: seq<nat>)
    requires v.Valid() && i + LANES * v.Size() <= |data|
    requires collector.Valid() && Emitted(v, data, offset, i, before, collector.Seen)
    modifies collector.Repr()
    ensures collector.Valid()
    ensures Emitted(v, data, offset, i + LANES * v.Size(), before, collector.Seen)
  {
    hide Collector.Valid, Emitted, WordHits;
    var w := v.Size();
    var i1 := i + w;
    var i2 := i1 + w;
    var i3 := i2 + w;
    var i4 := i3 + w;
    var i5 := i4 + w;
    var i6 := i5 + w;
    var i7 := i6 + w;
    var i8 := i7 + w;
    var v0, v1, v2, v3, v4, v5, v6, v7 :=
      data[i..i1], data[i1..i2], data[i2..i3], data[i3..i4], data[i4..i5], data[i5..i6], data[i6..i7], data[i7..i8];
    Test(v, v0, i, offset, collector, data, before);
    Test(v, v1, i1, offset, collector, data, before);
    Test(v, v2, i2, offset, collector, data, before);
    Test(v, v3, i3, offset, collector, data, before);
    Test(v, v4, i4, offset, collector, data, before);
    Test(v, v5, i5, offset, collector, data, before);
    Test(v, v6, i6, offset, collector, data, before);
    Test(v, v7, i7, offset, collector, data, before);
  }

  /** The eight-way unrolled loop and its tail report exactly the word-by-word hits. */
  method ScanVectorized(v: Value, data: seq<byte>, offset: nat, collector: Collector)
    requires v.Valid() && |data| % v.Size() == 0
    requires collector.Valid() && (collector.Seen != [] ==> collector.Seen[|collector.Seen| - 1] < offset)
    modifies collector.Repr()
    ensures collector.Valid()
    ensures collector.Seen == old(collector.Seen) + WordHits(v, data, offset, |data|)
  {
    hide Collector.Valid, Emitted, WordHits;
    var n, w := |data|, v.Size();
    ghost var before := collector.Seen;
    EmittedNothing(v, data, offset, before);
    if n < w {
      AllEmitted(v, data, offset, 0, before, collector.Seen);
      return;
    }
    var i := 0;
    while i + LANES * w <= n
      invariant i <= n && i % w == 0
      invariant collector.Valid()
      invariant Emitted(v, data, offset, i, before, collector.Seen)
      decreases n - i
    {
      TestLanes(v, data, i, offset, collector, before);
      StepAligned(i, LANES, w);
      i := i + LANES * w;
    }
    while i + w <= n
      invariant i <= n && i % w == 0
      invariant collector.Valid()
      invariant Emitted(v, data, offset, i, before, collector.Seen)
      decreases n - i
    {
      Test(v, data[i..i + w], i, offset, collector, data, before);
      StepAligned(i, 1, w);
      i := i + w;
    }
    AllEmitted(v, data, offset, i, before, collector.Seen);
  }

  lemma StepAligned(i: nat, lanes: nat, w: nat)
    requires w > 0 && i % w == 0
    ensures (i + lanes * w) % w == 0
  {
    ModUnique(lanes, 0, w);
    ModAdd(i, lanes * w, w);
  }

  lemma EmittedNothing(v: Value, data: seq<byte>, offset: nat, before: seq<nat>)
    requires v.Valid() && (before != [] ==> before[|before| - 1] < offset)
    ensures Emitted(v, data, offset, 0, before, before)
  {
  }

  lemma AllEmitted(v: Value, data: seq<byte>, offset: nat, i: nat, before: seq<nat>, seen: seq<nat>)
    requires v.Valid() && i <= |data| < i + v.Size() && i % v.Size() == 0 && |data| % v.Size() == 0
    requires Emitted(v, data, offset, i, before, seen)
    ensures seen == before + WordHits(v, data, offset, |data|)
  {
    if i < |data| {
      AlignedGap(i, |data|, v.Size());
    }
  }

  /** The whole words of `n` bytes. */
  ghost predicate WholeWords(n: nat, processable: nat, w: nat) {
    w > 0 && processable % w == 0 && processable <= n < processable + w
  }

  lemma WholeWordsOf(n: nat, w: nat)
    requires w > 0
    ensures WholeWords(n, n / w * w, w)
  {
    Euclid(n, w);
    ModUnique(n / w, 0, w);
  }

  /** An aligned word that fits into `n` bytes fits into the whole words. */
  lemma FitsWholeWords(d: nat, n: nat, processable: nat, w: nat)
    requires WholeWords(n, processable, w) && d % w == 0
    ensures d + w <= n <==> d + w <= processable
  {
    if d < processable {
      AlignedGap(d, processable, w);
    }
  }

  /** A target that ends in the chunk lies in it whole, at an aligned distance from its start. */
  lemma WordPlace(w: nat, offset: nat, n: nat, processable: nat, x: nat)
    requires WholeWords(n, processable, w) && offset % w == 0 && offset < x + w
    ensures (offset <= x && (x - offset) % w == 0 && x - offset + w <= processable) <==>
              (x % w == 0 && x + w <= offset + n)
  {
    if x < offset {
      if x % w == 0 {
        AlignedGap(x, offset, w);
      }
    } else {
      ModAdd(offset, x - offset, w);
      if x % w == 0 {
        FitsWholeWords(x - offset, n, processable, w);
      }
    }
  }

  /** A delivered, accepted, aligned word is a target. */
  lemma WordHolds(s: Stream, v: Value, window: seq<byte>, offset: nat, rs: nat, k: nat, x: nat)
    requires v.Valid() && v.Aligned() && x % v.Size() == 0
    requires At(s, offset, rs) && Obtained(s, offset, k) && Windowed(s, window, offset, 0, k)
    requires offset <= x && x + v.Size() <= offset + |window|
    ensures v.EqualBytes(window[x - offset..x - offset + v.Size()]) <==> s.Target(v, x)
  {
    WindowDelivered(s, offset, rs, k);
    assert window[x - offset..x - offset + v.Size()] == s.mem.Slice(s.start + x, v.Size());
    assert forall q :: x <= q < x + v.Size() ==> s.Delivered(q);
    assert s.Delivered(x + v.Size() - 1);
    assert s.Reached(x);
  }

  /** The hits of the whole words are the targets that end in the chunk. */
  lemma WordTargets(s: Stream, v: Value, window: seq<byte>, offset: nat, rs: nat, k: nat, processable: nat, x: nat)
    requires v.Valid() && v.Aligned() && s.bufSize % v.Size() == 0 && PAGE_SIZE % v.Size() == 0
    requires At(s, offset, rs) && Obtained(s, offset, k) && Windowed(s, window, offset, 0, k)
    requires WholeWords(|window|, processable, v.Size())
    requires offset < x + v.Size()
    ensures x in WordHits(v, window[..processable], offset, processable)
            <==> s.Target(v, x) && x + v.Size() <= offset + |window|
  {
    hide At, Obtained, Windowed;
    var w := v.Size();
    ChunkAligned(s, w, offset, rs);
    WordHitsMembers(v, window[..processable], offset, processable, x);
    WordPlace(w, offset, |window|, processable, x);
    if x % w == 0 && x + w <= offset + |window| {
      assert window[..processable][x - offset..x - offset + w] == window[x - offset..x - offset + w];
      WordHolds(s, v, window, offset, rs, k, x);
    }
  }

  lemma ChunkAligned(s: Stream, w: nat, offset: nat, rs: nat)
    requires w > 0 && s.bufSize % w == 0 && PAGE_SIZE % w == 0 && At(s, offset, rs)
    ensures offset % w == 0
  {
    MultipleOfMultiple(rs, PAGE_SIZE, w);
    MultipleOfMultiple(offset - rs, s.bufSize, w);
    ModAdd(rs, offset - rs, w);
  }

  /** Scanning the whole words of one chunk extends the answer over the chunk. */
  lemma AfterWords(s: Stream, v: Value, seen: seq<nat>, window: seq<byte>, offset: nat, rs: nat, k: nat,
                   processable: nat)
    requires v.Valid() && v.Aligned() && s.bufSize % v.Size() == 0 && PAGE_SIZE % v.Size() == 0
    requires At(s, offset, rs) && Obtained(s, offset, k) && Windowed(s, window, offset, 0, k)
    requires WholeWords(|window|, processable, v.Size())
    requires Answers(s, v, seen, offset - v.Size() + 1)
    ensures Answers(s, v, seen + WordHits(v, window[..processable], offset, processable),
                    offset + |window| - v.Size() + 1)
  {
    hide At, Obtained, Windowed, WordHits, Stream.Target;
    var w := v.Size();
    var hits := WordHits(v, window[..processable], offset, processable);
    forall x: nat ensures x in seen + hits <==> s.Reports(v, x) && x < offset + |window| - w + 1 {
      s.AlignedReports(v, x);
      if x in hits {
        WordHitsMembers(v, window[..processable], offset, processable, x);
      }
      if offset < x + w {
        WordTargets(s, v, window, offset, rs, k, processable, x);
      }
    }
  }

  /** One turn of the chunk loop: read, test the whole words, then advance, jump or end. */
  method FloatTurn(reader: RegionReader, bufSize: pos, v: Value, collector: Collector, options: Option<nat>,
                   chunk: array<byte>, offset0: nat, ghost rs0: nat)
    returns (more: bool, offset: nat, ghost rs: nat)
    requires v.Valid() && v.HasOption() && bufSize % v.Size() == 0 && reader.start % PAGE_SIZE == 0
    requires chunk.Length == bufSize && chunk !in collector.Repr() && reader !in collector.Repr()
    requires collector.Valid() && reader.off == offset0
    requires At(StreamOf(reader, bufSize, options), offset0, rs0)
    requires Answers(StreamOf(reader, bufSize, options), v, collector.Seen, offset0 - v.Size() + 1)
    modifies reader`off, chunk, collector.Repr()
    ensures collector.Valid()
    ensures more ==>
              && reader.off == offset && offset0 < offset <= Max(reader.size, options.GetOr(0))
              && At(StreamOf(reader, bufSize, options), offset, rs)
              && Answers(StreamOf(reader, bufSize, options), v, collector.Seen, offset - v.Size() + 1)
    ensures !more ==> Answers(StreamOf(reader, bufSize, options), v, collector.Seen, reader.size)
  {
    hide At, Obtained, Answers, Windowed, Collector.Valid, Faulted, Backward, WordHits;
    ghost var s := StreamOf(reader, bufSize, options);
    assert s.start == reader.start && s.size == reader.size && s.bufSize == bufSize && s.expected == options.GetOr(0);
    hide StreamOf, Collector.Repr;
    var w := v.Size();
    offset, rs := offset0, rs0;
    SeenBefore(s, v, collector.Seen, offset, offset, 0);
    var n, err, k := Refill(reader, bufSize, options, chunk, 0);
    ghost var window := chunk[..n];
    var processable := n / w * w;
    WholeWordsOf(n, w);
    AfterWords(s, v, collector.Seen, window, offset, rs, k, processable);
    if n >= w {
      assert window[..processable] == chunk[..processable];
      ScanVectorized(v, chunk[..processable], offset, collector);
    } else {
      ShortChunk(v, window, offset, n, processable, collector.Seen);
    }
    if err != NoError {
      var nextOffset, ok := JumpOrEnd(s, v, reader, options, err, offset, n, collector.Seen, rs, k);
      if !ok {
        return false, offset, rs;
      }
      return true, nextOffset, nextOffset;
    }
    FullRead(s, offset, rs, k);
    return true, offset + n, rs;
  }

  /** The chunk loop of the rounded scan; nothing is carried, because no word straddles two chunks. */
  method ScanFloatRounded(reader: RegionReader, bufSize: pos, v: Value, collector: Collector, options: Option<nat>,
                          ctx: Context)
    returns (ghost bound: int)
    requires v.Valid() && v.HasOption() && bufSize % v.Size() == 0
    requires reader.off == 0 && reader.start % PAGE_SIZE == 0
    requires collector.Valid() && collector.Seen == []
    modifies reader, ctx`done, collector.Repr()
    ensures collector.Valid() && (old(ctx.done) ==> ctx.done)
    ensures Answers(StreamOf(reader, bufSize, options), v, collector.Seen, bound)
    ensures ctx.done || bound >= reader.size
  {
    hide At, Answers, Collector.Valid;
    ghost var s := StreamOf(reader, bufSize, options);
    var chunk := new byte[bufSize];
    var offset: nat := 0;
    ghost var rs: nat := 0;
    AtStart(s, v);
    assert chunk !in collector.Repr() && reader !in collector.Repr() && ctx !in collector.Repr();
    hide Collector.Repr;
    while true
      invariant reader.off == offset && (old(ctx.done) ==> ctx.done)
      invariant collector.Valid() && At(s, offset, rs) && Answers(s, v, collector.Seen, offset - v.Size() + 1)
      decreases Max(reader.size, options.GetOr(0)) - offset
    {
      var cancelled := ctx.Err();
      if cancelled {
        return offset - v.Size() + 1;
      }
      var more;
      more, offset, rs := FloatTurn(reader, bufSize, v, collector, options, chunk, offset, rs);
      if !more {
        return reader.size;
      }
    }
  }

  lemma ShortChunk(v: Value, window: seq<byte>, offset: nat, n: nat, processable: nat, seen: seq<nat>)
    requires v.Valid() && n == |window| < v.Size() && WholeWords(n, processable, v.Size())
    ensures seen + WordHits(v, window[..processable], offset, processable) == seen
  {
  }
}

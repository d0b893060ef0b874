/**
 Where a chunked scan stands between two reads, and what each way of continuing accounts for. Both the
 byte search and the float scan move along a stream this way.
 */
module ScanPosition {
  import opened Arithmetic
  import opened Kernel
  import opened Values
  import opened Streams

  /**
   The reader is at `offset` after full buffers since `rs`, where delivery last resumed; every unreadable
   page below was passed.
   */
  ghost predicate At(s: Stream, offset: nat, rs: nat) {
    && rs <= offset && rs % PAGE_SIZE == 0 && (offset - rs) % s.bufSize == 0
    && (forall p :: rs <= p < offset ==> s.Readable(p))
    && (rs > 0 ==> !s.Delivered(rs - 1) && (!s.Readable(rs - 1) || !s.Readable(rs)))
    && (forall p: nat :: p < offset && p < s.size && !s.Readable(p) ==> PageEnd(p) < s.expected)
  }

  /** `k` is what one full read obtains at `offset`. */
  ghost predicate Obtained(s: Stream, offset: nat, k: nat) {
    && k <= s.bufSize
    && (forall p :: offset <= p < offset + k ==> s.Readable(p))
    && (k < s.bufSize ==> !s.Readable(offset + k))
  }

  /** The read ended at an unreadable byte inside the region. */
  ghost predicate Faulted(s: Stream, offset: nat, k: nat) {
    k < s.bufSize && offset + k < s.size
  }

  /** The clamped count the scanner sees for an obtained `k`. */
  ghost function Backward(s: Stream, offset: nat, k: nat): (b: nat)
    ensures b <= k
  {
    if Faulted(s, offset, k) then Max(0, k + s.failCount) else k
  }

  /** Everything from the resumption point through the bytes just counted is delivered. */
  lemma WindowDelivered(s: Stream, offset: nat, rs: nat, k: nat)
    requires At(s, offset, rs) && Obtained(s, offset, k)
    ensures forall p :: rs <= p < offset + Backward(s, offset, k) ==> s.Delivered(p)
  {
    var b := Backward(s, offset, k);
    forall p | rs <= p < offset + b ensures s.Delivered(p) {
      if p + 1 == offset + b && p + 1 < s.size && !s.Readable(p + 1) && s.failCount < 0 {
        s.RunStartAt(rs, p);
        assert b == k && (k == 0 || k == s.bufSize);
        ModAdd(offset - rs, k, s.bufSize);
        assert p + 1 - rs == (offset - rs) + k;
      }
    }
  }

  /** An unreadable byte right after a readable one, or after a page boundary, starts a page. */
  lemma FaultAtPageStart(s: Stream, offset: nat, rs: nat, k: nat)
    requires s.start % PAGE_SIZE == 0
    requires At(s, offset, rs) && Obtained(s, offset, k) && Faulted(s, offset, k)
    ensures (offset + k) % PAGE_SIZE == 0
    ensures forall p :: offset + k <= p < offset + k + PAGE_SIZE ==> !s.Readable(p)
  {
    var b := offset + k;
    if b > rs {
      assert s.Readable(b - 1);
      assert (s.start + b - 1) / PAGE_SIZE != (s.start + b) / PAGE_SIZE;
    }
    assert b % PAGE_SIZE == 0;
    forall p | b <= p < b + PAGE_SIZE ensures !s.Readable(p) {
      assert (s.start + p) / PAGE_SIZE == (s.start + b) / PAGE_SIZE;
    }
  }

  /** With -1 counts a run that ends inside a buffer loses its last byte. */
  lemma LastByteLost(s: Stream, offset: nat, rs: nat, k: nat)
    requires At(s, offset, rs) && Obtained(s, offset, k) && Faulted(s, offset, k)
    requires s.failCount < 0 && k > 0
    ensures !s.Delivered(offset + k - 1)
  {
    var last := offset + k - 1;
    assert s.Readable(rs);
    s.RunStartAt(rs, last);
    NotMultiple(offset - rs, k, s.bufSize);
    assert last + 1 - s.RunStart(last) == (offset - rs) + k;
  }

  /** The next page after the counted bytes: past the unreadable page, or that page itself if a byte was lost. */
  lemma JumpTarget(s: Stream, offset: nat, rs: nat, k: nat)
    requires s.start % PAGE_SIZE == 0
    requires At(s, offset, rs) && Obtained(s, offset, k) && Faulted(s, offset, k)
    ensures var b, fault := Backward(s, offset, k), offset + k;
            && fault % PAGE_SIZE == 0
            && PageEnd(offset + b) == (if b == k then fault + PAGE_SIZE else fault)
            && (b != k ==> offset + b == fault - 1 && !s.Delivered(fault - 1))
            && (forall p :: fault <= p < fault + PAGE_SIZE ==> !s.Readable(p) && PageEnd(p) == fault + PAGE_SIZE)
  {
    var b, fault := Backward(s, offset, k), offset + k;
    FaultAtPageStart(s, offset, rs, k);
    hide PageEnd;
    if b != k {
      LastByteLost(s, offset, rs, k);
    }
    PageEndAt(fault, offset + b);
    forall p | fault <= p < fault + PAGE_SIZE ensures PageEnd(p) == fault + PAGE_SIZE {
      PageEndAt(fault, p);
    }
  }

  /** Nothing between the counted bytes and the page jumped to is delivered. */
  lemma JumpGap(s: Stream, offset: nat, rs: nat, k: nat)
    requires s.start % PAGE_SIZE == 0
    requires At(s, offset, rs) && Obtained(s, offset, k) && Faulted(s, offset, k)
    ensures forall p :: offset + Backward(s, offset, k) <= p < PageEnd(offset + Backward(s, offset, k)) ==>
              !s.Delivered(p)
  {
    JumpTarget(s, offset, rs, k);
    hide PageEnd, At, Obtained, Backward, Faulted;
  }

  /** At the page jumped to the scan stands afresh. */
  lemma Jumped(s: Stream, offset: nat, rs: nat, k: nat)
    requires s.start % PAGE_SIZE == 0
    requires At(s, offset, rs) && Obtained(s, offset, k) && Faulted(s, offset, k)
    requires PageEnd(offset + Backward(s, offset, k)) < s.expected
    ensures var next := PageEnd(offset + Backward(s, offset, k)); At(s, next, next)
  {
    var next := PageEnd(offset + Backward(s, offset, k));
    JumpTarget(s, offset, rs, k);
    JumpGap(s, offset, rs, k);
    assert next % PAGE_SIZE == 0;
    assert !s.Readable(next - 1) || !s.Readable(next);
    forall p: nat | p < next && p < s.size && !s.Readable(p) ensures PageEnd(p) < s.expected {
      assert p < offset || offset + k <= p;
    }
    assert (next - next) % s.bufSize == 0;
  }

  /** A refused jump: no target reaches beyond what was delivered. */
  lemma Stopped(s: Stream, v: Value, offset: nat, rs: nat, k: nat, o: nat)
    requires s.start % PAGE_SIZE == 0 && v.Valid()
    requires At(s, offset, rs) && Obtained(s, offset, k) && Faulted(s, offset, k)
    requires PageEnd(offset + Backward(s, offset, k)) >= s.expected
    requires s.Target(v, o)
    ensures o + v.Size() <= offset + Backward(s, offset, k)
  {
    var fault := offset + k;
    JumpTarget(s, offset, rs, k);
    hide PageEnd;
    assert !s.Readable(fault) && PageEnd(fault) == fault + PAGE_SIZE;
    assert !s.Delivered(offset + Backward(s, offset, k));
  }

  /** A value that ends beyond the counted bytes but below `next` covers an undelivered byte. */
  lemma AnswersAcrossGap(s: Stream, v: Value, seen: seq<nat>, from: nat, next: nat)
    requires v.Valid() && from <= next
    requires Answers(s, v, seen, from - v.Size() + 1)
    requires forall p :: from <= p < next ==> !s.Delivered(p)
    ensures Answers(s, v, seen, next - v.Size() + 1)
  {
    forall o: nat | from < o + v.Size() <= next ensures !s.Target(v, o) {
      var p: nat := Max(o, from);
      assert !s.Delivered(p);
    }
  }

  /** A short read followed by a jump: the answer reaches the page jumped to. */
  lemma Resumed(s: Stream, v: Value, seen: seq<nat>, offset: nat, rs: nat, k: nat, next: nat)
    requires s.start % PAGE_SIZE == 0 && v.Valid()
    requires At(s, offset, rs) && Obtained(s, offset, k) && k < s.bufSize
    requires Answers(s, v, seen, offset + Backward(s, offset, k) - v.Size() + 1)
    requires next == PageEnd(offset + Backward(s, offset, k)) < s.expected
    ensures At(s, next, next) && Answers(s, v, seen, next - v.Size() + 1)
    ensures offset < next
  {
    if Faulted(s, offset, k) {
      JumpGap(s, offset, rs, k);
      Jumped(s, offset, rs, k);
    }
    AnswersAcrossGap(s, v, seen, offset + Backward(s, offset, k), next);
  }

  /** A short read without a jump: the answer is complete. */
  lemma Ended(s: Stream, v: Value, seen: seq<nat>, offset: nat, rs: nat, k: nat)
    requires s.start % PAGE_SIZE == 0 && v.Valid()
    requires At(s, offset, rs) && Obtained(s, offset, k) && k < s.bufSize
    requires Answers(s, v, seen, offset + Backward(s, offset, k) - v.Size() + 1)
    requires Faulted(s, offset, k) ==> PageEnd(offset + Backward(s, offset, k)) >= s.expected
    ensures Answers(s, v, seen, s.size)
  {
    forall o: nat | s.Target(v, o) ensures o + v.Size() <= offset + Backward(s, offset, k) {
      if Faulted(s, offset, k) {
        Stopped(s, v, offset, rs, k, o);
      }
    }
  }

  /** A full read: the reader stands at the end of the buffer, still in the same delivered run. */
  lemma FullRead(s: Stream, offset: nat, rs: nat, k: nat)
    requires At(s, offset, rs) && Obtained(s, offset, k) && k == s.bufSize
    ensures At(s, offset + k, rs) && offset + k <= s.size
  {
    assert s.Readable(offset + k - 1);
    ModAdd(offset - rs, k, s.bufSize);
    assert offset + k - rs == (offset - rs) + k;
    ModUnique(1, 0, s.bufSize);
  }

  lemma AtStart(s: Stream, v: Value)
    requires v.Valid()
    ensures At(s, 0, 0) && Answers(s, v, [], 0 - v.Size() + 1)
  {
  }
}

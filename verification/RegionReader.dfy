/** A bounded read cursor over one region of the process, and the page-skipping helper of the scanner. */
module RegionReaders {
  import opened Kernel

  datatype ReadError = NoError | EOF | UnexpectedEOF | EFAULT

  datatype Whence = SeekStart | SeekCurrent | SeekEnd

  /** `after` is `before` with the `k` bytes at address `a` stored from `lo` on. */
  ghost predicate Stored(mem: Memory, before: seq<byte>, after: seq<byte>, lo: nat, a: nat, k: nat) {
    lo + k <= |before| && after == before[..lo] + mem.Slice(a, k) + before[lo + k..]
  }

  lemma StoredNothing(mem: Memory, before: seq<byte>, after: seq<byte>, lo: nat, a: nat)
    requires lo <= |before|
    ensures Stored(mem, before, after, lo, a, 0) <==> before == after
  {
    assert before == before[..lo] + mem.Slice(a, 0) + before[lo..];
  }

  lemma StoredNext(mem: Memory, before: seq<byte>, after: seq<byte>, lo: nat, a: nat, k: nat)
    requires Stored(mem, before, after, lo, a, k) && lo + k < |before|
    ensures Stored(mem, before, after[lo + k := mem.bytes(a + k)], lo, a, k + 1)
  {
    assert mem.Slice(a, k + 1) == mem.Slice(a, k) + [mem.bytes(a + k)];
    assert after[lo + k := mem.bytes(a + k)]
        == before[..lo] + (mem.Slice(a, k) + [mem.bytes(a + k)]) + before[lo + k + 1..];
  }

  class RegionReader {
    const mem: Memory
    const failCount: FailCount
    const start: nat
    const size: nat
    var off: nat

    constructor (mem: Memory, failCount: FailCount, start: nat, end: nat)
      requires start <= end
      ensures this.mem == mem && this.failCount == failCount
      ensures this.start == start && this.size == end - start && off == 0
    {
      this.mem, this.failCount := mem, failCount;
      this.start, this.size := start, end - start;
      off := 0;
    }

    /** How many of the `want` bytes from offset `at` one transfer delivers. */
    ghost function Available(at: nat, want: nat): (k: nat)
      ensures k <= want
      ensures at < size ==> at + k <= size
      ensures at >= size ==> k == 0
    {
      if at >= size then 0 else mem.ReadablePrefix(start + at, Min(want, size - at))
    }

    /** A transfer that stopped short has nothing more to deliver. */
    lemma Exhausted(at: nat, want: nat)
      ensures var k := Available(at, want); k < want ==> Available(at + k, want - k) == 0
    {
    }

    method Seek(offset: int, whence: Whence) returns (abs: int, ok: bool)
      modifies this`off
      ensures ok <==> 0 <= (match whence
                            case SeekStart => offset
                            case SeekCurrent => old(off) + offset
                            case SeekEnd => size + offset)
      ensures ok ==> abs == off == (match whence
                                    case SeekStart => offset
                                    case SeekCurrent => old(off) + offset
                                    case SeekEnd => size + offset)
      ensures !ok ==> abs == 0 && off == old(off)
    {
      match whence {
        case SeekStart => abs := offset;
        case SeekCurrent => abs := off + offset;
        case SeekEnd => abs := size + offset;
      }
      if abs < 0 {
        return 0, false;
      }
      off := abs;
      return abs, true;
    }

    /** One transfer into p[lo..lo + len): the longest readable prefix, or the failing call's raw count. */
    method Read(p: array<byte>, lo: nat, len: nat) returns (n: int, err: ReadError)
      requires lo + len <= p.Length
      modifies this`off, p
      ensures var k := Available(old(off), len);
        && off == old(off) + k
        && Stored(mem, old(p[..]), p[..], lo, start + old(off), k)
        && (if old(off) >= size then n == 0 && err == EOF
            else if len == 0 || k > 0 then n == k && err == NoError
            else n == failCount && err == EFAULT)
    {
      StoredNothing(mem, p[..], p[..], lo, start + off);
      if off >= size {
        return 0, EOF;
      }
      if len == 0 {
        return 0, NoError;
      }
      var want := Min(len, size - off);
      var k := mem.ReadablePrefix(start + off, want);
      StoreRange(p, lo, k);
      off := off + k;
      if k > 0 {
        return k, NoError;
      }
      return failCount, EFAULT;
    }

    /** The copy made by the kernel. */
    method StoreRange(p: array<byte>, lo: nat, k: nat)
      requires lo + k <= p.Length
      modifies p
      ensures Stored(mem, old(p[..]), p[..], lo, start + off, k)
    {
      hide Stored, Memory.Slice;
      ghost var before := p[..];
      var a := start + off;
      StoredNothing(mem, before, before, lo, a);
      var i := 0;
      while i < k
        invariant i <= k
        invariant Stored(mem, before, p[..], lo, a, i)
      {
        StoredNext(mem, before, p[..], lo, a, i);
        ghost var after := p[..];
        p[lo + i] := mem.bytes(a + i);
        assert p[..] == after[lo + i := mem.bytes(a + i)];
        i := i + 1;
      }
    }
  }

  /** What io.ReadFull reports when `k` of `want` bytes arrive before the reader stops at offset `off`. */
  function FullReadCount(r: RegionReader, off: nat, want: nat, k: nat): (int, ReadError)
  {
    if k == want then (k, NoError)
    else if off + k >= r.size then (k, if k == 0 then EOF else UnexpectedEOF)
    else (k + r.failCount, EFAULT)
  }

  /** Where a full read stands: everything obtainable arrives with the first transfer, the next one only fails. */
  ghost predicate FullReadState(r: RegionReader, off0: nat, want: nat, off: nat, n: int, err: ReadError) {
    var k := r.Available(off0, want);
    && off0 <= off <= off0 + k
    && (err == NoError ==> n == off - off0 && (n == 0 || n == k))
    && (err != NoError ==>
          && off == off0 + k && k < want
          && (if off0 + k >= r.size then n == k && err == EOF else n == k + r.failCount && err == EFAULT))
  }

  lemma FullReadStep(r: RegionReader, off0: nat, want: nat, off: nat, n: int, rest: nat, nn: int, err: ReadError)
    requires FullReadState(r, off0, want, off, n, NoError) && n < want && rest == want - n
    requires var k := r.Available(off, rest);
             if off >= r.size then nn == 0 && err == EOF
             else if k > 0 then nn == k && err == NoError
             else nn == r.failCount && err == EFAULT
    ensures FullReadState(r, off0, want, off + r.Available(off, rest), n + nn, err)
    ensures off > off0 ==> r.Available(off, rest) == 0
    ensures err == NoError ==> nn > 0
  {
    r.Exhausted(off0, want);
  }

  lemma FullReadEnd(r: RegionReader, off0: nat, want: nat, off: nat, n: int, err: ReadError)
    requires want > 0 && FullReadState(r, off0, want, off, n, err) && !(n < want && err == NoError)
    ensures var k := r.Available(off0, want);
            && off == off0 + k
            && (n, if n >= want then NoError else if n > 0 && err == EOF then UnexpectedEOF else err)
               == FullReadCount(r, off0, want, k)
  {
  }

  /** One more transfer towards `len` bytes, `got` of which have arrived. */
  method ReadMore(r: RegionReader, p: array<byte>, lo: nat, len: nat, got: nat, ghost off0: nat, ghost p0: seq<byte>)
    returns (n: int, err: ReadError)
    requires got < len && lo + len <= p.Length == |p0| && off0 <= r.off
    requires FullReadState(r, off0, len, r.off, got, NoError)
    requires Stored(r.mem, p0, p[..], lo, r.start + off0, got)
    modifies r`off, p
    ensures off0 <= r.off && FullReadState(r, off0, len, r.off, n, err)
    ensures err == NoError ==> got < n && n == r.off - off0
    ensures Stored(r.mem, p0, p[..], lo, r.start + off0, r.off - off0)
  {
    hide Stored, FullReadState, RegionReader.Available;
    ghost var off1, p1 := r.off, p[..];
    FullReadPlace(r, off0, len, off1, got);
    var at, rest := lo + got, len - got;
    var nn;
    nn, err := r.Read(p, at, rest);
    n := got + nn;
    FullReadStep(r, off0, len, off1, got, rest, nn, err);
    StoredMore(r.mem, p0, p1, p[..], lo, at, r.start + off0, r.start + off1, got, r.off - off1);
  }

  /** Two transfers one after the other, of which one brings nothing. */
  lemma StoredMore(mem: Memory, p0: seq<byte>, p1: seq<byte>, p2: seq<byte>, lo: nat, at: nat, a0: nat, a1: nat,
                   got: nat, more: nat)
    requires Stored(mem, p0, p1, lo, a0, got) && Stored(mem, p1, p2, at, a1, more)
    requires at == lo + got && a1 == a0 + got && (got == 0 || more == 0)
    ensures Stored(mem, p0, p2, lo, a0, got + more)
  {
    if got == 0 {
      StoredNothing(mem, p0, p1, lo, a0);
    } else {
      StoredNothing(mem, p1, p2, at, a1);
    }
    hide Stored;
  }

  lemma FullReadStart(r: RegionReader, off0: nat, want: nat)
    ensures FullReadState(r, off0, want, off0, 0, NoError)
  {
  }

  lemma FullReadPlace(r: RegionReader, off0: nat, want: nat, off: nat, got: nat)
    requires FullReadState(r, off0, want, off, got, NoError)
    ensures off == off0 + got
  {
  }

  /** io.ReadFull: fill p[lo..lo + len) or report why not; a failing read adds its raw count to the partial one. */
  method ReadFull(r: RegionReader, p: array<byte>, lo: nat, len: nat) returns (n: int, err: ReadError)
    requires len > 0 && lo + len <= p.Length
    modifies r`off, p
    ensures var k := r.Available(old(r.off), len);
      && r.off == old(r.off) + k
      && Stored(r.mem, old(p[..]), p[..], lo, r.start + old(r.off), k)
      && (n, err) == FullReadCount(r, old(r.off), len, k)
  {
    hide Stored, FullReadState, RegionReader.Available, FullReadCount;
    ghost var off0, p0 := r.off, p[..];
    n, err := 0, NoError;
    StoredNothing(r.mem, p0, p[..], lo, r.start + off0);
    FullReadStart(r, off0, len);
    while n < len && err == NoError
      invariant off0 <= r.off && (err == NoError ==> n == r.off - off0)
      invariant FullReadState(r, off0, len, r.off, n, err)
      invariant Stored(r.mem, p0, p[..], lo, r.start + off0, r.off - off0)
      decreases err == NoError, len - n
    {
      n, err := ReadMore(r, p, lo, len, n, off0, p0);
    }
    FullReadEnd(r, off0, len, r.off, n, err);
    if n >= len {
      err := NoError;
    } else if n > 0 && err == EOF {
      err := UnexpectedEOF;
    }
  }

  /**
   After an unexpected read failure at `offset`, move the reader to the next page, provided that page
   starts inside the expected size.
   */
  method AlignNextPage(expectedSize: nat, r: RegionReader, offset: nat) returns (nextOffset: nat, ok: bool)
    modifies r`off
    ensures ok <==> PageEnd(offset) < expectedSize
    ensures ok ==> nextOffset == r.off == PageEnd(offset)
    ensures !ok ==> r.off == old(r.off)
  {
    nextOffset, ok := 0, false;
    if expectedSize == 0 {
      return;
    }
    nextOffset := PageRoundUp(offset);
    if nextOffset <= offset {
      nextOffset := nextOffset + PAGE_SIZE;
    }
    if nextOffset >= expectedSize {
      return 0, false;
    }
    nextOffset, ok := r.Seek(nextOffset, SeekStart);
  }
}

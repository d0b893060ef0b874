/**
 What a scan of one region has to find, stated over the memory alone.

 Offsets are relative to the region start. All that matters of the reading is which bytes arrive with the same
 buffer; carried bytes, windows and seeks are not mentioned.
 */
module Streams {
  import opened Arithmetic
  import opened Kernel
  import opened Values

  /** One region as a scanner with buffers of `bufSize` bytes reads it; `expected` is 0 without options. */
  datatype Stream = Stream(mem: Memory, failCount: FailCount, start: nat, size: nat, bufSize: pos, expected: nat) {

    predicate Readable(o: nat) {
      o < size && mem.Readable(start + o)
    }

    /** Where the maximal readable run ending just before `o` begins. */
    ghost function RunStart(o: nat): (s: nat)
      ensures s <= o
      ensures forall p :: s <= p < o ==> Readable(p)
      ensures s > 0 ==> !Readable(s - 1)
    {
      if o == 0 || !Readable(o - 1) then o else RunStart(o - 1)
    }

    /**
     The byte reaches the scanner. A failing read that reports -1 takes one byte off the partial count,
     so the last byte before an unreadable page is lost unless the run ends exactly at a buffer boundary.
     */
    ghost predicate Delivered(o: nat) {
      && Readable(o)
      && (failCount < 0 && o + 1 < size && !Readable(o + 1) ==> (o + 1 - RunStart(o)) % bufSize == 0)
    }

    /** The scan gets past every unreadable page up to `o`: the next page still starts inside the expected size. */
    ghost predicate Reached(o: nat) {
      forall p: nat :: p <= o && p < size && !Readable(p) ==> PageEnd(p) < expected
    }

    /** The value's bytes lie at `o`, all delivered, and at an aligned offset if the value asks for one. */
    ghost predicate Holds(v: Value, o: nat) {
      && o + v.Size() <= size
      && (forall p :: o <= p < o + v.Size() ==> Delivered(p))
      && v.EqualBytes(mem.Slice(start + o, v.Size()))
      && (v.Aligned() ==> v.Size() > 0 && o % v.Size() == 0)
    }

    /** A place of the value that the scan gets to see. */
    ghost predicate Target(v: Value, o: nat) {
      Holds(v, o) && Reached(o)
    }

    /** The last bytes of the values at `q` and `o`, in one readable run, arrive with the same buffer. */
    ghost predicate SameBuffer(v: Value, q: nat, o: nat) {
      var rs := RunStart(o);
      (q + v.Size() - 1 - rs) / bufSize == (o + v.Size() - 1 - rs) / bufSize
    }

    /**
     The offsets a scan for `v` reports. Only byte patterns that overlap themselves make a difference to
     Target: a place is passed over exactly if it overlaps a reported one that ends in the same buffer.
     */
    ghost predicate Reports(v: Value, o: nat) {
      && Target(v, o)
      && forall q: nat | o - v.Size() < q < o :: Reports(v, q) ==> !SameBuffer(v, q, o)
    }

    /** Aligned values do not overlap, so every place is reported. */
    lemma AlignedReports(v: Value, o: nat)
      requires v.Aligned()
      ensures Reports(v, o) <==> Target(v, o)
    {
      if Target(v, o) {
        forall q: nat | o - v.Size() < q < o ensures !Reports(v, q) {
          if Target(v, q) {
            AlignedGap(q, o, v.Size());
            assert false;
          }
        }
      }
    }

    /** So does every place of a pattern without a border. */
    lemma BorderFreeReports(v: Value, o: nat)
      requires v.Valid() && !v.HasOption() && v.BorderFree()
      ensures Reports(v, o) <==> Target(v, o)
    {
      if Target(v, o) {
        forall q: nat | o - v.Size() < q < o ensures !Reports(v, q) {
          if Target(v, q) {
            OverlapIsBorder(v, q, o);
            assert false;
          }
        }
      }
    }

    /** Two overlapping places of a pattern expose a border. */
    lemma OverlapIsBorder(v: Value, q: nat, o: nat)
      requires v.Valid() && !v.HasOption()
      requires Target(v, q) && Target(v, o) && q < o < q + v.Size()
      ensures !v.BorderFree()
    {
      var d := o - q;
      assert v.data == mem.Slice(start + q, v.Size());
      assert v.data == mem.Slice(start + o, v.Size());
      assert v.data[d..] == v.data[..|v.data| - d] by {
        forall i | 0 <= i < |v.data| - d ensures v.data[d..][i] == v.data[..|v.data| - d][i] {
          assert v.data[d + i] == mem.bytes(start + q + (d + i));
          assert v.data[i] == mem.bytes(start + o + i);
        }
      }
    }

    lemma RunStartAt(s: nat, o: nat)
      requires s <= o
      requires forall p :: s <= p < o ==> Readable(p)
      requires s > 0 ==> !Readable(s - 1)
      ensures RunStart(o) == s
    {
      var t := RunStart(o);
      var s': nat, t': nat := Max(s - 1, 0), Max(t - 1, 0);
      assert t < s ==> Readable(s');
      assert s < t ==> Readable(t');
    }
  }

  /** `seen` is exactly what is to be reported below `bound`. */
  ghost predicate Answers(s: Stream, v: Value, seen: seq<nat>, bound: int) {
    forall o: nat :: o in seen <==> s.Reports(v, o) && o < bound
  }
}

/** The anonymous-mapping result store `MmapUint64`. */
module MmapStore {
  import opened Kernel

  /** The builtin copy of `n` entries. */
  method CopyEntries(dst: array<nat>, at: nat, src: array<nat>, n: nat)
    requires at + n <= dst.Length && n <= src.Length && dst != src
    modifies dst
    ensures dst[at..at + n] == src[..n]
    ensures dst[..at] == old(dst[..at])
    ensures dst[..at + n] == old(dst[..at]) + src[..n]
    ensures dst[at + n..] == old(dst[at + n..])
  {
    var i := 0;
    while i < n
      invariant i <= n
      invariant dst[at..at + i] == src[..i]
      invariant dst[..at] == old(dst[..at])
      invariant dst[at + n..] == old(dst[at + n..])
    {
      dst[at + i] := src[i];
      i := i + 1;
    }
    assert dst[..at + n] == dst[..at] + dst[at..at + n];
  }

  class MmapUint64 {
    var data: array<nat>
    var cursor: nat

    constructor (caps: nat)
      ensures fresh(data) && data.Length == caps && cursor == 0
    {
      data := new nat[caps];
      cursor := 0;
    }

    /** Slicing past the mapping panics: the cursor may have run beyond it. */
    ghost predicate InBounds()
      reads this
    {
      cursor <= data.Length
    }

    function Data(): seq<nat>
      reads this, data
      requires InBounds()
    {
      data[..cursor]
    }

    /** Appends items[..n]. Past capacity nothing is copied, yet the cursor has already moved. */
    method Put(items: array<nat>, n: nat) returns (ok: bool)
      requires n <= items.Length && items != data
      modifies this`cursor, data
      ensures cursor == old(cursor) + n
      ensures ok <==> n == 0 || cursor <= data.Length
      ensures cursor <= data.Length ==> Data() == old(data[..cursor]) + items[..n]
      ensures n == 0 || !ok ==> data[..] == old(data[..])
    {
      if n == 0 {
        return true;
      }
      var startIdx := cursor;
      cursor := cursor + n;
      if startIdx + n > data.Length {
        return false;
      }
      CopyEntries(data, startIdx, items, n);
      return true;
    }

    /** Remaps to a larger capacity, keeping the contents. */
    method Grow(caps: nat)
      requires InBounds()
      modifies this`data
      ensures InBounds() && Data() == old(Data())
      ensures data.Length == if caps <= old(data.Length) then old(data.Length) else caps
      ensures caps <= old(data.Length) ==> data == old(data)
      ensures caps > old(data.Length) ==> fresh(data)
    {
      if caps <= data.Length {
        return;
      }
      var bigger := new nat[caps];
      CopyEntries(bigger, 0, data, data.Length);
      assert data[..cursor] == data[..data.Length][..cursor];
      assert bigger[..cursor] == bigger[..data.Length][..cursor];
      data := bigger;
    }

    /** Appends all of `other`, growing at need. `panicked` when `other` was overfilled. */
    method Merge(other: MmapUint64) returns (panicked: bool)
      requires InBounds() && other != this && other.data != data
      modifies this, data
      ensures panicked <==> !other.InBounds()
      ensures !panicked ==> InBounds() && Data() == old(Data()) + other.Data()
      ensures data == old(data) || fresh(data)
    {
      var n := other.cursor;
      if n == 0 {
        return false;
      }
      var newCount := cursor + n;
      if newCount > data.Length {
        var newCap := data.Length * 2;
        if newCap < newCount {
          newCap := newCount;
        }
        Grow(newCap);
      }
      if other.cursor > other.data.Length {
        return true;
      }
      CopyEntries(data, cursor, other.data, n);
      cursor := cursor + n;
      return false;
    }

    /** At most `n` entries from `offset`; nil is None. */
    function GetN(offset: int, n: int): (r: Option<seq<nat>>)
      reads this, data
      requires InBounds()
      ensures r.Some? <==> 0 <= offset < cursor && n >= 1
      ensures r.Some? ==> r.value == Data()[offset..Min(offset + n, cursor)]
    {
      if offset < 0 || n < 1 || offset >= cursor then None
      else Some(data[offset..Min(offset + n, cursor)])
    }

    method Clear()
      modifies this`cursor
      ensures cursor == 0 && Data() == []
    {
      cursor := 0;
    }
  }

  /**
   The 512-entry batch array that every collecting loop fills and hands to Put. `Taken` is everything
   added so far, on top of what the store held before.
   */
  const COLLECT_BATCH_SIZE: nat := 512

  class BatchWriter {
    const buf: MmapUint64
    const batch: array<nat>
    ghost const store: array<nat>
    var count: nat
    ghost var Taken: seq<nat>

    ghost predicate Valid()
      reads this, batch, buf, store
    {
      && buf.data == store && batch != store && batch.Length == COLLECT_BATCH_SIZE && count < COLLECT_BATCH_SIZE
      && buf.cursor + count == |Taken|
      && batch[..count] == Taken[buf.cursor..]
      && (buf.InBounds() ==> buf.Data() == Taken[..buf.cursor])
    }

    constructor (buf: MmapUint64)
      requires buf.InBounds()
      ensures Valid() && this.buf == buf && this.store == buf.data && fresh(batch) && Taken == buf.Data()
    {
      this.buf, store := buf, buf.data;
      batch := new nat[COLLECT_BATCH_SIZE];
      count := 0;
      Taken := buf.Data();
    }

    method Add(x: nat)
      requires Valid()
      modifies this, batch, buf`cursor, store
      ensures Valid() && Taken == old(Taken) + [x]
    {
      batch[count] := x;
      count := count + 1;
      Taken := Taken + [x];
      assert batch[..count] == old(batch[..count]) + [x];
      assert Taken[buf.cursor..] == old(Taken)[buf.cursor..] + [x];
      if count == COLLECT_BATCH_SIZE {
        assert Taken == Taken[..buf.cursor] + Taken[buf.cursor..];
        var _ := buf.Put(batch, count);
        count := 0;
        assert Taken[..buf.cursor] == Taken;
      }
    }

    /** The final Put: within capacity the store holds exactly `Taken`, past it the cursor is out of bounds. */
    method Flush()
      requires Valid()
      modifies this, batch, buf`cursor, store
      ensures Taken == old(Taken) && buf.cursor == |Taken|
      ensures |Taken| <= buf.data.Length ==> buf.InBounds() && buf.Data() == Taken
    {
      assert Taken == Taken[..buf.cursor] + Taken[buf.cursor..];
      if count > 0 {
        var _ := buf.Put(batch, count);
      }
    }
  }
}

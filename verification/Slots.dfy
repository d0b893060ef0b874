/** A flat byte buffer seen as fixed-size slots, one per address. */
module SlotBuffers {
  import opened Arithmetic
  import opened Kernel

  lemma SlotBounds(i: nat, n: nat, size: nat)
    requires i < n
    ensures 0 <= i * size <= i * size + size <= n * size
  {
    MulMono(i + 1, n, size);
    assert (i + 1) * size == i * size + size;
  }

  function Slot(content: seq<byte>, i: nat, size: nat): (slot: seq<byte>)
    requires (i + 1) * size <= |content|
    ensures |slot| == size
  {
    assert (i + 1) * size == i * size + size;
    content[i * size..i * size + size]
  }

  ghost function Slots(content: seq<byte>, n: nat, size: nat): (slots: seq<seq<byte>>)
    requires n * size <= |content|
    ensures |slots| == n
    ensures forall i :: 0 <= i < n ==> |slots[i]| == size
    decreases n
  {
    if n == 0 then []
    else
      SlotBounds(n - 1, n, size);
      Slots(content, n - 1, size) + [content[(n - 1) * size..n * size]]
  }

  lemma {:induction false} SlotsAt(content: seq<byte>, n: nat, size: nat, i: nat)
    requires n * size <= |content| && i < n
    ensures 0 <= i * size && (i + 1) * size <= |content|
    ensures Slots(content, n, size)[i] == Slot(content, i, size)
  {
    SlotBounds(i, n, size);
    assert (i + 1) * size == i * size + size;
    SlotBounds(n - 1, n, size);
    if i < n - 1 {
      SlotsAt(content, n - 1, size, i);
    }
  }

  /** Overwriting a prefix of slot `k` changes that slot and no other. */
  lemma SlotsUpdate(before: seq<byte>, after: seq<byte>, n: nat, size: nat, k: nat, word: seq<byte>)
    requires n * size <= |before| && k < n && |word| <= size
    requires 0 <= k * size && k * size + |word| <= |before|
    requires after == before[..k * size] + word + before[k * size + |word|..]
    ensures |after| == |before|
    ensures Slots(after, n, size) == Slots(before, n, size)[k := word + Slots(before, n, size)[k][|word|..]]
  {
    var slots, slots' := Slots(before, n, size), Slots(after, n, size);
    forall i | 0 <= i < n
      ensures slots'[i] == if i == k then word + slots[k][|word|..] else slots[i]
    {
      SlotsAt(before, n, size, i);
      SlotsAt(after, n, size, i);
      SlotUpdate(before, after, n, size, k, i, word);
    }
  }

  lemma SlotUpdate(before: seq<byte>, after: seq<byte>, n: nat, size: nat, k: nat, i: nat, word: seq<byte>)
    requires n * size <= |before| == |after| && k < n && i < n && |word| <= size
    requires 0 <= k * size && k * size + |word| <= |before|
    requires 0 <= i * size && (i + 1) * size <= |before|
    requires after == before[..k * size] + word + before[k * size + |word|..]
    ensures Slot(after, i, size)
            == if i == k then word + Slot(before, k, size)[|word|..] else Slot(before, i, size)
  {
    var p, q := i * size, k * size;
    assert (i + 1) * size == p + size;
    if i < k {
      MulMono(i + 1, k, size);
    } else if k < i {
      MulMono(k + 1, i, size);
      assert (k + 1) * size == q + size;
    }
    forall t | 0 <= t < size
      ensures Slot(after, i, size)[t]
              == (if i == k then word + Slot(before, k, size)[|word|..] else Slot(before, i, size))[t]
    {
      assert Slot(after, i, size)[t] == after[p + t];
    }
  }
}

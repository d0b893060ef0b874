/** What writing a value to a list of addresses amounts to: `ChangeValues` and `ChangeResultsValues`. */
module ValueChanges {
  import opened Arithmetic
  import opened Kernel
  import opened Values
  import opened Writes

  /** Address `a` takes the whole value. */
  ghost predicate Takes(mapped: nat -> bool, size: nat, a: nat) {
    MappedPrefix(mapped, a, size) == size
  }

  /** Some address of the list takes the whole value and its value covers byte `x`. */
  ghost predicate Covered(mapped: nat -> bool, addresses: seq<nat>, size: nat, x: nat) {
    exists i :: 0 <= i < |addresses| && addresses[i] <= x < addresses[i] + size && Takes(mapped, size, addresses[i])
  }

  ghost function TakingCount(mapped: nat -> bool, addresses: seq<nat>, size: nat, i: nat): nat
    requires i <= |addresses|
  {
    if i == 0 then 0
    else TakingCount(mapped, addresses, size, i - 1) + if Takes(mapped, size, addresses[i - 1]) then 1 else 0
  }

  ghost function FailingCount(mapped: nat -> bool, addresses: seq<nat>, size: nat, i: nat): nat
    requires i <= |addresses|
  {
    if i == 0 then 0
    else FailingCount(mapped, addresses, size, i - 1) + if FailsAt(mapped, addresses, size, i - 1) then 1 else 0
  }

  ghost predicate AlignedAddresses(addresses: seq<nat>, size: pos) {
    forall i :: 0 <= i < |addresses| ==> addresses[i] % size == 0
  }

  /** An aligned address takes all of a value or none of it. */
  lemma AllOrNothing(v: Value, mapped: nat -> bool, a: nat)
    requires v.Valid() && v.Aligned() && a % v.Size() == 0
    ensures MappedPrefix(mapped, a, v.Size()) == if mapped(a / PAGE_SIZE) then v.Size() else 0
  {
    AlignedInPage(v, a);
    if mapped(a / PAGE_SIZE) {
      RoomInPage(mapped, a, v.Size());
    }
  }

  lemma {:induction false} RoomInPage(mapped: nat -> bool, a: nat, size: nat)
    requires forall x :: a <= x < a + size ==> mapped(x / PAGE_SIZE)
    ensures MappedPrefix(mapped, a, size) == size
    decreases size
  {
    if size > 0 {
      assert mapped(a / PAGE_SIZE);
      RoomInPage(mapped, a + 1, size - 1);
    }
  }

  /** Two writes one after the other are one write of the joined list. */
  lemma {:induction false} WrittenOn(before: Memory, mid: Memory, addresses: seq<nat>, from: nat, to: nat, k: nat,
                                     data: seq<byte>, x: nat)
    requires from + k <= to <= |addresses|
    requires WrittenUpTo(before, mid, addresses, from, data)
    ensures ByteAfter(mid.bytes, mid.mapped, addresses[from..to], k, data, x)
            == ByteAfter(before.bytes, before.mapped, addresses, from + k, data, x)
  {
    if k > 0 {
      WrittenOn(before, mid, addresses, from, to, k - 1, data, x);
    }
  }

  lemma WrittenJoined(before: Memory, mid: Memory, after: Memory, addresses: seq<nat>, from: nat, to: nat,
                      data: seq<byte>)
    requires from <= to <= |addresses|
    requires WrittenUpTo(before, mid, addresses, from, data)
    requires WrittenUpTo(mid, after, addresses[from..to], to - from, data)
    ensures WrittenUpTo(before, after, addresses, to, data)
  {
    forall x: nat ensures after.bytes(x) == ByteAfter(before.bytes, before.mapped, addresses, to, data, x) {
      WrittenOn(before, mid, addresses, from, to, to - from, data, x);
    }
  }

  /** The byte at `x` once the addresses before `i` were served: the value's byte where one of them covers it. */
  lemma {:induction false} ByteOf(v: Value, bytes: nat -> byte, mapped: nat -> bool, addresses: seq<nat>, i: nat,
                                  k: nat, x: nat)
    requires v.Valid() && v.Aligned() && i <= |addresses| && AlignedAddresses(addresses, v.Size())
    ensures k < i && addresses[k] <= x < addresses[k] + v.Size() && Takes(mapped, v.Size(), addresses[k]) ==>
              ByteAfter(bytes, mapped, addresses, i, v.data, x) == v.data[x - addresses[k]]
    ensures !Covered(mapped, addresses, v.Size(), x) ==> ByteAfter(bytes, mapped, addresses, i, v.data, x) == bytes(x)
  {
    if i > 0 {
      var a := addresses[i - 1];
      AllOrNothing(v, mapped, a);
      if k < i - 1 && a <= x < a + v.Size() && addresses[k] <= x < addresses[k] + v.Size() {
        OnlyOne(v, a, addresses[k], x);
      }
      ByteOf(v, bytes, mapped, addresses, i - 1, k, x);
    }
  }

  /** Aligned values that cover the same byte start at the same address. */
  lemma OnlyOne(v: Value, a: nat, b: nat, x: nat)
    requires v.Valid() && v.Aligned() && a % v.Size() == 0 && b % v.Size() == 0
    requires a <= x < a + v.Size() && b <= x < b + v.Size()
    ensures a == b
  {
    if a < b {
      AlignedGap(a, b, v.Size());
    } else if b < a {
      AlignedGap(b, a, v.Size());
    }
  }

  /** The byte at `x` belongs to the value's place at an address in a writable page. */
  ghost predicate InWritten(mem: Memory, addresses: seq<nat>, size: nat, x: nat) {
    exists k :: 0 <= k < |addresses| && mem.Readable(addresses[k]) && addresses[k] <= x < addresses[k] + size
  }

  lemma CoveredIsWritable(v: Value, before: Memory, addresses: seq<nat>, x: nat)
    requires v.Valid() && v.Aligned() && AlignedAddresses(addresses, v.Size())
    requires Covered(before.mapped, addresses, v.Size(), x)
    ensures InWritten(before, addresses, v.Size(), x)
  {
    forall k | 0 <= k < |addresses| && Takes(before.mapped, v.Size(), addresses[k])
      ensures before.Readable(addresses[k])
    {
      AllOrNothing(v, before.mapped, addresses[k]);
    }
  }

  /**
   Writing an aligned value leaves every address in a writable page holding it, and changes no byte that
   lies outside those values.
   */
  lemma WritesExactly(v: Value, before: Memory, after: Memory, addresses: seq<nat>)
    requires v.Valid() && v.Aligned() && AlignedAddresses(addresses, v.Size())
    requires WrittenUpTo(before, after, addresses, |addresses|, v.data)
    ensures forall k :: 0 <= k < |addresses| && before.Readable(addresses[k]) ==>
              after.Slice(addresses[k], v.Size()) == v.data
    ensures forall x: nat :: !InWritten(before, addresses, v.Size(), x) ==> after.bytes(x) == before.bytes(x)
    ensures after.mapped == before.mapped
  {
    forall k | 0 <= k < |addresses| && before.Readable(addresses[k])
      ensures after.Slice(addresses[k], v.Size()) == v.data
    {
      AllOrNothing(v, before.mapped, addresses[k]);
      forall d | 0 <= d < v.Size() ensures after.Slice(addresses[k], v.Size())[d] == v.data[d] {
        ByteOf(v, before.bytes, before.mapped, addresses, |addresses|, k, addresses[k] + d);
      }
    }
    forall x: nat | !InWritten(before, addresses, v.Size(), x)
      ensures after.bytes(x) == before.bytes(x)
    {
      if Covered(before.mapped, addresses, v.Size(), x) {
        CoveredIsWritable(v, before, addresses, x);
        assert false;
      }
      ByteOf(v, before.bytes, before.mapped, addresses, |addresses|, 0, x);
    }
  }

  /**
   The total writeValues returns for an aligned value: its size for every address that takes it. Bare -1
   counts make it one less for every call that writes nothing.
   */
  lemma {:induction false} TotalWritten(v: Value, mapped: nat -> bool, failCount: FailCount, addresses: seq<nat>,
                                        i: nat)
    requires v.Valid() && v.Aligned() && i <= |addresses| && AlignedAddresses(addresses, v.Size())
    ensures Counted(mapped, failCount, addresses, v.Size(), i)
            == Times(TakingCount(mapped, addresses, v.Size(), i), v.Size())
               - if failCount < 0 then FailingCount(mapped, addresses, v.Size(), i) else 0
  {
    var size := v.Size();
    if i == 0 {
      TimesNone(size);
    } else {
      TotalWritten(v, mapped, failCount, addresses, i - 1);
      AllOrNothing(v, mapped, addresses[i - 1]);
      var n := TakingCount(mapped, addresses, size, i - 1);
      TimesNext(n, n + 1, size);
      hide Times, FailsAt, MappedPrefix, AlignedAddresses;
    }
  }

  /** Some batch of the list that starts before `limit` makes writeValues hang. */
  ghost predicate JamsBefore(failCount: FailCount, mapped: nat -> bool, addresses: seq<nat>, size: nat, limit: nat) {
    exists start :: 0 <= start < Min(limit, |addresses|) && start % IOV_MAX == 0
                    && Jams(failCount, mapped, Batch(addresses, start), size)
  }

  /** The at most IOV_MAX addresses from `start` on. */
  function Batch(addresses: seq<nat>, start: nat): (r: seq<nat>)
    requires start <= |addresses|
    ensures |r| <= IOV_MAX
  {
    addresses[start..BatchEnd(addresses, start)]
  }

  function BatchEnd(addresses: seq<nat>, start: nat): (r: nat)
    requires start <= |addresses|
    ensures start <= r <= |addresses| && r <= start + IOV_MAX
    ensures r == |addresses| || r == start + IOV_MAX
  {
    Min(start + IOV_MAX, |addresses|)
  }

  /** The list has been served up to `start`, and no batch before it hangs. */
  ghost predicate ServedTo(before: Memory, after: Memory, failCount: FailCount, addresses: seq<nat>, start: nat,
                           v: Value) {
    && start % IOV_MAX == 0
    && WrittenUpTo(before, after, addresses, Min(start, |addresses|), v.data)
    && !JamsBefore(failCount, before.mapped, addresses, v.Size(), start)
  }

  lemma ServedNext(before: Memory, mid: Memory, after: Memory, failCount: FailCount, addresses: seq<nat>, start: nat,
                   next: nat, v: Value)
    requires start < |addresses| && next == start + IOV_MAX
    requires ServedTo(before, mid, failCount, addresses, start, v)
    requires WrittenUpTo(mid, after, Batch(addresses, start), |Batch(addresses, start)|, v.data)
    requires !Jams(failCount, mid.mapped, Batch(addresses, start), v.Size())
    ensures ServedTo(before, after, failCount, addresses, next, v)
  {
    assert WrittenUpTo(before, mid, addresses, start, v.data);
    WrittenJoined(before, mid, after, addresses, start, BatchEnd(addresses, start), v.data);
    NoJamYet(failCount, before.mapped, addresses, v.Size(), start, next);
    assert mid.mapped == before.mapped;
    hide WrittenUpTo, Jams, JamsBefore;
  }

  lemma NoJamYet(failCount: FailCount, mapped: nat -> bool, addresses: seq<nat>, size: nat, start: nat, next: nat)
    requires start < |addresses| && start % IOV_MAX == 0 && next == start + IOV_MAX
    requires !JamsBefore(failCount, mapped, addresses, size, start)
    requires !Jams(failCount, mapped, Batch(addresses, start), size)
    ensures !JamsBefore(failCount, mapped, addresses, size, next)
  {
    hide Jams, Batch;
  }

  lemma HungAt(before: Memory, mid: Memory, failCount: FailCount, addresses: seq<nat>, start: nat, v: Value)
    requires start < |addresses| && ServedTo(before, mid, failCount, addresses, start, v)
    requires Jams(failCount, mid.mapped, Batch(addresses, start), v.Size())
    ensures JamsBefore(failCount, before.mapped, addresses, v.Size(), |addresses|)
  {
    hide Jams;
  }

  lemma ServedWhole(before: Memory, after: Memory, failCount: FailCount, addresses: seq<nat>, start: nat, v: Value)
    requires start >= |addresses| && ServedTo(before, after, failCount, addresses, start, v)
    ensures WrittenUpTo(before, after, addresses, |addresses|, v.data)
    ensures !JamsBefore(failCount, before.mapped, addresses, v.Size(), |addresses|)
  {
    hide WrittenUpTo, Jams;
  }

  /** Writes the value to every address of a list of any length, IOV_MAX addresses a batch. */
  method ChangeValues(target: Target, addresses: seq<nat>, v: Value) returns (returned: bool)
    requires v.Valid()
    modifies target
    ensures !returned <==> JamsBefore(target.failCount, old(target.mem).mapped, addresses, v.Size(), |addresses|)
    ensures returned ==> WrittenUpTo(old(target.mem), target.mem, addresses, |addresses|, v.data)
  {
    ghost var before := target.mem;
    var start: nat := 0;
    assert ServedTo(before, target.mem, target.failCount, addresses, 0, v);
    hide ServedTo, WrittenUpTo, JamsBefore, Jams;
    while start < |addresses|
      invariant ServedTo(before, target.mem, target.failCount, addresses, start, v)
    {
      ghost var mid := target.mem;
      var outcome := WriteValues(target, Batch(addresses, start), v);
      if outcome.Hangs? {
        HungAt(before, mid, target.failCount, addresses, start, v);
        return false;
      }
      var next := start + IOV_MAX;
      ServedNext(before, mid, target.mem, target.failCount, addresses, start, next, v);
      start := next;
    }
    ServedWhole(before, target.mem, target.failCount, addresses, start, v);
    return true;
  }

  /** An unwritable address, first in the list or right after another one. */
  ghost predicate Stranded(mapped: nat -> bool, addresses: seq<nat>, i: nat)
    requires i < |addresses|
  {
    !mapped(addresses[i] / PAGE_SIZE) && (i == 0 || !mapped(addresses[i - 1] / PAGE_SIZE))
  }

  /**
   One-byte writes with bare counts hang exactly when the list starts with an unwritable address or holds two in a
   row.
   */
  lemma HangsExactlyWhen(failCount: FailCount, mapped: nat -> bool, addresses: seq<nat>)
    requires failCount < 0
    ensures Jams(failCount, mapped, addresses, 1) <==> exists i ::
              0 <= i < |addresses| && Stranded(mapped, addresses, i)
  {
    forall i | 0 <= i < |addresses|
      ensures FailsAt(mapped, addresses, 1, i) <==> Stranded(mapped, addresses, i)
    {
      assert MappedPrefix(mapped, addresses[i], 1) == if mapped(addresses[i] / PAGE_SIZE) then 1 else 0;
      assert i > 0 ==>
               MappedPrefix(mapped, addresses[i - 1], 1) == if mapped(addresses[i - 1] / PAGE_SIZE) then 1 else 0;
    }
  }

  /** An unwritable address, first of its batch or right after another one. */
  ghost predicate StrandedInBatch(mapped: nat -> bool, addresses: seq<nat>, i: nat)
    requires i < |addresses|
  {
    !mapped(addresses[i] / PAGE_SIZE) && (i % IOV_MAX == 0 || !mapped(addresses[i - 1] / PAGE_SIZE))
  }

  /**
   When ChangeValues hangs, in terms a caller can check: exactly for one-byte values with bare counts, if some
   unwritable address is the first of its batch or follows another one.
   */
  lemma ChangeHangsExactlyWhen(failCount: FailCount, mapped: nat -> bool, addresses: seq<nat>, size: nat)
    ensures JamsBefore(failCount, mapped, addresses, size, |addresses|) <==>
            failCount < 0 && size == 1 && exists i :: 0 <= i < |addresses| && StrandedInBatch(mapped, addresses, i)
  {
    if failCount < 0 && size == 1 {
      if i :| 0 <= i < |addresses| && StrandedInBatch(mapped, addresses, i) {
        var start := i / IOV_MAX * IOV_MAX;
        BatchStranded(mapped, addresses, start, i - start);
        assert Stranded(mapped, Batch(addresses, start), i - start);
        HangsExactlyWhen(failCount, mapped, Batch(addresses, start));
      }
      if start :| && 0 <= start < |addresses| && start % IOV_MAX == 0
                  && Jams(failCount, mapped, Batch(addresses, start), size)
      {
        HangsExactlyWhen(failCount, mapped, Batch(addresses, start));
        var j :| 0 <= j < |Batch(addresses, start)| && Stranded(mapped, Batch(addresses, start), j);
        BatchStranded(mapped, addresses, start, j);
        assert StrandedInBatch(mapped, addresses, start + j);
      }
    }
  }

  lemma BatchStranded(mapped: nat -> bool, addresses: seq<nat>, start: nat, j: nat)
    requires start < |addresses| && start % IOV_MAX == 0 && start + j < |addresses| && j < IOV_MAX
    ensures j < |Batch(addresses, start)|
    ensures Stranded(mapped, Batch(addresses, start), j) <==> StrandedInBatch(mapped, addresses, start + j)
  {
    assert (start + j) % IOV_MAX == j;
  }

  datatype ResultsOutcome = Changed | Hung | OutOfBounds

  /** The results at the given positions, in the order given; positions outside the list are ignored. */
  function Selected(results: seq<nat>, retIndexes: seq<int>): (r: seq<nat>)
    ensures |r| <= |retIndexes|
    ensures forall a :: a in r <==> exists k ::
              0 <= k < |retIndexes| && 0 <= retIndexes[k] < |results| && a == results[retIndexes[k]]
  {
    if retIndexes == [] then []
    else
      var last := |retIndexes| - 1;
      Selected(results, retIndexes[..last])
      + if 0 <= retIndexes[last] < |results| then [results[retIndexes[last]]] else []
  }

  /**
   Writes the value to the selected results, or to all of them. The whole list goes to writeValues at once,
   whose vectors have IOV_MAX entries: a longer list panics before anything is written.
   */
  method ChangeResultsValues(target: Target, results: seq<nat>, retIndexes: seq<int>, v: Value)
    returns (outcome: ResultsOutcome)
    requires v.Valid()
    modifies target
    ensures var addresses := if retIndexes == [] then results else Selected(results, retIndexes);
            && (outcome.OutOfBounds? <==> |addresses| > IOV_MAX)
            && (outcome.Hung? <==>
                  && |addresses| <= IOV_MAX
                  && Jams(target.failCount, old(target.mem).mapped, addresses, v.Size()))
            && (outcome.Changed? ==> WrittenUpTo(old(target.mem), target.mem, addresses, |addresses|, v.data))
            && (outcome.OutOfBounds? ==> target.mem == old(target.mem))
  {
    if |results| == 0 {
      NothingSelected(retIndexes);
      return Changed;
    }
    var addresses: seq<nat> := results;
    if retIndexes != [] {
      addresses := Gather(results, retIndexes);
    }
    if |addresses| > IOV_MAX {
      return OutOfBounds;
    }
    if |addresses| == 0 {
      return Changed;
    }
    var written := WriteValues(target, addresses, v);
    hide *;
    return if written.Hangs? then Hung else Changed;
  }

  lemma {:induction false} NothingSelected(retIndexes: seq<int>)
    ensures Selected([], retIndexes) == []
  {
    if retIndexes != [] {
      NothingSelected(retIndexes[..|retIndexes| - 1]);
    }
  }

  method Gather(results: seq<nat>, retIndexes: seq<int>) returns (addresses: seq<nat>)
    ensures addresses == Selected(results, retIndexes)
  {
    addresses := [];
    var k := 0;
    while k < |retIndexes|
      invariant 0 <= k <= |retIndexes|
      invariant addresses == Selected(results, retIndexes[..k])
    {
      assert retIndexes[..k + 1][..k] == retIndexes[..k];
      if 0 <= retIndexes[k] < |results| {
        addresses := addresses + [results[retIndexes[k]]];
      }
      k := k + 1;
    }
    assert retIndexes[..k] == retIndexes;
  }
}

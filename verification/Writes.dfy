/** Scattered writes: `writeValues` and `ChangeValues`. */
module Writes {
  import opened Arithmetic
  import opened Kernel
  import opened Values
  import opened SparseRead

  /** The process being written to. Here `mem.mapped` says which pages can be written. */
  class Target {
    var mem: Memory
    const failCount: FailCount

    constructor (mem: Memory, failCount: FailCount)
      ensures this.mem == mem && this.failCount == failCount
    {
      this.mem, this.failCount := mem, failCount;
    }

    /** Stores the first `n` bytes of `data` at address `a`. */
    method Poke(a: nat, data: seq<byte>, n: nat)
      requires n <= |data|
      modifies this
      ensures mem.mapped == old(mem.mapped)
      ensures forall x: nat :: mem.bytes(x) == if a <= x < a + n then data[x - a] else old(mem.bytes)(x)
    {
      var bytes := mem.bytes;
      mem := Memory((x: nat) => if a <= x < a + n then data[x - a] else bytes(x), mem.mapped);
    }
  }

  /** The byte at `x` after the value went to addresses[..i] in order, each as far as its pages allow. */
  ghost function ByteAfter(bytes: nat -> byte, mapped: nat -> bool, addresses: seq<nat>, i: nat, data: seq<byte>,
                           x: nat): byte
    requires i <= |addresses|
  {
    if i == 0 then bytes(x)
    else
      var a := addresses[i - 1];
      if a <= x < a + MappedPrefix(mapped, a, |data|) then data[x - a]
      else ByteAfter(bytes, mapped, addresses, i - 1, data, x)
  }

  ghost predicate WrittenUpTo(before: Memory, after: Memory, addresses: seq<nat>, i: nat, data: seq<byte>)
    requires i <= |addresses|
  {
    && after.mapped == before.mapped
    && forall x: nat :: after.bytes(x) == ByteAfter(before.bytes, before.mapped, addresses, i, data, x)
  }

  /** The address does not take the whole value. */
  ghost predicate Short(mapped: nat -> bool, addresses: seq<nat>, size: nat, i: nat)
    requires i < |addresses|
  {
    MappedPrefix(mapped, addresses[i], size) < size
  }

  /** A call that starts at `i`, at the beginning or right after a skipped address, and writes nothing. */
  ghost predicate FailsAt(mapped: nat -> bool, addresses: seq<nat>, size: nat, i: nat)
    requires i < |addresses|
  {
    MappedPrefix(mapped, addresses[i], size) == 0 && (i == 0 || Short(mapped, addresses, size, i - 1))
  }

  /** The count writeValues accumulates: the bytes written, plus the raw count of every failing call. */
  ghost function Counted(mapped: nat -> bool, failCount: FailCount, addresses: seq<nat>, size: nat, i: nat): int
    requires i <= |addresses|
  {
    if i == 0 then 0
    else
      Counted(mapped, failCount, addresses, size, i - 1)
      + MappedPrefix(mapped, addresses[i - 1], size)
      + if FailsAt(mapped, addresses, size, i - 1) then failCount else 0
  }

  lemma WrittenNext(before: Memory, mid: Memory, after: Memory, addresses: seq<nat>, i: nat, data: seq<byte>)
    requires i < |addresses| && WrittenUpTo(before, mid, addresses, i, data) && after.mapped == mid.mapped
    requires var a := addresses[i];
             forall x: nat :: after.bytes(x)
                 == if a <= x < a + MappedPrefix(before.mapped, a, |data|) then data[x - a] else mid.bytes(x)
    ensures WrittenUpTo(before, after, addresses, i + 1, data)
  {
  }

  /** addresses[from..to) all take the whole value. */
  ghost predicate NoneShort(mapped: nat -> bool, addresses: seq<nat>, size: nat, from: nat, to: nat)
    requires to <= |addresses|
  {
    forall i :: from <= i < to ==> !Short(mapped, addresses, size, i)
  }

  /** A call that starts at the beginning or after a skipped address adds its own report to the count. */
  lemma {:induction false} CountedCall(mapped: nat -> bool, failCount: FailCount, addresses: seq<nat>, size: nat,
                                       from: nat, cut: nat)
    requires from <= cut <= |addresses| && from < |addresses| && size > 0
    requires from == 0 || Short(mapped, addresses, size, from - 1)
    requires NoneShort(mapped, addresses, size, from, cut)
    requires cut < |addresses| ==> Short(mapped, addresses, size, cut)
    ensures var r := if cut < |addresses| then MappedPrefix(mapped, addresses[cut], size) else 0;
            Counted(mapped, failCount, addresses, size, Past(cut, |addresses|))
            == Counted(mapped, failCount, addresses, size, from)
               + if cut == from && r == 0 then failCount else Times(cut - from, size) + r
  {
    hide MappedPrefix;
    WholeCounted(mapped, failCount, addresses, size, from, cut);
    TimesNone(size);
    hide Times;
    if cut < |addresses| {
      assert cut > from ==> !Short(mapped, addresses, size, cut - 1);
      CountedNext(mapped, failCount, addresses, size, cut, Past(cut, |addresses|));
    }
  }

  lemma {:induction false} WholeCounted(mapped: nat -> bool, failCount: FailCount, addresses: seq<nat>, size: nat,
                                        from: nat, to: nat)
    requires from <= to <= |addresses| && size > 0 && NoneShort(mapped, addresses, size, from, to)
    ensures Counted(mapped, failCount, addresses, size, to)
            == Counted(mapped, failCount, addresses, size, from) + Times(to - from, size)
  {
    hide MappedPrefix, FailsAt;
    if from == to {
      TimesNone(size);
    } else {
      var t: nat := to - 1;
      WholeCounted(mapped, failCount, addresses, size, from, t);
      assert !Short(mapped, addresses, size, t);
      CountedNext(mapped, failCount, addresses, size, t, to);
      TimesNext(t - from, to - from, size);
      hide *;
    }
  }

  lemma CountedNext(mapped: nat -> bool, failCount: FailCount, addresses: seq<nat>, size: nat, i: nat, next: nat)
    requires next == i + 1 <= |addresses| && size > 0
    ensures Counted(mapped, failCount, addresses, size, next)
            == Counted(mapped, failCount, addresses, size, i)
               + MappedPrefix(mapped, addresses[i], size) + if FailsAt(mapped, addresses, size, i) then failCount else 0
    ensures !Short(mapped, addresses, size, i) ==>
              Counted(mapped, failCount, addresses, size, next) == Counted(mapped, failCount, addresses, size, i) + size
  {
  }

  /** Writes whole values until an address takes only `r` bytes. */
  method WriteAll(target: Target, addresses: seq<nat>, from: nat, data: seq<byte>, ghost before: Memory)
    returns (cut: nat, r: nat)
    requires from < |addresses| && data != [] && WrittenUpTo(before, target.mem, addresses, from, data)
    modifies target
    ensures from <= cut <= |addresses| && NoneShort(before.mapped, addresses, |data|, from, cut)
    ensures cut < |addresses| ==>
              Short(before.mapped, addresses, |data|, cut) && r == MappedPrefix(before.mapped, addresses[cut], |data|)
    ensures cut == |addresses| ==> r == 0
    ensures WrittenUpTo(before, target.mem, addresses, Past(cut, |addresses|), data)
  {
    hide WrittenUpTo;
    cut := from;
    while cut < |addresses|
      invariant from <= cut <= |addresses|
      invariant WrittenUpTo(before, target.mem, addresses, cut, data)
      invariant NoneShort(before.mapped, addresses, |data|, from, cut)
    {
      r := WriteOne(target, addresses, cut, data, before);
      if r < |data| {
        return;
      }
      cut := cut + 1;
    }
    r := 0;
  }

  /** process_vm_writev from `from` on: the longest writable prefix of the list, stopping at addresses[cut]. */
  method ProcessVMWritev(target: Target, addresses: seq<nat>, from: nat, data: seq<byte>, ghost before: Memory)
    returns (nWrite: int, ghost cut: nat, ghost r: nat)
    requires from < |addresses| <= IOV_MAX && data != []
    requires WrittenUpTo(before, target.mem, addresses, from, data)
    modifies target
    ensures from <= cut <= |addresses| && NoneShort(before.mapped, addresses, |data|, from, cut)
    ensures cut < |addresses| ==>
              Short(before.mapped, addresses, |data|, cut) && r == MappedPrefix(before.mapped, addresses[cut], |data|)
    ensures cut == |addresses| ==> r == 0
    ensures WrittenUpTo(before, target.mem, addresses, Past(cut, |addresses|), data)
    ensures nWrite == if cut == from && r == 0 then target.failCount else Times(cut - from, |data|) + r
  {
    var stop, rest := WriteAll(target, addresses, from, data, before);
    cut, r := stop, rest;
    hide *;
    nWrite := if stop == from && rest == 0 then target.failCount else Times(stop - from, |data|) + rest;
  }

  method WriteOne(target: Target, addresses: seq<nat>, j: nat, data: seq<byte>, ghost before: Memory) returns (r: nat)
    requires j < |addresses| && WrittenUpTo(before, target.mem, addresses, j, data)
    modifies target
    ensures r == MappedPrefix(before.mapped, addresses[j], |data|)
    ensures WrittenUpTo(before, target.mem, addresses, j + 1, data)
  {
    ghost var mid := target.mem;
    r := target.mem.ReadablePrefix(addresses[j], |data|);
    target.Poke(addresses[j], data, r);
    WrittenNext(before, mid, target.mem, addresses, j, data);
  }

  /** One-byte writes with bare -1 counts never get past an address that fails at the start of a call. */
  ghost predicate Jams(failCount: FailCount, mapped: nat -> bool, addresses: seq<nat>, size: nat)
  {
    failCount < 0 && size == 1 && exists i :: 0 <= i < |addresses| && FailsAt(mapped, addresses, size, i)
  }

  datatype WriteOutcome = Done(total: int) | Hangs

  /** Where a sequence of calls stands: all before `at` written, and `at` the start of the next call. */
  ghost predicate Standing(before: Memory, after: Memory, failCount: FailCount, addresses: seq<nat>, at: nat,
                           data: seq<byte>, total: int)
    requires at <= |addresses|
  {
    && WrittenUpTo(before, after, addresses, at, data)
    && total == Counted(before.mapped, failCount, addresses, |data|, at)
    && (0 < at < |addresses| ==> Short(before.mapped, addresses, |data|, at - 1))
    && (failCount < 0 && |data| == 1 ==> forall i :: 0 <= i < at ==> !FailsAt(before.mapped, addresses, |data|, i))
  }

  lemma StandingNext(before: Memory, after: Memory, failCount: FailCount, addresses: seq<nat>, at: nat, cut: nat,
                     data: seq<byte>, total: int, nWrite: int, mid: Memory, r: nat)
    requires data != [] && at < |addresses| && at <= cut <= |addresses|
    requires Standing(before, mid, failCount, addresses, at, data, total)
    requires NoneShort(before.mapped, addresses, |data|, at, cut)
    requires cut < |addresses| ==>
               Short(before.mapped, addresses, |data|, cut) && r == MappedPrefix(before.mapped, addresses[cut], |data|)
    requires cut == |addresses| ==> r == 0
    requires WrittenUpTo(before, after, addresses, Past(cut, |addresses|), data)
    requires nWrite == if cut == at && r == 0 then failCount else Times(cut - at, |data|) + r
    ensures cut == at && failCount < 0 && |data| == 1 ==> FailsAt(before.mapped, addresses, |data|, at)
    ensures !(cut == at && failCount < 0 && |data| == 1) ==>
              Standing(before, after, failCount, addresses, Past(cut, |addresses|), data, total + nWrite)
  {
    CountedCall(before.mapped, failCount, addresses, |data|, at, cut);
    NoFailure(before.mapped, addresses, |data|, at, cut);
    hide WrittenUpTo, Counted, Times, NoneShort;
  }

  /** One call: how many values its count is taken for, and where the writing stands after the skip. */
  method CountedWritev(target: Target, addresses: seq<nat>, at: nat, data: seq<byte>, ghost before: Memory,
                       totalWritten: int)
    returns (nWrite: int, successCount: int, ghost cut: nat)
    requires at < |addresses| <= IOV_MAX && data != []
    requires Standing(before, target.mem, target.failCount, addresses, at, data, totalWritten)
    modifies target
    ensures at <= cut <= |addresses|
    ensures var jam := cut == at && target.failCount < 0 && |data| == 1;
            && successCount == (if jam then -1 else cut - at)
            && (jam ==> FailsAt(before.mapped, addresses, |data|, at))
            && (!jam ==> Standing(before, target.mem, target.failCount, addresses, Past(cut, |addresses|), data,
                totalWritten + nWrite))
  {
    hide NoneShort, WrittenUpTo, MappedPrefix, FailsAt, Times, Counted;
    ghost var mid := target.mem;
    ghost var r;
    nWrite, cut, r := ProcessVMWritev(target, addresses, at, data, before);
    StandingNext(before, target.mem, target.failCount, addresses, at, cut, data, totalWritten, nWrite, mid, r);
    CountedWhole(target.failCount, cut - at, r, |data|);
    successCount := GoDiv(nWrite, |data|);
  }

  /**
   Writes the value to every address, skipping those that do not take it whole. The total is the bytes
   written plus a raw count for every failing call; a turn that does not advance repeats forever.
   */
  method WriteValues(target: Target, addresses: seq<nat>, v: Value) returns (outcome: WriteOutcome)
    requires v.Valid() && |addresses| <= IOV_MAX
    modifies target
    ensures outcome.Hangs? <==> Jams(target.failCount, old(target.mem).mapped, addresses, v.Size())
    ensures outcome.Done? ==>
              && WrittenUpTo(old(target.mem), target.mem, addresses, |addresses|, v.data)
              && outcome.total == Counted(old(target.mem).mapped, target.failCount, addresses, v.Size(), |addresses|)
  {
    ghost var before := target.mem;
    var totalWritten, currentPos := 0, 0;
    assert Standing(before, target.mem, target.failCount, addresses, 0, v.data, 0);
    hide Standing, FailsAt;
    while currentPos < |addresses|
      invariant 0 <= currentPos <= |addresses|
      invariant Standing(before, target.mem, target.failCount, addresses, currentPos, v.data, totalWritten)
    {
      var nWrite, successCount, cut := CountedWritev(target, addresses, currentPos, v.data, before, totalWritten);
      totalWritten := totalWritten + nWrite;
      var next := currentPos + successCount;
      if next < |addresses| {
        next := next + 1;
      }
      if next == currentPos {
        return Hangs;
      }
      currentPos := next;
    }
    Stands(before, target.mem, target.failCount, addresses, v.data, totalWritten);
    return Done(totalWritten);
  }

  lemma Stands(before: Memory, after: Memory, failCount: FailCount, addresses: seq<nat>, data: seq<byte>, total: int)
    requires Standing(before, after, failCount, addresses, |addresses|, data, total)
    ensures WrittenUpTo(before, after, addresses, |addresses|, data)
    ensures total == Counted(before.mapped, failCount, addresses, |data|, |addresses|)
    ensures !Jams(failCount, before.mapped, addresses, |data|)
  {
  }

  /** In a call for one-byte values that wrote something no address was a failing start. */
  lemma NoFailure(mapped: nat -> bool, addresses: seq<nat>, size: nat, from: nat, cut: nat)
    requires from <= cut <= |addresses| && size > 0 && NoneShort(mapped, addresses, size, from, cut)
    ensures forall i :: from <= i < cut ==> !FailsAt(mapped, addresses, size, i)
    ensures from < cut < |addresses| ==> !FailsAt(mapped, addresses, size, cut)
  {
    assert from < cut ==> !Short(mapped, addresses, size, cut - 1);
    forall i | from <= i < cut ensures !FailsAt(mapped, addresses, size, i) {
      assert !Short(mapped, addresses, size, i);
    }
  }
}

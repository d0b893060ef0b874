/** Scattered reads of many addresses at once: `readValuesRaw`, `filterResults` and the sparse scanning task. */
module SparseRead {
  import opened Arithmetic
  import opened Kernel
  import opened SlotBuffers
  import opened ScanTasks

  /** Stores `word` at the start of slot `k`. */
  method StoreInSlot(buf: array<byte>, k: nat, size: nat, word: seq<byte>, ghost n: nat)
    requires k < n && n * size <= buf.Length && |word| <= size
    modifies buf
    ensures Slots(buf[..], n, size)
              == old(Slots(buf[..], n, size))[k := word + old(Slots(buf[..], n, size))[k][|word|..]]
  {
    SlotBounds(k, n, size);
    var at := k * size;
    ghost var before := buf[..];
    var i := 0;
    while i < |word|
      invariant i <= |word|
      invariant buf[..] == before[..at] + word[..i] + before[at + i..]
    {
      buf[at + i] := word[i];
      i := i + 1;
    }
    assert word[..i] == word;
    SlotsUpdate(before, buf[..], n, size, k, word);
  }

  /** What a slot holds after a transfer: the readable prefix, then whatever was there. */
  function Transferred(mem: Memory, a: nat, stale: seq<byte>): seq<byte> {
    var r := mem.ReadablePrefix(a, |stale|);
    mem.Slice(a, r) + stale[r..]
  }

  ghost predicate Whole(mem: Memory, a: nat, size: nat) {
    mem.ReadablePrefix(a, size) == size
  }

  /** The slots once a transfer has been through addresses[from..to). */
  ghost function Filled(mem: Memory, addresses: seq<nat>, from: nat, to: nat,
                        slots: seq<seq<byte>>): (r: seq<seq<byte>>)
    requires to <= |addresses| == |slots|
    ensures |r| == |slots|
    ensures forall i :: 0 <= i < |r| ==>
              r[i] == if from <= i < to then Transferred(mem, addresses[i], slots[i]) else slots[i]
  {
    seq(|slots|, i requires 0 <= i < |slots| =>
      if from <= i < to then Transferred(mem, addresses[i], slots[i]) else slots[i])
  }

  /** The buffer is where a transfer through addresses[from..to) leaves it. */
  ghost predicate Progress(mem: Memory, addresses: seq<nat>, from: nat, to: nat, size: nat,
                           content: seq<byte>, slots: seq<seq<byte>>)
    requires to <= |addresses| == |slots| && |addresses| * size <= |content|
  {
    && (forall i :: 0 <= i < |slots| ==> |slots[i]| == size)
    && Slots(content, |addresses|, size) == Filled(mem, addresses, from, to, slots)
  }

  lemma FilledNext(mem: Memory, addresses: seq<nat>, from: nat, to: nat, slots: seq<seq<byte>>)
    requires from <= to < |addresses| == |slots|
    ensures Filled(mem, addresses, from, to + 1, slots)
            == Filled(mem, addresses, from, to, slots)[to := Transferred(mem, addresses[to], slots[to])]
  {
  }

  /** Delivers one address's readable prefix into its slot. */
  method TransferOne(proc: Process, addresses: seq<nat>, ghost from: nat, j: nat, size: pos, buf: array<byte>,
                     ghost slots: seq<seq<byte>>)
    returns (r: nat)
    requires from <= j < |addresses| == |slots| && |addresses| * size <= buf.Length
    requires Progress(proc.mem, addresses, from, j, size, buf[..], slots)
    modifies buf
    ensures r == proc.mem.ReadablePrefix(addresses[j], size)
    ensures Progress(proc.mem, addresses, from, j + 1, size, buf[..], slots)
  {
    r := proc.mem.ReadablePrefix(addresses[j], size);
    StoreInSlot(buf, j, size, proc.mem.Slice(addresses[j], r), |addresses|);
    FilledNext(proc.mem, addresses, from, j, slots);
  }

  ghost predicate AllWhole(mem: Memory, addresses: seq<nat>, from: nat, to: nat, size: nat)
    requires to <= |addresses|
  {
    forall i :: from <= i < to ==> Whole(mem, addresses[i], size)
  }

  lemma OneMoreWhole(mem: Memory, addresses: seq<nat>, from: nat, to: nat, size: nat)
    requires to < |addresses| && AllWhole(mem, addresses, from, to, size)
    requires mem.ReadablePrefix(addresses[to], size) >= size
    ensures AllWhole(mem, addresses, from, to + 1, size)
  {
  }

  /** The first entry past those touched by a transfer that ended at `cut`. */
  function Past(cut: nat, n: nat): nat {
    if cut < n then cut + 1 else n
  }

  /** Transfers whole addresses until one is cut short: `r` bytes of addresses[cut] arrive. */
  method TransferAll(proc: Process, addresses: seq<nat>, from: nat, size: pos, buf: array<byte>)
    returns (cut: nat, r: nat)
    requires from < |addresses| && |addresses| * size <= buf.Length
    modifies buf
    ensures from <= cut <= |addresses| && AllWhole(proc.mem, addresses, from, cut, size)
    ensures cut < |addresses| ==> r == proc.mem.ReadablePrefix(addresses[cut], size) < size
    ensures cut == |addresses| ==> r == 0
    ensures Progress(proc.mem, addresses, from, Past(cut, |addresses|), size, buf[..],
              Slots(old(buf[..]), |addresses|, size))
  {
    ghost var slots := Slots(buf[..], |addresses|, size);
    FilledNothing(proc.mem, addresses, from, slots);
    assert Progress(proc.mem, addresses, from, from, size, buf[..], slots);
    cut, r := from, 0;
    assert AllWhole(proc.mem, addresses, from, cut, size);
    hide Slots, Progress, AllWhole;
    while cut < |addresses|
      invariant from <= cut <= |addresses|
      invariant AllWhole(proc.mem, addresses, from, cut, size)
      invariant Progress(proc.mem, addresses, from, cut, size, buf[..], slots)
    {
      r := TransferOne(proc, addresses, from, cut, size, buf, slots);
      if r < size {
        return;
      }
      OneMoreWhole(proc.mem, addresses, from, cut, size);
      cut := cut + 1;
    }
    r := 0;
  }

  /**
   process_vm_readv into one slot per address, from `from` on: the longest readable prefix of the whole
   list, in bytes, or the failing call's count. The addresses before `cut` arrive whole.
   */
  method ProcessVMReadv(proc: Process, addresses: seq<nat>, from: nat, size: pos, buf: array<byte>)
    returns (nRead: int, ghost cut: nat, ghost r: nat)
    requires from < |addresses| <= IOV_MAX && |addresses| * size <= buf.Length
    modifies buf
    ensures from <= cut <= |addresses| && AllWhole(proc.mem, addresses, from, cut, size)
    ensures cut < |addresses| ==> r == proc.mem.ReadablePrefix(addresses[cut], size) < size
    ensures cut == |addresses| ==> r == 0
    ensures Progress(proc.mem, addresses, from, Past(cut, |addresses|), size, buf[..],
              Slots(old(buf[..]), |addresses|, size))
    ensures nRead == if cut == from && r == 0 then proc.failCount else Times(cut - from, size) + r
  {
    var stop, rest := TransferAll(proc, addresses, from, size, buf);
    cut, r := stop, rest;
    hide *;
    nRead := if stop == from && rest == 0 then proc.failCount else Times(stop - from, size) + rest;
  }

  lemma FilledNothing(mem: Memory, addresses: seq<nat>, from: nat, slots: seq<seq<byte>>)
    requires from <= |addresses| == |slots|
    ensures Filled(mem, addresses, from, from, slots) == slots
  {
  }

  /** What slot contents a read leaves for address `a`: its bytes, or the disturbing byte before stale ones. */
  ghost function ReadSlot(mem: Memory, a: nat, disturb: byte, stale: seq<byte>): (slot: seq<byte>)
    requires stale != []
    ensures |slot| == |stale|
    ensures !Whole(mem, a, |stale|) ==> slot[0] == disturb
  {
    if Whole(mem, a, |stale|) then mem.Slice(a, |stale|)
    else [disturb] + Transferred(mem, a, stale)[1..]
  }

  /** Slots below `done` are read, the others untouched. */
  ghost predicate ReadUpTo(mem: Memory, addresses: seq<nat>, done: nat, size: pos, disturb: byte,
                           content: seq<byte>, slots: seq<seq<byte>>)
    requires done <= |addresses| == |slots| && |addresses| * size <= |content|
  {
    && (forall i :: 0 <= i < |slots| ==> |slots[i]| == size)
    && (forall i :: 0 <= i < done ==>
        Slots(content, |addresses|, size)[i] == ReadSlot(mem, addresses[i], disturb, slots[i]))
    && (forall i :: done <= i < |slots| ==> Slots(content, |addresses|, size)[i] == slots[i])
  }

  /** A transfer from `done` that ends inside address `cut`, whose slot is then disturbed, reads past it. */
  lemma DisturbedPast(mem: Memory, addresses: seq<nat>, done: nat, cut: nat, size: pos, disturb: byte,
                      c0: seq<byte>, c1: seq<byte>, c2: seq<byte>, slots: seq<seq<byte>>)
    requires done <= cut < |addresses| == |slots|
    requires |addresses| * size <= |c0| && |addresses| * size <= |c1| && |addresses| * size <= |c2|
    requires ReadUpTo(mem, addresses, done, size, disturb, c0, slots)
    requires AllWhole(mem, addresses, done, cut, size) && !Whole(mem, addresses[cut], size)
    requires Progress(mem, addresses, done, cut + 1, size, c1, Slots(c0, |addresses|, size))
    requires var s1 := Slots(c1, |addresses|, size);
             Slots(c2, |addresses|, size) == s1[cut := [disturb] + s1[cut][1..]]
    ensures ReadUpTo(mem, addresses, cut + 1, size, disturb, c2, slots)
  {
  }

  /** A transfer from `done` that gets through everything. */
  lemma ReadThrough(mem: Memory, addresses: seq<nat>, done: nat, size: pos, disturb: byte,
                    c0: seq<byte>, c1: seq<byte>, slots: seq<seq<byte>>)
    requires done <= |addresses| == |slots|
    requires |addresses| * size <= |c0| && |addresses| * size <= |c1|
    requires ReadUpTo(mem, addresses, done, size, disturb, c0, slots)
    requires AllWhole(mem, addresses, done, |addresses|, size)
    requires Progress(mem, addresses, done, |addresses|, size, c1, Slots(c0, |addresses|, size))
    ensures ReadUpTo(mem, addresses, |addresses|, size, disturb, c1, slots)
  {
  }

  /** Go's integer division, which truncates toward zero. */
  function GoDiv(a: int, b: pos): int {
    if a >= 0 then a / b else -((-a) / b)
  }

  lemma SmallQuotient(size: pos)
    ensures 1 / size == (if size == 1 then 1 else 0) && 0 / size == 0
  {
  }

  /** The whole addresses a reported count stands for; a bare -1 counts as one too few for single bytes. */
  lemma CountedWhole(failCount: FailCount, m: nat, r: nat, size: pos)
    requires r < size
    ensures var nRead := if m == 0 && r == 0 then failCount else Times(m, size) + r;
            GoDiv(nRead, size) == if m == 0 && failCount < 0 && size == 1 then -1 else m
  {
    if m > 0 || r > 0 {
      ModUnique(m, r, size);
    } else if failCount < 0 {
      SmallQuotient(size);
    }
  }

  datatype ReadOutcome = Finished | OutOfBounds | Stuck

  ghost predicate CutAt(mem: Memory, addresses: seq<nat>, size: nat, i: nat)
    requires i < |addresses|
  {
    !Whole(mem, addresses[i], size)
  }

  /** Two neighbouring addresses that cannot be read whole. */
  ghost predicate CutPair(mem: Memory, addresses: seq<nat>, size: nat, to: nat)
    requires to <= |addresses|
  {
    exists i :: 0 <= i && i + 1 < to && CutAt(mem, addresses, size, i) && CutAt(mem, addresses, size, i + 1)
  }

  /** One-byte reads with bare -1 counts cannot get past an unreadable address met at the start of a call. */
  ghost predicate Fragile(proc: Process, size: nat) {
    proc.failCount < 0 && size == 1
  }

  /** A fragile read has come this far: no cut at the start, no cut pair, and it stands right after a cut. */
  ghost predicate Sound(proc: Process, addresses: seq<nat>, size: nat, at: nat)
    requires at <= |addresses|
  {
    Fragile(proc, size) && at > 0 ==>
      && !CutAt(proc.mem, addresses, size, 0)
      && !CutPair(proc.mem, addresses, size, at)
      && (at < |addresses| ==> CutAt(proc.mem, addresses, size, at - 1))
  }

  lemma SoundNext(proc: Process, addresses: seq<nat>, size: nat, at: nat, cut: nat)
    requires at <= cut <= |addresses| && at < |addresses| && Sound(proc, addresses, size, at)
    requires AllWhole(proc.mem, addresses, at, cut, size)
    requires cut < |addresses| ==> CutAt(proc.mem, addresses, size, cut)
    requires Fragile(proc, size) ==> at < cut
    ensures Sound(proc, addresses, size, Past(cut, |addresses|))
  {
    var to := Past(cut, |addresses|);
    if Fragile(proc, size) {
      assert !CutAt(proc.mem, addresses, size, at);
      forall i | 0 <= i && i + 1 < to && CutAt(proc.mem, addresses, size, i)
        ensures !CutAt(proc.mem, addresses, size, i + 1)
      {
      }
    }
  }

  lemma FragileStops(proc: Process, addresses: seq<nat>, size: nat, at: nat)
    requires at < |addresses| && Sound(proc, addresses, size, at) && Fragile(proc, size)
    requires CutAt(proc.mem, addresses, size, at)
    ensures at > 0 ==> !CutAt(proc.mem, addresses, size, 0) && CutPair(proc.mem, addresses, size, |addresses|)
  {
    assert at > 0 ==> CutAt(proc.mem, addresses, size, at - 1) && CutAt(proc.mem, addresses, size, at - 1 + 1);
  }

  /** One call, and how many slots its count is taken for. */
  method CountedReadv(proc: Process, addresses: seq<nat>, at: nat, size: pos, buf: array<byte>)
    returns (successCount: int, ghost cut: nat)
    requires at < |addresses| <= IOV_MAX && |addresses| * size <= buf.Length
    requires Sound(proc, addresses, size, at)
    modifies buf
    ensures at <= cut <= |addresses| && AllWhole(proc.mem, addresses, at, cut, size)
    ensures cut < |addresses| ==> CutAt(proc.mem, addresses, size, cut) && !Whole(proc.mem, addresses[cut], size)
    ensures Progress(proc.mem, addresses, at, Past(cut, |addresses|), size, buf[..],
              Slots(old(buf[..]), |addresses|, size))
    ensures successCount == if cut == at && Fragile(proc, size) then -1 else cut - at
    ensures successCount >= 0 ==> Sound(proc, addresses, size, Past(cut, |addresses|))
  {
    hide Times, GoDiv, Progress, AllWhole, Sound, Memory.ReadablePrefix, Slots;
    var nRead, stop, r := ProcessVMReadv(proc, addresses, at, size, buf);
    cut := stop;
    CutDecides(proc, addresses, size, at, cut);
    var m := cut - at;
    CountedWhole(proc.failCount, m, r, size);
    successCount := GoDiv(nRead, size);
  }

  /** Puts the disturbing byte into the slot of the address that cut the transfer short. */
  method DisturbCut(proc: Process, addresses: seq<nat>, ghost at: nat, cut: nat, size: pos, disturb: byte,
                    buf: array<byte>, ghost c0: seq<byte>, ghost slots: seq<seq<byte>>)
    requires at <= cut < |addresses| == |slots| && |addresses| * size <= buf.Length && |addresses| * size <= |c0|
    requires ReadUpTo(proc.mem, addresses, at, size, disturb, c0, slots)
    requires AllWhole(proc.mem, addresses, at, cut, size) && !Whole(proc.mem, addresses[cut], size)
    requires Progress(proc.mem, addresses, at, cut + 1, size, buf[..], Slots(c0, |addresses|, size))
    modifies buf
    ensures ReadUpTo(proc.mem, addresses, cut + 1, size, disturb, buf[..], slots)
  {
    ghost var c1 := buf[..];
    StoreInSlot(buf, cut, size, [disturb], |addresses|);
    DisturbedPast(proc.mem, addresses, at, cut, size, disturb, c0, c1, buf[..], slots);
  }

  /** One call and the skip after it: the position it leads to, which a fragile read may not advance. */
  method ReadTurn(proc: Process, addresses: seq<nat>, at: nat, size: pos, disturb: byte, buf: array<byte>,
                  ghost slots: seq<seq<byte>>)
    returns (next: int)
    requires at < |addresses| <= IOV_MAX && |addresses| * size <= buf.Length && |slots| == |addresses|
    requires ReadUpTo(proc.mem, addresses, at, size, disturb, buf[..], slots)
    requires Sound(proc, addresses, size, at)
    modifies buf
    ensures -1 <= next <= |addresses|
    ensures next > at ==> ReadUpTo(proc.mem, addresses, next, size, disturb, buf[..], slots)
                          && Sound(proc, addresses, size, next)
    ensures next <= at ==> Fragile(proc, size) && CutAt(proc.mem, addresses, size, at)
                           && next == if at == 0 then -1 else at
  {
    hide Slots, ReadUpTo, Progress, AllWhole, CutAt, Sound, Whole, Fragile;
    ghost var c0 := buf[..];
    var successCount, cut := CountedReadv(proc, addresses, at, size, buf);
    ghost var c1 := buf[..];
    next := at + successCount;
    if successCount < 0 {
      if next >= 0 {
        StoreInSlot(buf, next, size, [disturb], |addresses|);
        next := next + 1;
      }
      return;
    }
    if next < |addresses| {
      assert Progress(proc.mem, addresses, at, next + 1, size, c1, Slots(c0, |addresses|, size));
      DisturbCut(proc, addresses, at, next, size, disturb, buf, c0, slots);
      next := next + 1;
    } else {
      assert Progress(proc.mem, addresses, at, |addresses|, size, c1, Slots(c0, |addresses|, size));
      ReadThrough(proc.mem, addresses, at, size, disturb, c0, c1, slots);
    }
  }

  /**
   Reads every address into its slot, skipping the ones that cannot be read. A turn that leaves the position
   and the buffer as they were repeats forever; that is reported as `Stuck`, and an index before the buffer
   as `OutOfBounds`.
   */
  method ReadValuesRaw(proc: Process, addresses: seq<nat>, size: pos, disturb: byte, buf: array<byte>)
    returns (outcome: ReadOutcome)
    requires |addresses| <= IOV_MAX && |addresses| * size <= buf.Length
    modifies buf
    ensures outcome.Finished? ==>
              ReadUpTo(proc.mem, addresses, |addresses|, size, disturb, buf[..], Slots(old(buf[..]), |addresses|, size))
    ensures !outcome.Finished? ==> Fragile(proc, size)
    ensures outcome.OutOfBounds? <==>
              Fragile(proc, size) && addresses != [] && CutAt(proc.mem, addresses, size, 0)
    ensures outcome.Stuck? <==>
              && Fragile(proc, size) && addresses != [] && !CutAt(proc.mem, addresses, size, 0)
              && CutPair(proc.mem, addresses, size, |addresses|)
  {
    ghost var slots := Slots(buf[..], |addresses|, size);
    assert forall i :: 0 <= i < |slots| ==> |slots[i]| == size;
    assert ReadUpTo(proc.mem, addresses, 0, size, disturb, buf[..], slots);
    assert Sound(proc, addresses, size, 0);
    hide Slots, ReadUpTo, CutAt, CutPair, Fragile;
    var currentPos := 0;
    while currentPos < |addresses|
      invariant 0 <= currentPos <= |addresses|
      invariant ReadUpTo(proc.mem, addresses, currentPos, size, disturb, buf[..], slots)
      invariant Sound(proc, addresses, size, currentPos)
      decreases |addresses| - currentPos
    {
      var next := ReadTurn(proc, addresses, currentPos, size, disturb, buf, slots);
      if next < 0 {
        return OutOfBounds;
      }
      if next == currentPos {
        FragileStops(proc, addresses, size, currentPos);
        return Stuck;
      }
      currentPos := next;
    }
    return Finished;
  }

  /** What the call's outcome says about where the read stands next. */
  lemma CutDecides(proc: Process, addresses: seq<nat>, size: nat, at: nat, cut: nat)
    requires at < |addresses| && at <= cut <= |addresses| && Sound(proc, addresses, size, at)
    requires AllWhole(proc.mem, addresses, at, cut, size)
    requires cut < |addresses| ==> proc.mem.ReadablePrefix(addresses[cut], size) < size
    ensures cut < |addresses| ==> CutAt(proc.mem, addresses, size, cut) && !Whole(proc.mem, addresses[cut], size)
    ensures !(cut == at && Fragile(proc, size)) ==> Sound(proc, addresses, size, Past(cut, |addresses|))
  {
    if !(cut == at && Fragile(proc, size)) {
      SoundNext(proc, addresses, size, at, cut);
    }
  }
}

/** `filterResults` over one batch of scattered reads, and the sparse scanning task made of such batches. */
module SparseScan {
  import opened Arithmetic
  import opened Kernel
  import opened Values
  import opened Sequences
  import opened SlotBuffers
  import opened MmapStore
  import opened ScanTasks
  import opened SparseRead

  const NEXT_SCAN_TASK_SIZE: nat := IOV_MAX * 32

  /** The value lies at `x` in readable memory: what a next scan is asked, without regions or alignment. */
  ghost predicate HeldAt(mem: Memory, v: Value, x: nat) {
    Whole(mem, x, v.Size()) && v.EqualBytes(mem.Slice(x, v.Size()))
  }

  ghost function Held(mem: Memory, v: Value): nat -> bool {
    (x: nat) => HeldAt(mem, v, x)
  }

  /** No stale bytes can be mistaken for the value: it is exact, or every address can be read. */
  ghost predicate Settled(mem: Memory, v: Value, addresses: seq<nat>) {
    v.HasOption() ==> forall x :: x in addresses ==> Whole(mem, x, v.Size())
  }

  /**
   `taken` keeps every address that holds the value, in order; beyond those only a rounded float can add
   addresses, and only unreadable ones.
   */
  ghost predicate Reported(mem: Memory, v: Value, addresses: seq<nat>, taken: seq<nat>) {
    && Ascending(taken)
    && (forall x :: x in taken ==> x in addresses)
    && (forall x :: x in addresses && HeldAt(mem, v, x) ==> x in taken)
    && (forall x :: x in taken ==> HeldAt(mem, v, x) || (v.HasOption() && !Whole(mem, x, v.Size())))
  }

  lemma SettledReport(mem: Memory, v: Value, addresses: seq<nat>, taken: seq<nat>)
    requires Ascending(addresses) && Reported(mem, v, addresses, taken) && Settled(mem, v, addresses)
    ensures taken == Filter(addresses, Held(mem, v))
  {
    FilterAscending(addresses, Held(mem, v));
    AscendingUnique(taken, Filter(addresses, Held(mem, v)));
  }

  lemma ReportedConcat(mem: Memory, v: Value, p: seq<nat>, q: seq<nat>, taken: seq<nat>, more: seq<nat>)
    requires Ascending(p + q) && Reported(mem, v, p, taken) && Reported(mem, v, q, more)
    ensures Reported(mem, v, p + q, taken + more)
  {
    forall i, j | 0 <= i < |taken| && 0 <= j < |more| ensures taken[i] < more[j] {
      assert taken[i] in taken && more[j] in more;
      var k :| 0 <= k < |p| && p[k] == taken[i];
      var l :| 0 <= l < |q| && q[l] == more[j];
      assert (p + q)[k] < (p + q)[|p| + l];
    }
  }

  /** A read slot compares equal exactly when the address holds the value, stale bytes aside. */
  lemma SlotVerdict(mem: Memory, v: Value, x: nat, stale: seq<byte>)
    requires v.Valid() && |stale| == v.Size()
    ensures var equal := v.EqualBytes(ReadSlot(mem, x, v.DisturbingByte(), stale));
            && (HeldAt(mem, v, x) ==> equal)
            && (equal ==> HeldAt(mem, v, x) || (v.HasOption() && !Whole(mem, x, v.Size())))
  {
    if !v.HasOption() && !Whole(mem, x, v.Size()) {
      DisturbedNeverEqual(v, ReadSlot(mem, x, v.DisturbingByte(), stale));
    }
  }

  /** The addresses below `n` whose slots compare equal, in order. */
  ghost function EqualSlots(v: Value, addresses: seq<nat>, slots: seq<seq<byte>>, n: nat): (kept: seq<nat>)
    requires n <= |addresses| && n <= |slots|
    ensures |kept| <= n
  {
    if n == 0 then []
    else EqualSlots(v, addresses, slots, n - 1) + if v.EqualBytes(slots[n - 1]) then [addresses[n - 1]] else []
  }

  lemma {:induction false} EqualConcat(v: Value, p: seq<nat>, q: seq<nat>, s: seq<seq<byte>>, t: seq<seq<byte>>, n: nat)
    requires |p| == |s| && n <= |q| && n <= |t|
    ensures EqualSlots(v, p + q, s + t, |p| + n) == EqualSlots(v, p, s, |p|) + EqualSlots(v, q, t, n)
  {
    if n == 0 {
      EqualPrefix(v, p, q, s, t, |p|);
    } else {
      EqualConcat(v, p, q, s, t, n - 1);
    }
  }

  lemma {:induction false} EqualPrefix(v: Value, p: seq<nat>, q: seq<nat>, s: seq<seq<byte>>, t: seq<seq<byte>>, n: nat)
    requires n <= |p| == |s|
    ensures EqualSlots(v, p + q, s + t, n) == EqualSlots(v, p, s, n)
  {
    if n > 0 {
      EqualPrefix(v, p, q, s, t, n - 1);
    }
  }

  function Zeros(n: nat): (z: seq<byte>)
    ensures |z| == n
  {
    seq(n, _ => 0)
  }

  /**
   What the slot of address `j` of a task holds when it is compared. The buffer starts cleared and is used
   again for every batch, so stale bytes are those of the address one batch earlier.
   */
  ghost function SlotOf(mem: Memory, v: Value, addresses: seq<nat>, j: nat): (slot: seq<byte>)
    requires v.Valid() && j < |addresses|
    ensures |slot| == v.Size()
    decreases j
  {
    ReadSlot(mem, addresses[j], v.DisturbingByte(), StaleOf(mem, v, addresses, j))
  }

  /** What that slot holds before its batch is read. */
  ghost function StaleOf(mem: Memory, v: Value, addresses: seq<nat>, j: nat): (slot: seq<byte>)
    requires v.Valid() && j < |addresses| + IOV_MAX
    ensures |slot| == v.Size()
    decreases j, 0
  {
    if j < IOV_MAX then Zeros(v.Size()) else SlotOf(mem, v, addresses, j - IOV_MAX)
  }

  ghost function SlotsOf(mem: Memory, v: Value, addresses: seq<nat>): (slots: seq<seq<byte>>)
    requires v.Valid()
    ensures |slots| == |addresses|
    ensures forall j :: 0 <= j < |slots| ==> slots[j] == SlotOf(mem, v, addresses, j)
  {
    seq(|addresses|, j requires 0 <= j < |addresses| => SlotOf(mem, v, addresses, j))
  }

  /** The answer of a sparse task over its share of the results. */
  ghost function SparseAnswer(mem: Memory, v: Value, addresses: seq<nat>): (kept: seq<nat>)
    requires v.Valid()
    ensures |kept| <= |addresses|
  {
    EqualSlots(v, addresses, SlotsOf(mem, v, addresses), |addresses|)
  }

  /** A task's answer reports on its share, whatever the stale bytes are. */
  lemma AnswerReported(mem: Memory, v: Value, addresses: seq<nat>)
    requires v.Valid() && Ascending(addresses)
    ensures Reported(mem, v, addresses, SparseAnswer(mem, v, addresses))
  {
    EqualReported(mem, v, addresses, SlotsOf(mem, v, addresses), |addresses|);
    assert addresses[..|addresses|] == addresses;
  }

  lemma {:induction false} EqualReported(mem: Memory, v: Value, addresses: seq<nat>, slots: seq<seq<byte>>, n: nat)
    requires v.Valid() && Ascending(addresses) && n <= |addresses| && slots == SlotsOf(mem, v, addresses)
    ensures Reported(mem, v, addresses[..n], EqualSlots(v, addresses, slots, n))
  {
    if n == 0 {
      return;
    }
    hide *;
    var m := n - 1;
    EqualReported(mem, v, addresses, slots, m);
    EqualNext(mem, v, addresses, slots, m, n);
    OneReported(mem, v, addresses, m);
    ReportedStep(mem, v, addresses, m, n, EqualSlots(v, addresses, slots, m), OneEqual(mem, v, addresses, m));
  }

  /** What address `j` adds to its task's answer. */
  ghost function OneEqual(mem: Memory, v: Value, addresses: seq<nat>, j: nat): seq<nat>
    requires v.Valid() && j < |addresses|
  {
    if v.EqualBytes(SlotOf(mem, v, addresses, j)) then [addresses[j]] else []
  }

  lemma EqualNext(mem: Memory, v: Value, addresses: seq<nat>, slots: seq<seq<byte>>, m: nat, n: nat)
    requires v.Valid() && n == m + 1 <= |addresses| && slots == SlotsOf(mem, v, addresses)
    ensures EqualSlots(v, addresses, slots, n) == EqualSlots(v, addresses, slots, m) + OneEqual(mem, v, addresses, m)
    ensures addresses[m..n] == [addresses[m]]
  {
    hide SlotOf;
    assert slots[m] == SlotOf(mem, v, addresses, m);
  }

  lemma FrontAscending(s: seq<nat>, n: nat)
    requires Ascending(s) && n <= |s|
    ensures Ascending(s[..n])
  {
  }

  lemma OneReported(mem: Memory, v: Value, addresses: seq<nat>, j: nat)
    requires v.Valid() && j < |addresses|
    ensures Reported(mem, v, [addresses[j]], OneEqual(mem, v, addresses, j))
  {
    SlotVerdict(mem, v, addresses[j], StaleOf(mem, v, addresses, j));
    hide ReadSlot, HeldAt, StaleOf;
  }

  /** Compares the slots one by one and collects the addresses of the equal ones in 512-entry batches. */
  method CollectEqual(addresses: seq<nat>, v: Value, buf: array<byte>, results: MmapUint64)
    returns (ghost kept: seq<nat>)
    requires v.Valid() && |addresses| * v.Size() <= buf.Length && results.InBounds()
    requires results.cursor + |addresses| <= results.data.Length
    modifies results`cursor, results.data
    ensures kept == EqualSlots(v, addresses, Slots(buf[..], |addresses|, v.Size()), |addresses|)
    ensures results.data == old(results.data) && buf[..] == old(buf[..])
    ensures results.InBounds() && results.Data() == old(results.Data()) + kept
  {
    var writer := new BatchWriter(results);
    ghost var before := results.Data();
    ghost var content := buf[..];
    var size := v.Size();
    ghost var slots := Slots(content, |addresses|, size);
    hide Slots, Slot;
    kept := [];
    for i := 0 to |addresses|
      invariant writer.Valid() && writer.Taken == before + kept
      invariant buf[..] == content && results.data == old(results.data)
      invariant kept == EqualSlots(v, addresses, slots, i)
    {
      SlotBounds(i, |addresses|, size);
      var word := buf[i * size..i * size + size];
      WordOfSlot(content, |addresses|, size, i);
      assert word == content[i * size..i * size + size];
      kept := CollectOne(addresses[i], v, word, writer, before, kept);
    }
    writer.Flush();
  }

  lemma WordOfSlot(content: seq<byte>, n: nat, size: nat, i: nat)
    requires n * size <= |content| && i < n
    ensures 0 <= i * size && i * size + size <= |content|
    ensures content[i * size..i * size + size] == Slots(content, n, size)[i]
  {
    SlotsAt(content, n, size, i);
    assert (i + 1) * size == i * size + size;
  }

  /** Adds an address if its slot compares equal. */
  method CollectOne(address: nat, v: Value, word: seq<byte>, writer: BatchWriter, ghost before: seq<nat>,
                    ghost kept0: seq<nat>)
    returns (ghost kept: seq<nat>)
    requires writer.Valid() && writer.Taken == before + kept0
    modifies writer, writer.batch, writer.buf`cursor, writer.store
    ensures writer.Valid() && writer.Taken == before + kept
    ensures kept == kept0 + if v.EqualBytes(word) then [address] else []
  {
    kept := kept0 + if v.EqualBytes(word) then [address] else [];
    if v.EqualBytes(word) {
      writer.Add(address);
      assert before + kept0 + [address] == before + kept;
    } else {
      assert kept == kept0;
    }
  }

  /** Reads one batch and appends the addresses whose slots then compare equal. */
  method FilterResults(proc: Process, addresses: seq<nat>, v: Value, readBuffer: array<byte>, results: MmapUint64)
    returns (outcome: ReadOutcome, ghost kept: seq<nat>)
    requires v.Valid() && |addresses| <= IOV_MAX
    requires |addresses| * v.Size() <= readBuffer.Length && results.InBounds()
    requires results.cursor + |addresses| <= results.data.Length
    modifies readBuffer, results`cursor, results.data
    ensures outcome.Finished? <==> !SparseJams(proc, addresses, v.Size(), |addresses|)
    ensures outcome.Finished? ==>
              && ReadUpTo(proc.mem, addresses, |addresses|, v.Size(), v.DisturbingByte(), readBuffer[..],
                          old(Slots(readBuffer[..], |addresses|, v.Size())))
              && kept == EqualSlots(v, addresses, Slots(readBuffer[..], |addresses|, v.Size()), |addresses|)
              && results.data == old(results.data) && results.InBounds()
              && results.Data() == old(results.Data()) + kept
  {
    hide Slots, ReadUpTo, EqualSlots;
    outcome := ReadValuesRaw(proc, addresses, v.Size(), v.DisturbingByte(), readBuffer);
    JamDecides(proc, addresses, v.Size());
    kept := [];
    if outcome.Finished? {
      kept := CollectEqual(addresses, v, readBuffer, results);
    }
  }

  /** An unreadable address that is the first of its batch or follows another one. */
  ghost predicate Strands(mem: Memory, addresses: seq<nat>, size: nat, i: nat)
    requires i < |addresses|
  {
    CutAt(mem, addresses, size, i) && (i % IOV_MAX == 0 || CutAt(mem, addresses, size, i - 1))
  }

  /** Some batch crashes or hangs: only one-byte values with bare counts, exactly at a stranding address below `to`. */
  ghost predicate SparseJams(proc: Process, addresses: seq<nat>, size: nat, to: nat)
    requires to <= |addresses|
  {
    Fragile(proc, size) && exists i :: 0 <= i < to && Strands(proc.mem, addresses, size, i)
  }

  lemma JamDecides(proc: Process, addresses: seq<nat>, size: nat)
    requires |addresses| <= IOV_MAX
    ensures SparseJams(proc, addresses, size, |addresses|) <==>
            Fragile(proc, size) && addresses != []
                && (CutAt(proc.mem, addresses, size, 0) || CutPair(proc.mem, addresses, size, |addresses|))
  {
    if addresses != [] && CutAt(proc.mem, addresses, size, 0) {
      assert Strands(proc.mem, addresses, size, 0);
    }
    if CutPair(proc.mem, addresses, size, |addresses|) {
      var i :| 0 <= i && i + 1 < |addresses| && CutAt(proc.mem, addresses, size, i)
          && CutAt(proc.mem, addresses, size, i + 1);
      assert Strands(proc.mem, addresses, size, i + 1);
    }
    if exists i :: 0 <= i < |addresses| && Strands(proc.mem, addresses, size, i) {
      var i :| 0 <= i < |addresses| && Strands(proc.mem, addresses, size, i);
      assert i == 0 || CutAt(proc.mem, addresses, size, i - 1 + 1);
    }
  }

  /** A stretch of the list that starts with a batch strands exactly where the list does. */
  lemma StrandsInBatch(mem: Memory, addresses: seq<nat>, size: nat, start: nat, end: nat, i: nat)
    requires start <= i < end <= |addresses| && start % IOV_MAX == 0
    ensures Strands(mem, addresses[start..end], size, i - start) <==> Strands(mem, addresses, size, i)
  {
    assert (i - start) % IOV_MAX == i % IOV_MAX;
  }

  lemma JamsNext(proc: Process, addresses: seq<nat>, size: nat, start: nat, end: nat)
    requires start <= end <= |addresses| && start % IOV_MAX == 0
    ensures SparseJams(proc, addresses, size, end) <==>
            SparseJams(proc, addresses, size, start) || SparseJams(proc, addresses[start..end], size, end - start)
  {
    forall i | start <= i < end
      ensures Strands(proc.mem, addresses[start..end], size, i - start) <==> Strands(proc.mem, addresses, size, i)
    {
      StrandsInBatch(proc.mem, addresses, size, start, end, i);
    }
    hide Strands, Fragile;
    if exists i :: start <= i < end && Strands(proc.mem, addresses, size, i) {
      var i :| start <= i < end && Strands(proc.mem, addresses, size, i);
      assert Strands(proc.mem, addresses[start..end], size, i - start);
    }
    if exists j :: 0 <= j < end - start && Strands(proc.mem, addresses[start..end], size, j) {
      var j :| 0 <= j < end - start && Strands(proc.mem, addresses[start..end], size, j);
      assert Strands(proc.mem, addresses[start..end], size, (start + j) - start);
      assert Strands(proc.mem, addresses, size, start + j);
    }
  }

  /** The buffer holds what the addresses from `start` on find in their slots. */
  ghost predicate StaleFrom(mem: Memory, v: Value, addresses: seq<nat>, start: nat, content: seq<byte>)
    requires v.Valid() && IOV_MAX * v.Size() <= |content|
  {
    forall i :: 0 <= i < IOV_MAX && start + i < |addresses| ==>
                  Slots(content, IOV_MAX, v.Size())[i] == StaleOf(mem, v, addresses, start + i)
  }

  /** The first `m` of `n` slots are the slots of a shorter view. */
  lemma SlotsView(content: seq<byte>, m: nat, n: nat, size: nat)
    requires m <= n && n * size <= |content|
    ensures m * size <= |content|
    ensures forall i :: 0 <= i < m ==> Slots(content, m, size)[i] == Slots(content, n, size)[i]
  {
    MulMono(m, n, size);
    forall i | 0 <= i < m ensures Slots(content, m, size)[i] == Slots(content, n, size)[i] {
      SlotsAt(content, m, size, i);
      SlotsAt(content, n, size, i);
    }
  }

  /** Reading a batch leaves its slots as SlotOf says. */
  lemma BatchRead(mem: Memory, v: Value, addresses: seq<nat>, start: nat, end: nat, c0: seq<byte>, c1: seq<byte>)
    requires v.Valid() && start <= end <= |addresses| && end - start <= IOV_MAX
    requires IOV_MAX * v.Size() <= |c0| && IOV_MAX * v.Size() <= |c1|
    requires (end - start) * v.Size() <= |c0| && (end - start) * v.Size() <= |c1|
    requires StaleFrom(mem, v, addresses, start, c0)
    requires ReadUpTo(mem, addresses[start..end], end - start, v.Size(), v.DisturbingByte(), c1,
               Slots(c0, end - start, v.Size()))
    ensures Slots(c1, end - start, v.Size()) == SlotsOf(mem, v, addresses)[start..end]
  {
    hide *;
    StaleView(mem, v, addresses, start, end, c0);
    ReadView(mem, v, addresses[start..end], c1, Slots(c0, end - start, v.Size()));
    ReadSlots(mem, v, addresses, start, end, Slots(c0, end - start, v.Size()), Slots(c1, end - start, v.Size()));
  }

  lemma StaleView(mem: Memory, v: Value, addresses: seq<nat>, start: nat, end: nat, content: seq<byte>)
    requires v.Valid() && start <= end <= |addresses| && end - start <= IOV_MAX && IOV_MAX * v.Size() <= |content|
    requires (end - start) * v.Size() <= |content| && StaleFrom(mem, v, addresses, start, content)
    ensures FindsStale(mem, v, addresses, start, Slots(content, end - start, v.Size()))
  {
    SlotsView(content, end - start, IOV_MAX, v.Size());
    hide Slots, StaleOf;
  }

  /** The slots are what the addresses from `start` on find. */
  ghost predicate FindsStale(mem: Memory, v: Value, addresses: seq<nat>, start: nat, slots: seq<seq<byte>>)
    requires v.Valid() && start + |slots| <= |addresses|
  {
    forall i :: 0 <= i < |slots| ==> slots[i] == StaleOf(mem, v, addresses, start + i)
  }

  lemma ReadView(mem: Memory, v: Value, batch: seq<nat>, content: seq<byte>, stale: seq<seq<byte>>)
    requires v.Valid() && |batch| == |stale| && |batch| * v.Size() <= |content|
    requires ReadUpTo(mem, batch, |batch|, v.Size(), v.DisturbingByte(), content, stale)
    ensures ReadFrom(mem, v, batch, stale, Slots(content, |batch|, v.Size()))
  {
    hide Slots, ReadSlot;
  }

  /** The slots are those of a batch read over the stale ones. */
  ghost predicate ReadFrom(mem: Memory, v: Value, batch: seq<nat>, stale: seq<seq<byte>>, slots: seq<seq<byte>>)
    requires v.Valid() && |batch| == |stale| == |slots|
  {
    forall i :: 0 <= i < |stale| ==> stale[i] != [] && slots[i] == ReadSlot(mem, batch[i], v.DisturbingByte(), stale[i])
  }

  lemma ReadSlots(mem: Memory, v: Value, addresses: seq<nat>, start: nat, end: nat, s0: seq<seq<byte>>,
                  s1: seq<seq<byte>>)
    requires v.Valid() && start <= end <= |addresses| && end - start <= IOV_MAX && |s0| == |s1| == end - start
    requires FindsStale(mem, v, addresses, start, s0) && ReadFrom(mem, v, addresses[start..end], s0, s1)
    ensures s1 == SlotsOf(mem, v, addresses)[start..end]
  {
    var all := SlotsOf(mem, v, addresses);
    forall i | 0 <= i < |s1| ensures s1[i] == all[start..end][i] {
      var j := start + i;
      assert all[start..end][i] == all[j] == SlotOf(mem, v, addresses, j);
      assert addresses[start..end][i] == addresses[j];
      assert s0[i] == StaleOf(mem, v, addresses, start + i);
    }
  }

  /** A full batch's slots are what the next batch finds. */
  lemma StaleNext(mem: Memory, v: Value, addresses: seq<nat>, start: nat, next: nat, content: seq<byte>)
    requires v.Valid() && next == start + IOV_MAX <= |addresses| && IOV_MAX * v.Size() <= |content|
    requires Slots(content, IOV_MAX, v.Size()) == SlotsOf(mem, v, addresses)[start..next]
    ensures StaleFrom(mem, v, addresses, next, content)
  {
    hide SlotOf, StaleOf, Slots;
    var all, slots := SlotsOf(mem, v, addresses), Slots(content, IOV_MAX, v.Size());
    forall i | 0 <= i < IOV_MAX && next + i < |addresses| ensures slots[i] == StaleOf(mem, v, addresses, next + i) {
      assert slots[i] == all[start..next][i] == all[start + i];
      LaterStale(mem, v, addresses, next + i, start + i);
    }
  }

  lemma LaterStale(mem: Memory, v: Value, addresses: seq<nat>, j: nat, before: nat)
    requires v.Valid() && before < |addresses| && j == before + IOV_MAX
    ensures StaleOf(mem, v, addresses, j) == SlotOf(mem, v, addresses, before)
  {
    hide SlotOf;
  }

  lemma {:induction false} ClearedSlots(content: seq<byte>, n: nat, size: nat)
    requires n * size <= |content| && forall i :: 0 <= i < |content| ==> content[i] == 0
    ensures forall i :: 0 <= i < n ==> Slots(content, n, size)[i] == Zeros(size)
  {
    forall i | 0 <= i < n ensures Slots(content, n, size)[i] == Zeros(size) {
      SlotsAt(content, n, size, i);
    }
  }

  /** Where a task stands before the batch at `start`: answer so far, what the buffer holds, and no jam yet. */
  ghost predicate TaskAt(proc: Process, v: Value, addresses: seq<nat>, start: nat, content: seq<byte>, taken: seq<nat>)
    requires v.Valid()
  {
    var done: nat := Min(start, |addresses|);
    && start % IOV_MAX == 0 && |content| == IOV_MAX * v.Size()
    && (start < |addresses| ==> StaleFrom(proc.mem, v, addresses, start, content))
    && taken == EqualSlots(v, addresses, SlotsOf(proc.mem, v, addresses), done)
    && !SparseJams(proc, addresses, v.Size(), done)
  }

  lemma TaskStarts(proc: Process, v: Value, addresses: seq<nat>, content: seq<byte>)
    requires v.Valid() && |content| == IOV_MAX * v.Size() && forall i :: 0 <= i < |content| ==> content[i] == 0
    ensures TaskAt(proc, v, addresses, 0, content, [])
  {
    ClearedSlots(content, IOV_MAX, v.Size());
    hide Slots;
  }

  lemma TaskNext(proc: Process, v: Value, addresses: seq<nat>, start: nat, end: nat, next: nat,
                 c0: seq<byte>, c1: seq<byte>, taken: seq<nat>, kept: seq<nat>)
    requires start < |addresses| && next == start + IOV_MAX && end == if next < |addresses| then next else |addresses|
    requires v.Valid() && |c1| == |c0| && (end - start) * v.Size() <= |c0| && (end - start) * v.Size() <= |c1|
    requires |addresses[start..end]| == end - start && TaskAt(proc, v, addresses, start, c0, taken)
    requires ReadUpTo(proc.mem, addresses[start..end], end - start, v.Size(), v.DisturbingByte(), c1,
               Slots(c0, end - start, v.Size()))
    requires kept == EqualSlots(v, addresses[start..end], Slots(c1, end - start, v.Size()), end - start)
    requires !SparseJams(proc, addresses[start..end], v.Size(), end - start)
    ensures TaskAt(proc, v, addresses, next, c1, taken + kept)
  {
    hide *;
    Opened(proc, v, addresses, start, c0, taken);
    BatchRead(proc.mem, v, addresses, start, end, c0, c1);
    if next < |addresses| {
      StaleNext(proc.mem, v, addresses, start, next, c1);
    }
    JamsNext(proc, addresses, v.Size(), start, end);
    EqualStretch(v, addresses, SlotsOf(proc.mem, v, addresses), start, end);
    BatchAligned(start, next);
    Stands(proc, v, addresses, next, end, c1, taken + kept);
  }

  lemma BatchAligned(start: nat, next: nat)
    requires start % IOV_MAX == 0 && next == start + IOV_MAX
    ensures next % IOV_MAX == 0
  {
  }

  lemma Opened(proc: Process, v: Value, addresses: seq<nat>, start: nat, content: seq<byte>, taken: seq<nat>)
    requires v.Valid() && TaskAt(proc, v, addresses, start, content, taken) && start < |addresses|
    ensures start % IOV_MAX == 0 && |content| == IOV_MAX * v.Size()
    ensures StaleFrom(proc.mem, v, addresses, start, content)
    ensures taken == EqualSlots(v, addresses, SlotsOf(proc.mem, v, addresses), start)
    ensures !SparseJams(proc, addresses, v.Size(), start)
  {
    hide StaleFrom, EqualSlots, SlotsOf, SparseJams;
  }

  lemma Stands(proc: Process, v: Value, addresses: seq<nat>, start: nat, done: nat, content: seq<byte>, taken: seq<nat>)
    requires v.Valid() && done == (if start < |addresses| then start else |addresses|)
    requires start % IOV_MAX == 0 && |content| == IOV_MAX * v.Size()
    requires start < |addresses| ==> StaleFrom(proc.mem, v, addresses, start, content)
    requires taken == EqualSlots(v, addresses, SlotsOf(proc.mem, v, addresses), done)
    requires !SparseJams(proc, addresses, v.Size(), done)
    ensures TaskAt(proc, v, addresses, start, content, taken)
  {
    hide StaleFrom, EqualSlots, SlotsOf, SparseJams;
  }

  lemma {:induction false} EqualFront(v: Value, addresses: seq<nat>, slots: seq<seq<byte>>, m: nat, n: nat)
    requires n <= m <= |addresses| == |slots|
    ensures EqualSlots(v, addresses[..m], slots[..m], n) == EqualSlots(v, addresses, slots, n)
  {
    if n > 0 {
      EqualFront(v, addresses, slots, m, n - 1);
    }
  }

  lemma EqualStretch(v: Value, addresses: seq<nat>, slots: seq<seq<byte>>, start: nat, end: nat)
    requires start <= end <= |addresses| == |slots|
    ensures EqualSlots(v, addresses, slots, end)
            == EqualSlots(v, addresses, slots, start)
                + EqualSlots(v, addresses[start..end], slots[start..end], end - start)
  {
    hide *;
    EqualConcat(v, addresses[..start], addresses[start..end], slots[..start], slots[start..end], end - start);
    EqualFront(v, addresses, slots, end, end);
    EqualFront(v, addresses, slots, start, start);
    assert addresses[..start] + addresses[start..end] == addresses[..end];
    assert slots[..start] + slots[start..end] == slots[..end];
  }

  /** A batch that jams makes its whole share jam. */
  lemma TaskJams(proc: Process, v: Value, addresses: seq<nat>, start: nat, end: nat, content: seq<byte>,
                 taken: seq<nat>)
    requires v.Valid() && TaskAt(proc, v, addresses, start, content, taken)
    requires start < end <= |addresses| && end - start <= IOV_MAX
               && SparseJams(proc, addresses[start..end], v.Size(), end - start)
    ensures SparseJams(proc, addresses, v.Size(), |addresses|)
  {
    JamsNext(proc, addresses, v.Size(), start, end);
    hide Fragile, Strands;
  }

  lemma TaskEnds(proc: Process, v: Value, addresses: seq<nat>, start: nat, content: seq<byte>, taken: seq<nat>)
    requires v.Valid() && TaskAt(proc, v, addresses, start, content, taken) && start >= |addresses|
    ensures taken == SparseAnswer(proc.mem, v, addresses) && !SparseJams(proc, addresses, v.Size(), |addresses|)
  {
    hide SparseJams, EqualSlots;
  }

  /** One batch of a task. */
  method TaskTurn(proc: Process, v: Value, addresses: seq<nat>, start: nat, readBuffer: array<byte>,
                  results: MmapUint64, ghost taken0: seq<nat>)
    returns (outcome: ReadOutcome, ghost taken: seq<nat>)
    requires v.Valid() && start < |addresses| <= NEXT_SCAN_TASK_SIZE && readBuffer.Length == IOV_MAX * v.Size()
    requires results.InBounds() && results.data.Length == NEXT_SCAN_TASK_SIZE
    requires results.Data() == taken0 && |taken0| <= start
    requires TaskAt(proc, v, addresses, start, readBuffer[..], taken0)
    modifies readBuffer, results`cursor, results.data
    ensures !outcome.Finished? ==> SparseJams(proc, addresses, v.Size(), |addresses|)
    ensures outcome.Finished? ==>
              && results.data == old(results.data) && results.InBounds()
              && results.Data() == taken && |taken| <= start + IOV_MAX && |taken| <= |addresses|
              && TaskAt(proc, v, addresses, start + IOV_MAX, readBuffer[..], taken)
  {
    hide TaskAt, SparseJams, ReadUpTo, EqualSlots, Slots, NEXT_SCAN_TASK_SIZE;
    var next := start + IOV_MAX;
    var end := if next > |addresses| then |addresses| else next;
    var batch := addresses[start..end];
    MulMono(|batch|, IOV_MAX, v.Size());
    ghost var c0, kept := readBuffer[..], [];
    taken := taken0;
    outcome, kept := FilterResults(proc, batch, v, readBuffer, results);
    if !outcome.Finished? {
      TaskJams(proc, v, addresses, start, end, c0, taken0);
      return;
    }
    TaskNext(proc, v, addresses, start, end, next, c0, readBuffer[..], taken0, kept);
    taken := taken0 + kept;
  }

  /** The batches of at most 1024 addresses of one task; the result buffer cannot overflow. */
  method TaskNextScanSparse(proc: Process, v: Value, addresses: seq<nat>, ghost ctx: Context)
    returns (outcome: ReadOutcome, slot: MmapUint64?, ghost taken: seq<nat>)
    requires v.Valid() && |addresses| <= NEXT_SCAN_TASK_SIZE
    modifies ctx`ended
    ensures ctx.ended == old(ctx.ended) + if outcome.Finished? then 1 else 0
    ensures outcome.Finished? <==> !SparseJams(proc, addresses, v.Size(), |addresses|)
    ensures outcome.Finished? ==>
              && taken == SparseAnswer(proc.mem, v, addresses) && SlotHolds(slot, taken)
              && (slot != null ==> fresh(slot) && fresh(slot.data) && slot.InBounds())
  {
    hide TaskAt, SparseJams, SparseAnswer;
    var results := new MmapUint64(NEXT_SCAN_TASK_SIZE);
    var readBuffer := new byte[IOV_MAX * v.Size()](_ => 0);
    slot, taken := null, [];
    outcome := Finished;
    var n, start := |addresses|, 0;
    TaskStarts(proc, v, addresses, readBuffer[..]);
    while start < n
      invariant 0 <= start && outcome.Finished?
      invariant ctx.ended == old(ctx.ended)
      invariant fresh(results) && fresh(results.data) && fresh(readBuffer)
      invariant results.data.Length == NEXT_SCAN_TASK_SIZE
      invariant results.InBounds() && results.Data() == taken && |taken| <= start && |taken| <= n
      invariant TaskAt(proc, v, addresses, start, readBuffer[..], taken)
    {
      outcome, taken := TaskTurn(proc, v, addresses, start, readBuffer, results, taken);
      if !outcome.Finished? {
        return;
      }
      start := start + IOV_MAX;
    }
    TaskEnds(proc, v, addresses, start, readBuffer[..], taken);
    ctx.ended := ctx.ended + 1;
    if results.cursor > 0 {
      slot := results;
    }
  }

  /** The i-th task's share of the results. */
  ghost function Share(results: seq<nat>, i: nat): (share: seq<nat>)
    ensures |share| <= NEXT_SCAN_TASK_SIZE
  {
    results[SharesEnd(results, i)..SharesEnd(results, i + 1)]
  }

  /** Where the first `n` shares end. */
  ghost function SharesEnd(results: seq<nat>, n: nat): (end: nat)
    ensures end <= |results|
    ensures forall m :: 0 <= m <= n ==> Min(m * NEXT_SCAN_TASK_SIZE, |results|) <= end
  {
    Min(n * NEXT_SCAN_TASK_SIZE, |results|)
  }

  function ShareCount(count: nat): (n: nat)
    ensures count <= n * NEXT_SCAN_TASK_SIZE < count + NEXT_SCAN_TASK_SIZE
  {
    count / NEXT_SCAN_TASK_SIZE + if count % NEXT_SCAN_TASK_SIZE != 0 then 1 else 0
  }

  /** The answers of the sparse tasks over a result list. */
  ghost function SparseParts(mem: Memory, v: Value, results: seq<nat>): (parts: seq<seq<nat>>)
    requires v.Valid()
    ensures |parts| == ShareCount(|results|)
    ensures forall i :: 0 <= i < |parts| ==> parts[i] == SparseAnswer(mem, v, Share(results, i))
  {
    seq(ShareCount(|results|), i requires 0 <= i < ShareCount(|results|) => SparseAnswer(mem, v, Share(results, i)))
  }

  /** What a complete sparse scan keeps of a result list. */
  ghost function SparseKept(mem: Memory, v: Value, results: seq<nat>): seq<nat>
    requires v.Valid()
  {
    Flatten(SparseParts(mem, v, results))
  }

  /** One more stretch reported on. */
  lemma ReportedStep(mem: Memory, v: Value, results: seq<nat>, from: nat, to: nat, taken: seq<nat>, part: seq<nat>)
    requires Ascending(results) && from <= to <= |results|
    requires Reported(mem, v, results[..from], taken) && Reported(mem, v, results[from..to], part)
    ensures Reported(mem, v, results[..to], taken + part)
  {
    hide *;
    assert results[..from] + results[from..to] == results[..to];
    FrontAscending(results, to);
    ReportedConcat(mem, v, results[..from], results[from..to], taken, part);
  }

  lemma StretchAscending(s: seq<nat>, from: nat, to: nat)
    requires Ascending(s) && from <= to <= |s|
    ensures Ascending(s[from..to])
  {
  }

  lemma SharesGrow(results: seq<nat>, m: nat, n: nat)
    requires n == m + 1
    ensures SharesEnd(results, m) <= SharesEnd(results, n)
    ensures Share(results, m) == results[SharesEnd(results, m)..SharesEnd(results, n)]
  {
  }

  lemma PartsNext(mem: Memory, v: Value, results: seq<nat>, m: nat, n: nat)
    requires v.Valid() && n == m + 1 <= ShareCount(|results|)
    ensures SharesEnd(results, m) <= SharesEnd(results, n)
    ensures Flatten(SparseParts(mem, v, results)[..n])
            == Flatten(SparseParts(mem, v, results)[..m])
               + SparseAnswer(mem, v, results[SharesEnd(results, m)..SharesEnd(results, n)])
  {
    SharesGrow(results, m, n);
    hide SparseAnswer, SharesEnd, Flatten;
    var parts := SparseParts(mem, v, results);
    assert parts[m] == SparseAnswer(mem, v, Share(results, m));
    hide SparseParts;
    assert parts[..n] == parts[..m] + [parts[m]];
    FlattenSnoc(parts[..m], parts[m]);
  }

  lemma NoPartsReported(mem: Memory, v: Value, results: seq<nat>)
    requires v.Valid()
    ensures Reported(mem, v, results[..SharesEnd(results, 0)], Flatten(SparseParts(mem, v, results)[..0]))
  {
    var none := SparseParts(mem, v, results)[..0];
    assert none == [] && Flatten(none) == [];
    assert SharesEnd(results, 0) == 0;
  }

  /** The answers of the first `n` tasks report on the first `n` shares. */
  lemma {:induction false} PartsReported(mem: Memory, v: Value, results: seq<nat>, n: nat)
    requires v.Valid() && Ascending(results) && n <= ShareCount(|results|)
    ensures Reported(mem, v, results[..SharesEnd(results, n)], Flatten(SparseParts(mem, v, results)[..n]))
  {
    hide *;
    if n == 0 {
      NoPartsReported(mem, v, results);
      return;
    }
    var m := n - 1;
    PartsReported(mem, v, results, m);
    PartsNext(mem, v, results, m, n);
    var from, to := SharesEnd(results, m), SharesEnd(results, n);
    StretchAscending(results, from, to);
    AnswerReported(mem, v, results[from..to]);
    ReportedStep(mem, v, results, from, to, Flatten(SparseParts(mem, v, results)[..m]),
        SparseAnswer(mem, v, results[from..to]));
  }

  /** So a sparse scan as a whole reports on the results; the plain filter, where nothing stale is in play. */
  lemma KeptReported(mem: Memory, v: Value, results: seq<nat>)
    requires v.Valid() && Ascending(results)
    ensures Reported(mem, v, results, SparseKept(mem, v, results))
    ensures Settled(mem, v, results) ==> SparseKept(mem, v, results) == Filter(results, Held(mem, v))
  {
    var parts := SparseParts(mem, v, results);
    PartsReported(mem, v, results, |parts|);
    assert parts[..|parts|] == parts;
    assert SharesEnd(results, |parts|) == |results|;
    assert results[..|results|] == results;
    if Settled(mem, v, results) {
      SettledReport(mem, v, results, SparseKept(mem, v, results));
    }
  }
}

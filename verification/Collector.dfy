/** The collector closures of the two scans that go through the scanner, as one object. */
module Collectors {
  import opened Kernel
  import opened Sequences
  import opened MmapStore
  import opened VirtualRegions

  /** The address `x` was seen as an offset from `base`, and is one of `only` if that restriction is present. */
  ghost predicate Accepted(seen: seq<nat>, base: nat, only: Option<seq<nat>>, x: nat) {
    base <= x && (x - base) in seen && (only.Some? ==> x in only.value)
  }

  /** `taken` is exactly what is accepted of the offsets seen, in ascending order. */
  ghost predicate Collected(taken: seq<nat>, seen: seq<nat>, base: nat, only: Option<seq<nat>>) {
    && Ascending(seen) && Ascending(taken)
    && (forall x :: x in taken <==> Accepted(seen, base, only, x))
  }

  lemma AcceptedSnoc(seen: seq<nat>, base: nat, only: Option<seq<nat>>, offset: nat, x: nat)
    ensures Accepted(seen + [offset], base, only, x)
            <==> Accepted(seen, base, only, x) || (x == offset + base && (only.None? || x in only.value))
  {
  }

  lemma CollectedSnoc(taken: seq<nat>, seen: seq<nat>, base: nat, only: Option<seq<nat>>, offset: nat)
    requires Collected(taken, seen, base, only)
    requires seen != [] ==> seen[|seen| - 1] < offset
    ensures var kept := if only.None? || offset + base in only.value then [offset + base] else [];
            Collected(taken + kept, seen + [offset], base, only)
  {
    var kept := if only.None? || offset + base in only.value then [offset + base] else [];
    assert forall o :: o in seen ==> o < offset;
    if taken != [] {
      assert taken[|taken| - 1] in taken;
      assert Accepted(seen, base, only, taken[|taken| - 1]);
    }
    AscendingSnoc(seen, offset);
    AscendingSnoc(taken, offset + base);
    AcceptedAll(taken, kept, seen, base, only, offset);
    assert taken + [] == taken;
    hide *;
    TakenSnoc(taken, kept, seen + [offset], base, only);
  }

  lemma AcceptedAll(taken: seq<nat>, kept: seq<nat>, seen: seq<nat>, base: nat, only: Option<seq<nat>>, offset: nat)
    requires forall x :: x in taken <==> Accepted(seen, base, only, x)
    requires kept == if only.None? || offset + base in only.value then [offset + base] else []
    ensures forall x :: x in taken + kept <==> Accepted(seen + [offset], base, only, x)
  {
    hide Accepted;
    forall x ensures x in taken + kept <==> Accepted(seen + [offset], base, only, x) {
      AcceptedSnoc(seen, base, only, offset, x);
    }
  }

  lemma TakenSnoc(taken: seq<nat>, kept: seq<nat>, seen: seq<nat>, base: nat, only: Option<seq<nat>>)
    requires Ascending(seen) && Ascending(taken + kept)
    requires forall x :: x in taken + kept <==> Accepted(seen, base, only, x)
    ensures Collected(taken + kept, seen, base, only)
  {
  }

  /**
   Receives offsets from a scanner. Without a region it keeps every address `base + offset`; with one it
   keeps those the region lists, and asks the scan to stop once the region is finished.
   */
  class Collector {
    const base: nat
    const region: VirtualRegion?
    const writer: BatchWriter
    ghost var Seen: seq<nat>

    ghost function Repr(): set<object> {
      var own: set<object> := {this, writer, writer.batch, writer.buf, writer.store};
      if region == null then own else own + {region}
    }

    ghost function Only(): Option<seq<nat>> {
      if region == null then None else Some(region.addresses)
    }

    ghost predicate Valid()
      reads Repr()
    {
      && writer.Valid()
      && Collected(writer.Taken, Seen, base, Only())
      && (region != null ==>
            && Ascending(region.addresses)
            && (if Seen == [] then region.cursor == 0 else region.SplitAt(base + Seen[|Seen| - 1])))
    }

    constructor (base: nat, region: VirtualRegion?, buf: MmapUint64)
      requires buf.cursor == 0
      requires region != null ==> region.cursor == 0 && Ascending(region.addresses)
      ensures Valid() && Seen == [] && this.base == base && this.region == region
      ensures fresh(writer) && fresh(writer.batch) && writer.buf == buf && writer.store == buf.data
    {
      this.base, this.region := base, region;
      Seen := [];
      writer := new BatchWriter(buf);
    }

    /** Nothing above the last reported offset can still be wanted. */
    ghost predicate Finished()
      reads this, region
    {
      region != null && region.IsFinished()
    }

    method Collect(offset: nat) returns (more: bool)
      requires Valid()
      requires Seen != [] ==> Seen[|Seen| - 1] < offset
      modifies Repr()
      ensures Valid()
      ensures Seen == old(Seen) + [offset]
      ensures !more ==> Finished()
    {
      hide Collected, Ascending;
      var address := offset + base;
      CollectedSnoc(writer.Taken, Seen, base, Only(), offset);
      Seen := Seen + [offset];
      more := true;
      if region == null {
        writer.Add(address);
      } else {
        var matched := region.Match(address);
        if matched {
          writer.Add(address);
          more := !region.IsFinished();
        } else {
          assert writer.Taken + [] == writer.Taken;
        }
      }
    }
  }
}

/**
 Concurrent Puts into one `MmapUint64`: each writer reserves an interval with one atomic add, then copies its
 entries into it, in any interleaving with the others.
 */
module ConcurrentPut {
  import opened Kernel
  import opened Sequences

  /** A Put in progress: its reserved start, its entries, how many are copied. */
  datatype Writer = Writer(start: nat, items: seq<nat>, copied: nat) {
    function End(): nat {
      start + |items|
    }
  }

  /** Writers stand in the order of their reservations. */
  datatype Store = Store(data: seq<nat>, cursor: nat, writers: seq<Writer>)

  datatype Action = Reserve(items: seq<nat>) | Copy(writer: nat)

  /** A writer whose interval lies beyond capacity returns an error and copies nothing. */
  ghost predicate Enabled(s: Store, a: Action) {
    match a
    case Reserve(items) => items != []
    case Copy(w) => w < |s.writers| && s.writers[w].copied < |s.writers[w].items| && s.writers[w].End() <= |s.data|
  }

  ghost function Apply(s: Store, a: Action): Store
    requires Enabled(s, a)
  {
    match a
    case Reserve(items) =>
      s.(cursor := s.cursor + |items|, writers := s.writers + [Writer(s.cursor, items, 0)])
    case Copy(w) =>
      var x := s.writers[w];
      s.(data := s.data[x.start + x.copied := x.items[x.copied]],
         writers := s.writers[w := x.(copied := x.copied + 1)])
  }

  /** The intervals tile [0, cursor) in reservation order. */
  ghost predicate Tiled(writers: seq<Writer>, cursor: nat) {
    && (if writers == [] then cursor == 0 else writers[0].start == 0 && writers[|writers| - 1].End() == cursor)
    && (forall i, j :: 0 <= i < j < |writers| ==> writers[i].End() <= writers[j].start)
    && (forall i, j :: 0 <= i && j == i + 1 && j < |writers| ==> writers[i].End() == writers[j].start)
  }

  /** The intervals tile [0, cursor), and every copied entry is in place. */
  ghost predicate Inv(s: Store) {
    Tiled(s.writers, s.cursor) && forall i :: 0 <= i < |s.writers| ==> Placed(s, s.writers[i])
  }

  ghost predicate Placed(s: Store, x: Writer) {
    && x.items != [] && x.copied <= |x.items| && x.End() <= s.cursor
    && (x.copied > 0 ==> x.End() <= |s.data|)
    && (x.End() <= |s.data| ==> forall k :: 0 <= k < x.copied ==> s.data[x.start + k] == x.items[k])
  }

  lemma StepInv(s: Store, a: Action)
    requires Inv(s) && Enabled(s, a)
    ensures Inv(Apply(s, a))
  {
    var s' := Apply(s, a);
    forall i | 0 <= i < |s'.writers| ensures Placed(s', s'.writers[i]) {
      StepPlaced(s, a, i);
    }
    TiledStep(s, a);
    hide Placed, Tiled, Apply, Enabled;
  }

  lemma TiledStep(s: Store, a: Action)
    requires Tiled(s.writers, s.cursor) && Enabled(s, a)
    ensures Tiled(Apply(s, a).writers, Apply(s, a).cursor)
  {
    hide Tiled;
    match a
    case Reserve(items) => TiledSnoc(s.writers, s.cursor, items);
    case Copy(w) => TiledKept(s.writers, s.cursor, w, s.writers[w].copied + 1);
  }

  lemma TiledSnoc(writers: seq<Writer>, cursor: nat, items: seq<nat>)
    requires Tiled(writers, cursor)
    ensures Tiled(writers + [Writer(cursor, items, 0)], cursor + |items|)
  {
    var last := |writers| - 1;
    forall i | 0 <= i < |writers| ensures writers[i].End() <= cursor {
      assert i < last ==> writers[i].End() <= writers[last].start <= writers[last].End();
    }
  }

  lemma TiledKept(writers: seq<Writer>, cursor: nat, w: nat, copied: nat)
    requires Tiled(writers, cursor) && w < |writers|
    ensures Tiled(writers[w := writers[w].(copied := copied)], cursor)
  {
    var t := writers[w := writers[w].(copied := copied)];
    assert forall i :: 0 <= i < |t| ==> t[i].start == writers[i].start && t[i].End() == writers[i].End();
  }

  /** A copy lands inside its writer's own interval, so it disturbs no other's entries. */
  lemma StepPlaced(s: Store, a: Action, i: nat)
    requires Inv(s) && Enabled(s, a) && i < |Apply(s, a).writers|
    ensures Placed(Apply(s, a), Apply(s, a).writers[i])
  {
    if i < |s.writers| {
      assert Placed(s, s.writers[i]);
      if a.Copy? && i != a.writer {
        assert Placed(s, s.writers[a.writer]);
        assert if i < a.writer then s.writers[i].End() <= s.writers[a.writer].start
               else s.writers[a.writer].End() <= s.writers[i].start;
      }
    }
  }

  ghost function Run(capacity: seq<nat>, actions: seq<Action>): (s: Option<Store>)
  {
    if actions == [] then Some(Store(capacity, 0, []))
    else
      var s := Run(capacity, actions[..|actions| - 1]);
      if s.Some? && Enabled(s.value, actions[|actions| - 1]) then Some(Apply(s.value, actions[|actions| - 1])) else None
  }

  lemma {:induction false} RunInv(capacity: seq<nat>, actions: seq<Action>)
    requires Run(capacity, actions).Some?
    ensures Inv(Run(capacity, actions).value) && |Run(capacity, actions).value.data| == |capacity|
  {
    if actions != [] {
      RunInv(capacity, actions[..|actions| - 1]);
      StepInv(Run(capacity, actions[..|actions| - 1]).value, actions[|actions| - 1]);
    }
  }

  ghost function ItemsOf(writers: seq<Writer>): (parts: seq<seq<nat>>)
    ensures |parts| == |writers| && forall i :: 0 <= i < |writers| ==> parts[i] == writers[i].items
  {
    seq(|writers|, i requires 0 <= i < |writers| => writers[i].items)
  }

  /** Where the first `k` intervals end. */
  ghost function EndOf(writers: seq<Writer>, k: nat): nat
    requires k <= |writers|
  {
    if k == 0 then 0 else writers[k - 1].End()
  }

  /** A writer that has copied everything owns its interval of the data. */
  lemma CopiedItems(s: Store, i: nat)
    requires Inv(s) && s.cursor <= |s.data| && i < |s.writers| && s.writers[i].copied == |s.writers[i].items|
    ensures EndOf(s.writers, i) == s.writers[i].start <= s.writers[i].End() <= s.cursor
    ensures s.data[s.writers[i].start..s.writers[i].End()] == s.writers[i].items
  {
    assert Placed(s, s.writers[i]);
  }

  lemma JoinData(data: seq<nat>, from: nat, to: nat)
    requires from <= to <= |data|
    ensures data[..to] == data[..from] + data[from..to]
  {
  }

  lemma {:induction false} TiledData(s: Store, k: nat)
    requires Inv(s) && s.cursor <= |s.data| && k <= |s.writers|
    requires forall i :: 0 <= i < |s.writers| ==> s.writers[i].copied == |s.writers[i].items|
    ensures EndOf(s.writers, k) <= s.cursor
    ensures s.data[..EndOf(s.writers, k)] == Flatten(ItemsOf(s.writers)[..k])
  {
    if k > 0 {
      var m := k - 1;
      TiledData(s, m);
      var parts := ItemsOf(s.writers);
      var x := s.writers[m];
      CopiedItems(s, m);
      assert parts[..k] == parts[..m] + [parts[m]];
      FlattenSnoc(parts[..m], parts[m]);
      JoinData(s.data, x.start, x.End());
      hide Inv, Flatten;
    }
  }

  /**
   Within capacity, once every Put has copied its entries, the store is the concatenation of the Puts in
   reservation order, whatever the interleaving was.
   */
  lemma PutsLinearize(capacity: seq<nat>, actions: seq<Action>)
    requires Run(capacity, actions).Some?
    requires var s := Run(capacity, actions).value;
             s.cursor <= |capacity| && forall i :: 0 <= i < |s.writers| ==> s.writers[i].copied == |s.writers[i].items|
    ensures var s := Run(capacity, actions).value;
            s.cursor <= |s.data| && s.data[..s.cursor] == Flatten(ItemsOf(s.writers))
  {
    RunInv(capacity, actions);
    var s := Run(capacity, actions).value;
    TiledData(s, |s.writers|);
    assert ItemsOf(s.writers)[..|s.writers|] == ItemsOf(s.writers);
  }

  /** Two Puts in progress never own a common entry. */
  lemma IntervalsDisjoint(capacity: seq<nat>, actions: seq<Action>, i: nat, j: nat, x: nat)
    requires Run(capacity, actions).Some?
    requires var s := Run(capacity, actions).value; i < |s.writers| && j < |s.writers| && i != j
    ensures var s := Run(capacity, actions).value;
            !(s.writers[i].start <= x < s.writers[i].End() && s.writers[j].start <= x < s.writers[j].End())
  {
    RunInv(capacity, actions);
  }
}

/** Strictly ascending address lists: the shape of every result list of a scan. */
module Sequences {
  import opened Arithmetic

  ghost predicate Ascending(s: seq<nat>) {
    forall i, j :: 0 <= i < j < |s| ==> s[i] < s[j]
  }

  /** The elements of `s` that satisfy `p`, in order. */
  ghost function Filter(s: seq<nat>, p: nat -> bool): (r: seq<nat>)
    ensures forall x :: x in r <==> x in s && p(x)
  {
    if s == [] then []
    else
      var last := |s| - 1;
      assert forall x :: x in s <==> x in s[..last] || x == s[last];
      Filter(s[..last], p) + if p(s[last]) then [s[last]] else []
  }

  lemma {:induction false} FilterAscending(s: seq<nat>, p: nat -> bool)
    requires Ascending(s)
    ensures Ascending(Filter(s, p))
  {
    if s != [] {
      var last := |s| - 1;
      FilterAscending(s[..last], p);
      var r := Filter(s[..last], p);
      forall i | 0 <= i < |r| ensures r[i] < s[last] {
        assert r[i] in s[..last];
      }
    }
  }

  /** The addresses of the half-open interval [lo, hi), ascending. */
  ghost function Interval(lo: nat, hi: nat): (r: seq<nat>)
    ensures forall x :: x in r <==> lo <= x < hi
    ensures Ascending(r)
    decreases hi - lo
  {
    if lo >= hi then []
    else
      var r := Interval(lo, hi - 1);
      assert forall i :: 0 <= i < |r| ==> r[i] in r;
      r + [hi - 1]
  }

  /** The concatenation of a list of lists. */
  ghost function Flatten(parts: seq<seq<nat>>): (r: seq<nat>)
    ensures forall x :: x in r <==> exists i :: 0 <= i < |parts| && x in parts[i]
  {
    if parts == [] then []
    else
      var last := |parts| - 1;
      assert parts == parts[..last] + [parts[last]];
      Flatten(parts[..last]) + parts[last]
  }

  lemma FlattenSnoc(parts: seq<seq<nat>>, part: seq<nat>)
    ensures Flatten(parts + [part]) == Flatten(parts) + part
  {
    assert (parts + [part])[..|parts|] == parts;
  }

  lemma AscendingSnoc(s: seq<nat>, x: nat)
    requires Ascending(s)
    requires s != [] ==> s[|s| - 1] < x
    ensures Ascending(s + [x])
  {
  }

  /** An ascending list is determined by its set of elements. */
  lemma {:induction false} AscendingUnique(s: seq<nat>, t: seq<nat>)
    requires Ascending(s) && Ascending(t)
    requires forall x :: x in s <==> x in t
    ensures s == t
  {
    assert t != [] ==> t[0] in t;
    if s != [] {
      assert s[0] in t;
      var m, n := |s| - 1, |t| - 1;
      assert s[m] in t && t[n] in s;
      assert s[m] == t[n];
      var s', t' := s[..m], t[..n];
      forall x ensures x in s' <==> x in t' {
        if x in s' { assert x in s && x != s[m]; assert x in t; }
        if x in t' { assert x in t && x != t[n]; assert x in s; }
      }
      AscendingUnique(s', t');
      assert s == s' + [s[m]] && t == t' + [t[n]];
    }
  }

  /** The elements of an ascending list below a bound are a prefix of it. */
  lemma {:induction false} PrefixBelow(s: seq<nat>, t: seq<nat>, bound: int)
    requires Ascending(s) && Ascending(t)
    requires forall x :: x in s <==> x in t && x < bound
    ensures s <= t
  {
    if t == [] || t[|t| - 1] < bound {
      AscendingUnique(s, t);
      return;
    }
    var last := |t| - 1;
    assert t == t[..last] + [t[last]];
    PrefixBelow(s, t[..last], bound);
  }

  /** Two lists of ascending lists over the same elements, each part below the next, flatten alike. */
  ghost predicate Layered(parts: seq<seq<nat>>) {
    && (forall i :: 0 <= i < |parts| ==> Ascending(parts[i]))
    && (forall i, j, x, y :: 0 <= i < j < |parts| && x in parts[i] && y in parts[j] ==> x < y)
  }

  lemma {:induction false} FlattenAscending(parts: seq<seq<nat>>)
    requires Layered(parts)
    ensures Ascending(Flatten(parts))
  {
    if parts != [] {
      var last := |parts| - 1;
      FlattenAscending(parts[..last]);
      var f := Flatten(parts[..last]);
      forall i, j | 0 <= i < |f| && 0 <= j < |parts[last]| ensures f[i] < parts[last][j] {
        assert f[i] in f && parts[last][j] in parts[last];
      }
    }
  }

  lemma {:induction false} SubsetLength(s: seq<nat>, t: seq<nat>)
    requires Ascending(s) && Ascending(t) && forall x :: x in s ==> x in t
    ensures |s| <= |t|
  {
    if s != [] {
      var m := |s| - 1;
      assert s[m] in t;
      var k :| 0 <= k < |t| && t[k] == s[m];
      forall x | x in s[..m] ensures x in t[..k] {
        assert x in s && x < s[m];
        var j :| 0 <= j < |t| && t[j] == x;
        assert j < k;
      }
      SubsetLength(s[..m], t[..k]);
    }
  }

  /** The two halves of an ascending list. */
  lemma AscendingSplit(front: seq<nat>, back: seq<nat>)
    requires Ascending(front + back)
    ensures Ascending(front) && Ascending(back)
    ensures forall x, y :: x in front && y in back ==> x < y
  {
    var whole := front + back;
    assert forall i :: 0 <= i < |front| ==> front[i] == whole[i];
    assert forall i :: 0 <= i < |back| ==> back[i] == whole[|front| + i];
  }

  lemma {:induction false} FlattenLayered(parts: seq<seq<nat>>)
    requires Ascending(Flatten(parts))
    ensures Layered(parts)
  {
    if parts != [] {
      hide Ascending;
      var last := |parts| - 1;
      assert Flatten(parts) == Flatten(parts[..last]) + parts[last];
      AscendingSplit(Flatten(parts[..last]), parts[last]);
      FlattenLayered(parts[..last]);
      assert forall i :: 0 <= i < last ==> parts[..last][i] == parts[i];
      forall i, x, y | 0 <= i < last && x in parts[i] && y in parts[last] ensures x < y {
        assert x in parts[..last][i];
        assert x in Flatten(parts[..last]);
      }
    }
  }

  /** Ascending addresses at least `w` apart inside [lo, hi): at most (hi - lo) / w of them exist. */
  lemma {:induction false} SpacedCount(s: seq<nat>, lo: nat, hi: nat, w: nat)
    requires Ascending(s) && w > 0 && lo <= hi
    requires forall x :: x in s ==> lo <= x && x + w <= hi
    requires forall x, y :: x in s && y in s && x < y ==> x + w <= y
    ensures |s| * w <= hi - lo
    ensures |s| <= (hi - lo) / w
  {
    if s != [] {
      var last := |s| - 1;
      assert s[last] in s && Ascending(s[..last]);
      forall x | x in s[..last] ensures lo <= x && x + w <= s[last] {
        assert x in s && x < s[last];
      }
      forall x, y | x in s[..last] && y in s[..last] && x < y ensures x + w <= y {
        assert x in s && y in s;
      }
      hide Ascending;
      SpacedCount(s[..last], lo, s[last], w);
      assert |s| * w == (|s| - 1) * w + w;
    }
    DivBound(|s|, hi - lo, w);
  }

  /** All of the first `k` parts, then the first entries of the next one, and nothing else. */
  ghost predicate Partly(parts: seq<seq<nat>>, k: nat, whole: seq<nat>) {
    && k <= |parts|
    && var front := Flatten(parts[..k]);
       front <= whole && whole[|front|..] <= if k < |parts| then parts[k] else []
  }

  lemma {:induction false} PartlyFlat(parts: seq<seq<nat>>, takens: seq<seq<nat>>, k: nat)
    requires |takens| == |parts| && k <= |parts|
    requires forall i :: 0 <= i < k ==> takens[i] == parts[i]
    requires k < |parts| ==> takens[k] <= parts[k]
    requires forall i :: k < i < |parts| ==> takens[i] == []
    ensures Partly(parts, k, Flatten(takens))
    ensures k == |parts| ==> takens == parts
  {
    if k == |parts| {
      assert takens == parts && parts[..k] == parts;
    } else {
      assert takens[..k] == parts[..k];
      EmptyTail(takens, k + 1, |takens|);
      assert takens[..|takens|] == takens && takens[..k + 1] == takens[..k] + [takens[k]];
      FlattenSnoc(takens[..k], takens[k]);
    }
  }

  lemma {:induction false} EmptyTail(parts: seq<seq<nat>>, k: nat, n: nat)
    requires k <= n <= |parts| && forall i :: k <= i < n ==> parts[i] == []
    ensures Flatten(parts[..n]) == Flatten(parts[..k])
    decreases n
  {
    if k < n {
      EmptyTail(parts, k, n - 1);
      assert parts[..n] == parts[..n - 1] + [parts[n - 1]];
      FlattenSnoc(parts[..n - 1], parts[n - 1]);
    }
  }
}

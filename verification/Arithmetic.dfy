/** Facts about multiplication, quotients and remainders, kept away from the solver's other work. */
module Arithmetic {

  lemma MulMono(a: int, b: int, w: nat)
    requires a <= b
    ensures a * w <= b * w
  {
    assert (b - a) * w >= 0;
  }

  /** A product under a name, so that its parts stay out of the solver's sight. */
  function Times(k: nat, size: nat): nat {
    k * size
  }

  lemma TimesNext(k: nat, next: nat, size: nat)
    requires next == k + 1
    ensures Times(next, size) == Times(k, size) + size
  {
  }

  lemma TimesNone(size: nat)
    ensures Times(0, size) == 0
  {
  }

  lemma Euclid(x: nat, w: nat)
    requires w > 0
    ensures x == (x / w) * w + x % w
    ensures 0 <= x % w < w
  {
  }

  /** The remainder is unique. */
  lemma ModUnique(q: int, r: nat, w: nat)
    requires w > 0 && r < w && q >= 0
    ensures (q * w + r) / w == q && (q * w + r) % w == r
  {
    var x := q * w + r;
    assert x >= 0;
    Euclid(x, w);
    var p := x / w;
    assert (q - p) * w == x % w - r;
    if q < p {
      MulMono(q - p, -1, w);
      assert false;
    }
    if p < q {
      MulMono(1, q - p, w);
      assert false;
    }
  }

  lemma ModAdd(x: nat, y: nat, w: nat)
    requires w > 0 && x % w == 0
    ensures (x + y) % w == y % w
  {
    Euclid(x, w);
    Euclid(y, w);
    assert x + y == (x / w + y / w) * w + y % w;
    ModUnique(x / w + y / w, y % w, w);
  }

  lemma NotMultiple(x: nat, k: nat, w: nat)
    requires w > 0 && x % w == 0 && 0 < k < w
    ensures (x + k) % w != 0
  {
    ModAdd(x, k, w);
    ModUnique(0, k, w);
  }

  lemma MultipleOfMultiple(x: nat, m: nat, w: nat)
    requires w > 0 && m > 0 && x % m == 0 && m % w == 0
    ensures x % w == 0
  {
    Euclid(x, m);
    Euclid(m, w);
    assert x == (x / m * (m / w)) * w;
    ModUnique(x / m * (m / w), 0, w);
  }

  /** Distinct multiples are at least one step apart. */
  lemma AlignedGap(x: nat, y: nat, w: nat)
    requires w > 0 && x % w == 0 && y % w == 0 && x < y
    ensures x + w <= y
  {
    Euclid(x, w);
    Euclid(y, w);
    var a, b := x / w, y / w;
    if b <= a {
      MulMono(b, a, w);
      assert false;
    }
    MulMono(a + 1, b, w);
    assert (a + 1) * w == x + w;
  }

  lemma OneStepBack(i: nat, w: nat)
    requires w > 0 && i % w == 0 && i >= w
    ensures (i - w) % w == 0
  {
    Euclid(i, w);
    assert (i / w - 1) * w == i - w;
    ModUnique(i / w - 1, 0, w);
  }

  /** Among aligned words ending by `i`, the last one starts at i - w and the others end by there. */
  lemma LastWord(d: nat, i: nat, w: nat)
    requires w > 0 && d % w == 0 && i % w == 0 && i >= w
    ensures (i - w) % w == 0
    ensures d + w <= i <==> d + w <= i - w || d == i - w
  {
    OneStepBack(i, w);
    if d < i - w {
      AlignedGap(d, i - w, w);
    }
  }

  lemma DivBound(n: nat, total: nat, w: nat)
    requires w > 0 && n * w <= total
    ensures n <= total / w
  {
    Euclid(total, w);
    assert (total / w + 1) * w == (total / w) * w + w;
    if total / w < n {
      MulMono(total / w + 1, n, w);
      assert false;
    }
  }

  /** Dividing by a multiple sees no more than dividing by its factor. */
  lemma SameQuotient(x: nat, y: nat, w: nat, m: nat)
    requires w > 0 && m > 0 && m % w == 0 && x / w == y / w
    ensures x / m == y / m
  {
    Euclid(x, w);
    Euclid(y, w);
    Euclid(m, w);
    QuotientOf(x, w, m / w, m);
    QuotientOf(y, w, m / w, m);
  }

  lemma QuotientOf(x: nat, w: nat, k: nat, m: nat)
    requires w > 0 && m > 0 && m == k * w
    ensures k > 0 && x / m == x / w / k
  {
    assert k != 0;
    Euclid(x, w);
    Euclid(x / w, k);
    var a := x / w;
    var q, r, c := a / k, a % k, x % w;
    Recompose(x, a, q, r, c, k, w, m);
    RemainderBelow(r, c, k, w);
    var rest := r * w + c;
    FromParts(x, q, rest, m);
  }

  lemma FromParts(x: nat, q: nat, rest: nat, m: nat)
    requires rest < m && x == q * m + rest
    ensures x / m == q
  {
    ModUnique(q, rest, m);
  }

  lemma Recompose(x: nat, a: nat, q: nat, r: nat, c: nat, k: nat, w: nat, m: nat)
    requires a == q * k + r && x == a * w + c && m == k * w
    ensures x == q * m + (r * w + c)
  {
    Distribute(q, k, r, w);
  }

  lemma Distribute(q: nat, k: nat, r: nat, w: nat)
    ensures (q * k + r) * w == q * (k * w) + r * w
  {
  }

  lemma RemainderBelow(r: nat, c: nat, k: nat, w: nat)
    requires r < k && c < w
    ensures 0 <= r * w + c < k * w
  {
    MulMono(r + 1, k, w);
    assert (r + 1) * w == r * w + w;
  }

  lemma AddMultiple(x: nat, y: nat, w: nat)
    requires w > 0 && x % w == 0
    ensures (x + y) / w == x / w + y / w
  {
    Euclid(x, w);
    Euclid(y, w);
    assert x + y == (x / w + y / w) * w + y % w;
    ModUnique(x / w + y / w, y % w, w);
  }

  /** Among multiples the last byte before one lies in the block in front of it. */
  lemma LastBlock(x: nat, size: nat, w: nat)
    requires w > 0 && size % w == 0 && x < size
    ensures x / w < size / w
  {
    Euclid(x, w);
    Euclid(size, w);
    if size / w <= x / w {
      MulMono(size / w, x / w, w);
      assert false;
    }
  }
}

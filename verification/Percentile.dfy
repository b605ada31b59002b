/** The interpolated percentile (three identical copies in the benchmarks), over reals. */
module Percentile {

  ghost predicate Sorted(s: seq<real>) {
    forall i, j :: 0 <= i <= j < |s| ==> s[i] <= s[j]
  }

  /** What std::sort may leave behind: the same values in order. */
  ghost predicate IsSortOf(s: seq<real>, v: seq<real>) {
    Sorted(s) && multiset(s) == multiset(v)
  }

  function Insert(x: real, s: seq<real>): (r: seq<real>)
    ensures |r| == |s| + 1
  {
    if s == [] then [x] else if x <= s[0] then [x] + s else [s[0]] + Insert(x, s[1..])
  }

  function Sort(v: seq<real>): (s: seq<real>)
    ensures |s| == |v|
  {
    if v == [] then [] else Insert(v[0], Sort(v[1..]))
  }

  lemma HeadBelow(h: real, r: seq<real>, s: seq<real>, x: real)
    requires multiset(r) == multiset(s) + multiset{x} && h <= x && forall y :: y in s ==> h <= y
    ensures Sorted(r) ==> Sorted([h] + r)
  {
    forall j | 0 <= j < |r| ensures h <= r[j] {
      assert r[j] in multiset(r);
      if r[j] != x {
        assert r[j] in multiset(s) && r[j] in s;
      }
    }
  }

  lemma TailSorted(s: seq<real>)
    requires Sorted(s) && s != []
    ensures Sorted(s[1..]) && forall y :: y in s[1..] ==> s[0] <= y
  {
  }

  lemma {:induction false} InsertSorts(x: real, s: seq<real>)
    requires Sorted(s)
    ensures Sorted(Insert(x, s)) && multiset(Insert(x, s)) == multiset(s) + multiset{x}
    decreases |s|
  {
    if s != [] {
      assert s == [s[0]] + s[1..];
      if x > s[0] {
        hide Sorted;
        TailSorted(s);
        InsertSorts(x, s[1..]);
        HeadBelow(s[0], Insert(x, s[1..]), s[1..], x);
      }
    }
  }

  lemma {:induction false} SortSorts(v: seq<real>)
    ensures IsSortOf(Sort(v), v)
    decreases |v|
  {
    if v != [] {
      SortSorts(v[1..]);
      InsertSorts(v[0], Sort(v[1..]));
      assert v == [v[0]] + v[1..];
    }
  }

  lemma SameMembers(s: seq<real>, t: seq<real>, x: real)
    requires multiset(s) == multiset(t) && x in s
    ensures x in t
  {
    assert x in multiset(s);
  }

  lemma SameLength(s: seq<real>, t: seq<real>)
    requires multiset(s) == multiset(t)
    ensures |s| == |t|
  {
    assert |multiset(s)| == |multiset(t)|;
  }

  lemma TailBag(s: seq<real>)
    requires s != []
    ensures multiset(s[1..]) == multiset(s) - multiset{s[0]}
  {
    assert s == [s[0]] + s[1..];
  }

  lemma SameHead(s: seq<real>, t: seq<real>)
    requires Sorted(s) && Sorted(t) && multiset(s) == multiset(t) && s != [] && t != []
    ensures s[0] == t[0]
  {
    SameMembers(s, t, s[0]);
    SameMembers(t, s, t[0]);
  }

  /** Sorting has one result, whatever the algorithm. */
  lemma {:induction false} SortedUnique(s: seq<real>, t: seq<real>)
    requires Sorted(s) && Sorted(t) && multiset(s) == multiset(t)
    ensures s == t
    decreases |s|
  {
    SameLength(s, t);
    if s != [] {
      SameHead(s, t);
      TailBag(s);
      TailBag(t);
      SortedUnique(s[1..], t[1..]);
      assert s == [s[0]] + s[1..] && t == [t[0]] + t[1..];
    }
  }

  ghost predicate AtMost(v: seq<real>, w: seq<real>) {
    |v| == |w| && forall i :: 0 <= i < |v| ==> v[i] <= w[i]
  }

  /** Inserting keeps the pointwise order of sorted sequences. */
  lemma {:induction false} InsertKeepsOrder(x: real, s: seq<real>, y: real, t: seq<real>)
    requires x <= y && Sorted(s) && Sorted(t) && AtMost(s, t)
    ensures AtMost(Insert(x, s), Insert(y, t))
    decreases |s|
  {
    if s != [] {
      var s', t' := s[1..], t[1..];
      if x <= s[0] && y > t[0] {
        InsertKeepsOrder(s[0], s', y, t');
        InsertFront(s);
      } else if x > s[0] && y <= t[0] {
        InsertKeepsOrder(x, s', t[0], t');
        InsertFront(t);
      } else if x > s[0] {
        InsertKeepsOrder(x, s', y, t');
      }
    }
  }

  lemma InsertFront(s: seq<real>)
    requires Sorted(s) && s != []
    ensures Insert(s[0], s[1..]) == s
  {
    assert s == [s[0]] + s[1..];
  }

  /** Sorting preserves pointwise order. */
  lemma {:induction false} SortKeepsOrder(v: seq<real>, w: seq<real>)
    requires AtMost(v, w)
    ensures AtMost(Sort(v), Sort(w))
    decreases |v|
  {
    if v != [] {
      SortKeepsOrder(v[1..], w[1..]);
      SortSorts(v[1..]);
      SortSorts(w[1..]);
      InsertKeepsOrder(v[0], Sort(v[1..]), w[0], Sort(w[1..]));
    }
  }

  // ------------------------------------------------------------- interpolation

  function Rank(p: real, n: nat): real
    requires n >= 1
  {
    p * (n - 1) as real
  }

  lemma RankBounds(p: real, n: nat)
    requires n >= 1 && 0.0 <= p <= 1.0
    ensures 0.0 <= Rank(p, n) <= (n - 1) as real && 0 <= Rank(p, n).Floor <= n - 1
  {
    var m := (n - 1) as real;
    assert p * m <= 1.0 * m;
  }

  /** a at f == 0, b at f == 1. */
  function Mix(a: real, b: real, f: real): real {
    a * (1.0 - f) + b * f
  }

  /** The expression over the sorted copy; p outside [0, 1] would index outside it. */
  function Interpolate(s: seq<real>, p: real): real
    requires s != [] && 0.0 <= p <= 1.0
  {
    RankBounds(p, |s|);
    var idx := Rank(p, |s|);
    var lo := idx.Floor;
    var hi := if lo + 1 < |s| - 1 then lo + 1 else |s| - 1;
    Mix(s[lo], s[hi], idx - lo as real)
  }

  function Percentile(v: seq<real>, p: real): (r: real)
    requires 0.0 <= p <= 1.0
    ensures v == [] ==> r == 0.0
  {
    if v == [] then 0.0 else Interpolate(Sort(v), p)
  }

  lemma ProductNonNegative(x: real, y: real)
    requires x >= 0.0 && y >= 0.0
    ensures x * y >= 0.0
  {
  }

  lemma MixBetween(a: real, b: real, f: real)
    requires a <= b && 0.0 <= f <= 1.0
    ensures a <= Mix(a, b, f) <= b
  {
    assert Mix(a, b, f) == a + (b - a) * f == b - (b - a) * (1.0 - f);
    ProductNonNegative(b - a, f);
    ProductNonNegative(b - a, 1.0 - f);
  }

  lemma MixGrows(a: real, b: real, f: real, c: real, d: real, g: real)
    requires 0.0 <= f <= g <= 1.0 && a <= b && a <= c && b <= d && c <= d
    ensures Mix(a, b, f) <= Mix(c, d, g)
  {
    assert Mix(a, b, g) - Mix(a, b, f) == (b - a) * (g - f);
    ProductNonNegative(b - a, g - f);
    assert Mix(c, d, g) - Mix(a, b, g) == (c - a) * (1.0 - g) + (d - b) * g;
    ProductNonNegative(c - a, 1.0 - g);
    ProductNonNegative(d - b, g);
  }

  lemma RankGrows(p: real, q: real, n: nat)
    requires n >= 1 && p <= q
    ensures Rank(p, n) <= Rank(q, n)
  {
    var m := (n - 1) as real;
    assert q * m - p * m == (q - p) * m;
    ProductNonNegative(q - p, m);
  }

  lemma InterpolateGrows(s: seq<real>, t: seq<real>, p: real, q: real)
    requires s != [] && Sorted(s) && Sorted(t) && AtMost(s, t) && 0.0 <= p <= q <= 1.0
    ensures Interpolate(s, p) <= Interpolate(t, q)
  {
    var n := |s|;
    RankBounds(p, n);
    RankBounds(q, n);
    RankGrows(p, q, n);
    var x, y := Rank(p, n), Rank(q, n);
    var i, j := x.Floor, y.Floor;
    var k := if i + 1 < n - 1 then i + 1 else n - 1;
    var l := if j + 1 < n - 1 then j + 1 else n - 1;
    if i == j {
      MixGrows(s[i], s[k], x - i as real, t[i], t[k], y - i as real);
    } else {
      MixBetween(s[i], s[k], x - i as real);
      MixBetween(t[j], t[l], y - j as real);
      assert s[k] <= t[k] <= t[j];
    }
  }

  /** The copy's order, hence the sorting algorithm and the order of the samples, is immaterial. */
  lemma OrderImmaterial(v: seq<real>, s: seq<real>, p: real)
    requires v != [] && IsSortOf(s, v) && 0.0 <= p <= 1.0
    ensures s != [] && Interpolate(s, p) == Percentile(v, p)
  {
    SortSorts(v);
    SortedUnique(s, Sort(v));
  }

  lemma SampleOrderImmaterial(v: seq<real>, w: seq<real>, p: real)
    requires multiset(v) == multiset(w) && 0.0 <= p <= 1.0
    ensures Percentile(v, p) == Percentile(w, p)
  {
    if v == [] {
      assert |w| == |multiset(w)| == 0;
    } else {
      assert |w| == |multiset(w)| == |v|;
      SortSorts(w);
      OrderImmaterial(v, Sort(w), p);
    }
  }

  /** Monotone in p, and in the data: larger samples, pointwise, never give a smaller percentile. */
  lemma PercentileMonotone(v: seq<real>, w: seq<real>, p: real, q: real)
    requires AtMost(v, w) && 0.0 <= p <= q <= 1.0
    ensures Percentile(v, p) <= Percentile(w, q)
  {
    if v != [] {
      SortSorts(v);
      SortSorts(w);
      SortKeepsOrder(v, w);
      InterpolateGrows(Sort(v), Sort(w), p, q);
    }
  }

  lemma FloorIs(x: real, k: int)
    requires k as real <= x < (k + 1) as real
    ensures x.Floor == k
  {
  }

  lemma MixIsLinear(a: real, b: real, t: real)
    ensures Mix(a, b, t) == a + t * (b - a)
  {
  }

  lemma InterpolateLinear(s: seq<real>, p: real, k: nat, t: real)
    requires k + 1 < |s| && 0.0 <= t <= 1.0 && 0.0 <= p <= 1.0 && p * (|s| - 1) as real == k as real + t
    ensures Interpolate(s, p) == s[k] + t * (s[k + 1] - s[k])
  {
    if t == 1.0 {
      FloorIs(Rank(p, |s|), k + 1);
    } else {
      FloorIs(Rank(p, |s|), k);
      MixIsLinear(s[k], s[k + 1], t);
    }
  }

  /** Linear between neighbouring order statistics, ends included: rank k + t lies t of the way up. */
  lemma PercentileInterpolates(v: seq<real>, s: seq<real>, p: real, k: nat, t: real)
    requires IsSortOf(s, v) && k + 1 < |s| && 0.0 <= t <= 1.0 && 0.0 <= p <= 1.0
    requires p * (|s| - 1) as real == k as real + t
    ensures Percentile(v, p) == s[k] + t * (s[k + 1] - s[k])
  {
    SameLength(s, v);
    InterpolateLinear(s, p, k, t);
    OrderImmaterial(v, s, p);
  }

  ghost predicate IsLeast(x: real, v: seq<real>) {
    x in v && forall y :: y in v ==> x <= y
  }

  ghost predicate IsGreatest(x: real, v: seq<real>) {
    x in v && forall y :: y in v ==> y <= x
  }

  lemma InterpolateEnds(s: seq<real>)
    requires s != []
    ensures Interpolate(s, 0.0) == s[0] && Interpolate(s, 1.0) == s[|s| - 1]
  {
    assert Rank(0.0, |s|) == 0.0 && Rank(1.0, |s|) == (|s| - 1) as real;
  }

  lemma EndsOfSort(s: seq<real>, v: seq<real>)
    requires IsSortOf(s, v) && s != []
    ensures IsLeast(s[0], v) && IsGreatest(s[|s| - 1], v)
  {
    SameMembers(s, v, s[0]);
    SameMembers(s, v, s[|s| - 1]);
    forall y | y in v ensures s[0] <= y <= s[|s| - 1] {
      SameMembers(v, s, y);
    }
  }

  /** The percentile runs from the smallest sample at 0 to the largest at 1. */
  lemma PercentileEnds(v: seq<real>)
    requires v != []
    ensures IsLeast(Percentile(v, 0.0), v) && IsGreatest(Percentile(v, 1.0), v)
  {
    SortSorts(v);
    InterpolateEnds(Sort(v));
    EndsOfSort(Sort(v), v);
  }

  /** In between it stays within the samples. */
  lemma PercentileWithin(v: seq<real>, p: real)
    requires v != [] && 0.0 <= p <= 1.0
    ensures forall lo, hi :: IsLeast(lo, v) && IsGreatest(hi, v) ==> lo <= Percentile(v, p) <= hi
  {
    PercentileEnds(v);
    PercentileMonotone(v, v, 0.0, p);
    PercentileMonotone(v, v, p, 1.0);
  }
}

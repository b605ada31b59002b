/** Text order and stable sorting, as the snapshot renderer's language defines them. */
module Sorting {

  predicate TextLeq(a: string, b: string) {
    a == "" || (b != "" && (a[0] < b[0] || (a[0] == b[0] && TextLeq(a[1..], b[1..]))))
  }

  lemma {:induction false} TextTotal(a: string, b: string)
    ensures TextLeq(a, b) || TextLeq(b, a)
    decreases |a|
  {
    if a != "" && b != "" && a[0] == b[0] {
      TextTotal(a[1..], b[1..]);
    }
  }

  lemma {:induction false} TextTransitive(a: string, b: string, c: string)
    requires TextLeq(a, b) && TextLeq(b, c)
    ensures TextLeq(a, c)
    decreases |a|
  {
    if a != "" && a[0] == b[0] == c[0] {
      TextTransitive(a[1..], b[1..], c[1..]);
    }
  }

  lemma {:induction false} TextAntisymmetric(a: string, b: string)
    requires TextLeq(a, b) && TextLeq(b, a)
    ensures a == b
    decreases |a|
  {
    if a != "" {
      TextAntisymmetric(a[1..], b[1..]);
      assert a == [a[0]] + a[1..] && b == [b[0]] + b[1..];
    }
  }

  /** The two texts agree up to k, where a has ended or the smaller character. */
  ghost predicate SmallerAt(a: string, b: string, k: nat) {
    && k <= |a| && k <= |b| && a[..k] == b[..k]
    && (k == |a| || (k < |b| && a[k] < b[k]))
  }

  lemma FirstDecides(a: string, b: string, k: nat)
    requires a != "" && b != "" && SmallerAt(a, b, k)
    ensures a[0] <= b[0]
  {
    if k > 0 {
      assert a[0] == a[..k][0] == b[..k][0] == b[0];
    }
  }

  /** TextLeq is the dictionary order. */
  lemma {:induction false} TextLeqIs(a: string, b: string)
    ensures TextLeq(a, b) <==> exists k :: SmallerAt(a, b, k)
    decreases |a|
  {
    if a == "" {
      assert SmallerAt(a, b, 0);
    } else if b != "" {
      if a[0] == b[0] {
        TextLeqIs(a[1..], b[1..]);
        assert a == [a[0]] + a[1..] && b == [b[0]] + b[1..];
        if k: nat :| SmallerAt(a[1..], b[1..], k) {
          SmallerOneOn(a, b, k);
        }
        if k: nat :| SmallerAt(a, b, k) {
          SmallerOneBack(a, b, k);
        }
      } else if a[0] < b[0] {
        assert SmallerAt(a, b, 0);
      } else if k: nat :| SmallerAt(a, b, k) {
        FirstDecides(a, b, k);
      }
    }
  }

  lemma SmallerOneOn(a: string, b: string, k: nat)
    requires a != "" && b != "" && a[0] == b[0] && SmallerAt(a[1..], b[1..], k)
    ensures SmallerAt(a, b, k + 1)
  {
    assert a[..k + 1] == [a[0]] + a[1..][..k];
    assert b[..k + 1] == [b[0]] + b[1..][..k];
  }

  lemma SmallerOneBack(a: string, b: string, k: nat)
    requires a != "" && b != "" && a[0] == b[0] && SmallerAt(a, b, k)
    ensures k > 0 && SmallerAt(a[1..], b[1..], k - 1)
  {
    assert a[1..][..k - 1] == a[..k][1..];
    assert b[1..][..k - 1] == b[..k][1..];
  }

  // ---------------------------------------------------------------- stable sort

  ghost predicate Total<T(!new)>(leq: (T, T) -> bool) {
    forall x, y :: leq(x, y) || leq(y, x)
  }

  ghost predicate Transitive<T(!new)>(leq: (T, T) -> bool) {
    forall x, y, z :: leq(x, y) && leq(y, z) ==> leq(x, z)
  }

  /** Element i of s goes before element j: smaller, or equivalent and earlier. */
  predicate Goes<T>(s: seq<T>, leq: (T, T) -> bool, i: nat, j: nat)
    requires i < |s| && j < |s|
  {
    leq(s[i], s[j]) && (leq(s[j], s[i]) ==> i < j)
  }

  ghost predicate Ordered<T>(s: seq<T>, leq: (T, T) -> bool, p: seq<nat>)
    requires forall a :: 0 <= a < |p| ==> p[a] < |s|
  {
    forall a, b :: 0 <= a < b < |p| ==> Goes(s, leq, p[a], p[b])
  }

  ghost predicate Holds(p: seq<nat>, n: nat) {
    |p| == n && (forall a :: 0 <= a < n ==> p[a] < n) && forall i :: 0 <= i < n ==> i in p
  }

  /** p lists the positions of s in stable order. */
  ghost predicate IsStableOrder<T>(s: seq<T>, leq: (T, T) -> bool, p: seq<nat>) {
    Holds(p, |s|) && Ordered(s, leq, p)
  }

  lemma HoldsOneMore(p: seq<nat>, k: nat)
    requires Holds(p, |p|) && k <= |p|
    ensures Holds(p[..k] + [|p|] + p[k..], |p| + 1)
  {
    var q := p[..k] + [|p|] + p[k..];
    forall i | 0 <= i < |p| + 1 ensures i in q {
      if i < |p| {
        assert i in p;
        var a :| 0 <= a < |p| && p[a] == i;
        assert q[if a < k then a else a + 1] == i;
      } else {
        assert q[k] == i;
      }
    }
  }

  method StableOrder<T(!new)>(s: seq<T>, leq: (T, T) -> bool) returns (p: seq<nat>)
    requires Total(leq) && Transitive(leq)
    ensures IsStableOrder(s, leq, p)
  {
    p := [];
    for n := 0 to |s|
      invariant Holds(p, n) && Ordered(s, leq, p)
    {
      var k := |p|;
      while k > 0 && !leq(s[p[k - 1]], s[n])
        invariant 0 <= k <= |p|
        invariant forall a :: k <= a < |p| ==> !leq(s[p[a]], s[n])
      {
        k := k - 1;
      }
      forall a | 0 <= a < k ensures Goes(s, leq, p[a], n) {
        if a < k - 1 {
          assert Goes(s, leq, p[a], p[k - 1]);
        }
      }
      HoldsOneMore(p, k);
      p := p[..k] + [n] + p[k..];
    }
  }
}

/** Sequence combinators the table operations are built from: filtering,
    mapping, flattening, extrema, sums and a stable sort. */
module Seqs {

  /** Predicate combinators; building predicates through named functions lets
      two occurrences of the same predicate be recognised as equal. */
  function Not<T>(p: T -> bool): T -> bool
  {
    x => !p(x)
  }

  function And<T>(p: T -> bool, q: T -> bool): T -> bool
  {
    x => p(x) && q(x)
  }

  /** The elements of `s` that satisfy `p`, in their original order (a boolean mask). */
  function Filter<T>(s: seq<T>, p: T -> bool): (r: seq<T>)
    ensures |r| <= |s|
    ensures forall x :: x in r ==> x in s && p(x)
    ensures forall x :: x in s && p(x) ==> x in r
    ensures multiset(r) <= multiset(s)
  {
    if s == [] then []
    else
      assert s == [s[0]] + s[1..];
      (if p(s[0]) then [s[0]] else []) + Filter(s[1..], p)
  }

  function Map<T, U>(s: seq<T>, f: T -> U): (r: seq<U>)
    ensures |r| == |s|
    ensures forall i :: 0 <= i < |s| ==> r[i] == f(s[i])
  {
    seq(|s|, i requires 0 <= i < |s| => f(s[i]))
  }

  function Flatten<T>(ss: seq<seq<T>>): seq<T>
  {
    if ss == [] then [] else ss[0] + Flatten(ss[1..])
  }

  function Sum(s: seq<real>): real
  {
    if s == [] then 0.0 else s[0] + Sum(s[1..])
  }

  /** The largest element of a non-empty sequence. */
  function MaxOf(s: seq<real>): (r: real)
    requires |s| > 0
    ensures r in s
    ensures forall x :: x in s ==> x <= r
  {
    if |s| == 1 then s[0]
    else
      assert s == [s[0]] + s[1..];
      var m := MaxOf(s[1..]);
      if s[0] >= m then s[0] else m
  }

  /** The smallest element of a non-empty sequence. */
  function MinOf(s: seq<real>): (r: real)
    requires |s| > 0
    ensures r in s
    ensures forall x :: x in s ==> r <= x
  {
    if |s| == 1 then s[0]
    else
      assert s == [s[0]] + s[1..];
      var m := MinOf(s[1..]);
      if s[0] <= m then s[0] else m
  }

  lemma {:induction false} FilterConcat<T>(a: seq<T>, b: seq<T>, p: T -> bool)
    ensures Filter(a + b, p) == Filter(a, p) + Filter(b, p)
  {
    if a == [] {
      assert a + b == b;
    } else {
      assert (a + b)[1..] == a[1..] + b;
      FilterConcat(a[1..], b, p);
    }
  }

  /** Two sequences that agree on which positions pass `p`, and on the
      elements at those positions, filter to the same sequence. */
  lemma {:induction false} FilterPointwise<T>(a: seq<T>, b: seq<T>, p: T -> bool)
    requires |a| == |b|
    requires forall i :: 0 <= i < |a| ==> p(a[i]) == p(b[i])
    requires forall i :: 0 <= i < |a| && p(a[i]) ==> a[i] == b[i]
    ensures Filter(a, p) == Filter(b, p)
  {
    if a != [] {
      FilterPointwise(a[1..], b[1..], p);
    }
  }

  /** Filtering with two predicates that agree on `s` gives the same result. */
  lemma {:induction false} FilterAgree<T>(s: seq<T>, p: T -> bool, q: T -> bool)
    requires forall x :: x in s ==> p(x) == q(x)
    ensures Filter(s, p) == Filter(s, q)
  {
    if s != [] {
      FilterAgree(s[1..], p, q);
    }
  }

  lemma {:induction false} FilterFilter<T>(s: seq<T>, p: T -> bool, q: T -> bool)
    ensures Filter(Filter(s, p), q) == Filter(s, And(p, q))
  {
    if s != [] {
      var head := if p(s[0]) then [s[0]] else [];
      var tail := Filter(s[1..], p);
      assert Filter(s, p) == head + tail;
      FilterConcat(head, tail, q);
      FilterFilter(s[1..], p, q);
      assert Filter(head, q) == (if And(p, q)(s[0]) then [s[0]] else []);
    }
  }

  lemma {:induction false} FilterAll<T>(s: seq<T>, p: T -> bool)
    requires forall x :: x in s ==> p(x)
    ensures Filter(s, p) == s
  {
    if s != [] {
      FilterAll(s[1..], p);
    }
  }

  lemma {:induction false} FilterNone<T>(s: seq<T>, p: T -> bool)
    requires forall x :: x in s ==> !p(x)
    ensures Filter(s, p) == []
  {
    if s != [] {
      FilterNone(s[1..], p);
    }
  }

  /** An element the predicate rejects makes the filtered sequence strictly shorter. */
  lemma {:induction false} FilterShrinks<T>(s: seq<T>, p: T -> bool, x: T)
    requires x in s && !p(x)
    ensures |Filter(s, p)| < |s|
  {
    if s[0] != x {
      FilterShrinks(s[1..], p, x);
    }
  }

  /** A predicate and its complement split a sequence into two parts that
      together hold every element exactly as often as the sequence does. */
  lemma {:induction false} FilterSplit<T>(s: seq<T>, p: T -> bool, q: T -> bool)
    requires forall x :: x in s ==> q(x) == !p(x)
    ensures multiset(Filter(s, p)) + multiset(Filter(s, q)) == multiset(s)
  {
    if s != [] {
      var x, t := s[0], s[1..];
      assert s == [x] + t;
      FilterSplit(t, p, q);
      var hp := if p(x) then [x] else [];
      var hq := if q(x) then [x] else [];
      FilterCons(x, t, p);
      FilterCons(x, t, q);
      SplitCounts(multiset(hp), multiset(hq), multiset(Filter(t, p)), multiset(Filter(t, q)),
                  multiset{x}, multiset(t));
    }
  }

  /** Two splits side by side make a split of the sums. */
  lemma SplitCounts<T>(hp: multiset<T>, hq: multiset<T>, mp: multiset<T>, mq: multiset<T>,
                       mh: multiset<T>, mt: multiset<T>)
    requires hp + hq == mh && mp + mq == mt
    ensures (hp + mp) + (hq + mq) == mh + mt
  {
    assert (hp + mp) + (hq + mq) == (hp + hq) + (mp + mq);
  }

  lemma MapConcat<T, U>(a: seq<T>, b: seq<T>, f: T -> U)
    ensures Map(a + b, f) == Map(a, f) + Map(b, f)
  {
  }

  /** Mapping a function over two arrangements of the same elements gives two
      arrangements of the same images. */
  lemma {:induction false} MapPermutation<T, U>(a: seq<T>, b: seq<T>, f: T -> U)
    requires multiset(a) == multiset(b)
    ensures multiset(Map(a, f)) == multiset(Map(b, f))
    decreases |a|
  {
    if a != [] {
      assert a[0] in multiset(b);
      var i :| 0 <= i < |b| && b[i] == a[0];
      var rest := b[..i] + b[i + 1..];
      MultisetRemove(b, i);
      MultisetHead(a);
      MultisetCancel(multiset(a[1..]), multiset(rest), a[0]);
      MapPermutation(a[1..], rest, f);
      MapAt(b, i, f);
      MapHead(a, f);
      MultisetAssemble(multiset(Map(a, f)), multiset(Map(a[1..], f)),
                       multiset(Map(b, f)), multiset(Map(rest, f)), f(a[0]));
    }
  }

  lemma MultisetAssemble<T>(x: multiset<T>, x1: multiset<T>, y: multiset<T>, y1: multiset<T>, e: T)
    requires x == x1 + multiset{e} && y == y1 + multiset{e} && x1 == y1
    ensures x == y
  {
  }

  lemma MapHead<T, U>(a: seq<T>, f: T -> U)
    requires a != []
    ensures multiset(Map(a, f)) == multiset(Map(a[1..], f)) + multiset{f(a[0])}
  {
    MapAt(a, 0, f);
    assert a[..0] + a[1..] == a[1..];
  }

  lemma MultisetRemove<T>(b: seq<T>, i: int)
    requires 0 <= i < |b|
    ensures multiset(b) == multiset(b[..i] + b[i + 1..]) + multiset{b[i]}
  {
    assert b == b[..i] + [b[i]] + b[i + 1..];
  }

  lemma MultisetHead<T>(a: seq<T>)
    requires a != []
    ensures multiset(a) == multiset(a[1..]) + multiset{a[0]}
  {
    assert a == [a[0]] + a[1..];
  }

  lemma MultisetCancel<T>(x: multiset<T>, y: multiset<T>, e: T)
    requires x + multiset{e} == y + multiset{e}
    ensures x == y
  {
    forall z
      ensures x[z] == y[z]
    {
      assert (x + multiset{e})[z] == (y + multiset{e})[z];
    }
  }

  /** Mapping a sequence with one element taken out. */
  lemma MapAt<T, U>(b: seq<T>, i: int, f: T -> U)
    requires 0 <= i < |b|
    ensures multiset(Map(b, f)) == multiset(Map(b[..i] + b[i + 1..], f)) + multiset{f(b[i])}
  {
    MapRemove(b, i, f);
    MultisetRemove(Map(b, f), i);
  }

  lemma MapRemove<T, U>(b: seq<T>, i: int, f: T -> U)
    requires 0 <= i < |b|
    ensures Map(b[..i] + b[i + 1..], f) == Map(b, f)[..i] + Map(b, f)[i + 1..]
  {
    var l := Map(b[..i] + b[i + 1..], f);
    var r := Map(b, f)[..i] + Map(b, f)[i + 1..];
    forall k | 0 <= k < |l|
      ensures l[k] == r[k]
    {
      if k < i {
        assert (b[..i] + b[i + 1..])[k] == b[k];
      } else {
        assert (b[..i] + b[i + 1..])[k] == b[k + 1];
      }
    }
  }

  lemma {:induction false} FlattenConcat<T>(a: seq<seq<T>>, b: seq<seq<T>>)
    ensures Flatten(a + b) == Flatten(a) + Flatten(b)
  {
    if a == [] {
      assert a + b == b;
    } else {
      assert (a + b)[1..] == a[1..] + b;
      FlattenConcat(a[1..], b);
    }
  }

  lemma FlattenCons<T>(g: seq<T>, gs: seq<seq<T>>)
    ensures Flatten([g] + gs) == g + Flatten(gs)
  {
    assert ([g] + gs)[1..] == gs;
  }

  /** Splitting a sequence of groups by a predicate and its complement keeps
      every member of every group exactly once. */
  lemma {:induction false} FlattenFilterSplit<T>(ss: seq<seq<T>>, p: seq<T> -> bool, q: seq<T> -> bool)
    requires forall g :: g in ss ==> q(g) == !p(g)
    ensures multiset(Flatten(Filter(ss, p))) + multiset(Flatten(Filter(ss, q))) == multiset(Flatten(ss))
  {
    if ss != [] {
      var g, t := ss[0], ss[1..];
      FlattenFilterStep(ss, p);
      FlattenFilterStep(ss, q);
      FlattenHeads(g, p, q);
      FlattenFilterSplit(t, p, q);
      SplitCounts(multiset(Flatten(Head(g, p))), multiset(Flatten(Head(g, q))),
                  multiset(Flatten(Filter(t, p))), multiset(Flatten(Filter(t, q))),
                  multiset(g), multiset(Flatten(t)));
    }
  }

  /** `[x]` when `x` satisfies `p`, and `[]` otherwise. */
  function Head<T>(x: T, p: T -> bool): seq<T>
  {
    if p(x) then [x] else []
  }

  lemma FlattenFilterStep<T>(ss: seq<seq<T>>, p: seq<T> -> bool)
    requires ss != []
    ensures multiset(Flatten(Filter(ss, p)))
         == multiset(Flatten(Head(ss[0], p))) + multiset(Flatten(Filter(ss[1..], p)))
  {
    FlattenConcat(Head(ss[0], p), Filter(ss[1..], p));
  }

  lemma FlattenHeads<T>(g: seq<T>, p: seq<T> -> bool, q: seq<T> -> bool)
    requires q(g) == !p(g)
    ensures multiset(Flatten(Head(g, p))) + multiset(Flatten(Head(g, q))) == multiset(g)
  {
    FlattenCons(g, []);
  }

  // ---------------------------------------------------------------------------
  // Stable sort by a real-valued key

  predicate SortedBy<T>(s: seq<T>, key: T -> real)
  {
    forall i, j :: 0 <= i < j < |s| ==> key(s[i]) <= key(s[j])
  }

  function KeyIs<T>(key: T -> real, k: real): T -> bool
  {
    x => key(x) == k
  }

  /** Inserts `x` in front of the first element whose key is not smaller. */
  function InsertBy<T>(x: T, s: seq<T>, key: T -> real): (r: seq<T>)
    requires SortedBy(s, key)
    ensures SortedBy(r, key)
    ensures multiset(r) == multiset(s) + multiset{x}
    ensures forall y :: y in r ==> y == x || y in s
  {
    if s == [] || key(x) <= key(s[0]) then
      SortedCons(x, s, key);
      [x] + s
    else
      var t := InsertBy(x, s[1..], key);
      SortedCons(s[0], t, key);
      assert s == [s[0]] + s[1..];
      [s[0]] + t
  }

  /** An element no greater than the head of a sorted sequence, or than
      every element of it, extends it at the front. */
  lemma SortedCons<T>(h: T, t: seq<T>, key: T -> real)
    requires SortedBy(t, key)
    requires t == [] || key(h) <= key(t[0]) || forall y :: y in t ==> key(h) <= key(y)
    ensures SortedBy([h] + t, key)
  {
    var r := [h] + t;
    forall i, j | 0 <= i < j < |r|
      ensures key(r[i]) <= key(r[j])
    {
      if i == 0 {
        assert r[j] == t[j - 1];
        assert r[j] in t;
      }
    }
  }

  /** Insertion sort: sorted by key and a permutation of its input. */
  function SortBy<T>(s: seq<T>, key: T -> real): (r: seq<T>)
    ensures SortedBy(r, key)
    ensures multiset(r) == multiset(s)
    ensures |r| == |s|
  {
    if s == [] then []
    else
      assert s == [s[0]] + s[1..];
      InsertBy(s[0], SortBy(s[1..], key), key)
  }

  lemma FilterCons<T>(y: T, t: seq<T>, p: T -> bool)
    ensures Filter([y] + t, p) == (if p(y) then [y] else []) + Filter(t, p)
  {
    assert ([y] + t)[1..] == t;
  }

  /** Reorders two filtered heads of which at most one survives the filter. */
  lemma SwapSingletons<T>(a: seq<T>, b: seq<T>, t: seq<T>)
    requires a == [] || b == []
    ensures a + (b + t) == b + (a + t)
  {
  }

  lemma {:induction false} InsertByStable<T>(x: T, s: seq<T>, key: T -> real, k: real)
    requires SortedBy(s, key)
    ensures Filter(InsertBy(x, s, key), KeyIs(key, k))
         == (if key(x) == k then [x] else []) + Filter(s, KeyIs(key, k))
  {
    var p := KeyIs(key, k);
    var hx := if key(x) == k then [x] else [];
    if s == [] || key(x) <= key(s[0]) {
      FilterCons(x, s, p);
    } else {
      var s0 := s[0];
      var h0 := if key(s0) == k then [s0] else [];
      var rest := InsertBy(x, s[1..], key);
      InsertByStable(x, s[1..], key, k);
      FilterCons(s0, rest, p);
      SwapSingletons(h0, hx, Filter(s[1..], p));
    }
  }

  /** Stability: elements with equal keys keep their relative input order. */
  lemma {:induction false} SortByStable<T>(s: seq<T>, key: T -> real, k: real)
    ensures Filter(SortBy(s, key), KeyIs(key, k)) == Filter(s, KeyIs(key, k))
  {
    if s != [] {
      SortByStable(s[1..], key, k);
      InsertByStable(s[0], SortBy(s[1..], key), key, k);
    }
  }

  // ---------------------------------------------------------------------------
  // Sequences without repetitions

  predicate Distinct<T(==)>(s: seq<T>)
  {
    forall i, j :: 0 <= i < j < |s| ==> s[i] != s[j]
  }

  /** `[0, 1, ..., k - 1]` (`list(range(k))`). */
  function Range(k: nat): (r: seq<int>)
    ensures |r| == k
    ensures forall i :: 0 <= i < k ==> r[i] == i
  {
    seq(k, i => i)
  }

  lemma {:induction false} DistinctAtMostOnce<T>(s: seq<T>, x: T)
    requires Distinct(s)
    ensures multiset(s)[x] <= 1
  {
    if s != [] {
      var t := s[1..];
      assert s == [s[0]] + t;
      assert Distinct(t) by {
        forall i, j | 0 <= i < j < |t|
          ensures t[i] != t[j]
        {
          assert t[i] == s[i + 1] && t[j] == s[j + 1];
        }
      }
      DistinctAtMostOnce(t, x);
      forall k | 0 <= k < |t|
        ensures t[k] != s[0]
      {
        assert t[k] == s[k + 1];
      }
      assert s[0] !in t;
    }
  }

  /** A repeated element is counted at least twice. */
  lemma RepeatCounted<T>(s: seq<T>, i: int, j: int)
    requires 0 <= i < j < |s|
    ensures s[i] == s[j] ==> multiset(s)[s[i]] >= 2
  {
    var a := s[..j];
    var b := s[j..];
    assert s == a + b;
    assert s[i] == a[i];
    assert s[j] == b[0];
  }

  /** A permutation of a sequence without repetitions has none either. */
  lemma PermutationKeepsDistinct<T>(a: seq<T>, b: seq<T>)
    requires multiset(a) == multiset(b) && Distinct(b)
    ensures Distinct(a)
  {
    forall i, j | 0 <= i < j < |a|
      ensures a[i] != a[j]
    {
      RepeatCounted(a, i, j);
      DistinctAtMostOnce(b, a[i]);
    }
  }

  // ---------------------------------------------------------------------------
  // Properties of elements at their position

  /** Every element satisfies `ok` at its position counted from `from`. */
  predicate AllFrom<T>(s: seq<T>, from: nat, ok: (nat, T) -> bool)
  {
    forall k :: 0 <= k < |s| ==> ok(from + k, s[k])
  }

  /** An element at position `from` in front of elements counted from
      `from + 1`. */
  lemma AllFromCons<T>(x: T, s: seq<T>, from: nat, ok: (nat, T) -> bool)
    requires ok(from, x) && AllFrom(s, from + 1, ok)
    ensures AllFrom([x] + s, from, ok)
  {
    var u := [x] + s;
    forall k | 0 <= k < |u|
      ensures ok(from + k, u[k])
    {
      if k > 0 {
        assert u[k] == s[k - 1];
      }
    }
  }

  /** Elements counted from 0 followed by one at position `|s|`. */
  lemma AllFromSnoc<T>(s: seq<T>, x: T, ok: (nat, T) -> bool)
    requires AllFrom(s, 0, ok) && ok(|s|, x)
    ensures AllFrom(s + [x], 0, ok)
  {
    var u := s + [x];
    forall k | 0 <= k < |u|
      ensures ok(k, u[k])
    {
      if k < |s| {
        assert u[k] == s[k];
      }
    }
  }
}

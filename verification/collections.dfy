/** Sequence and map helpers the Go code gets from the language itself: building a map
    from a slice by key, the iteration order of a map, and `sort.Ints`.
 */
module Collections {
  import opened Wrappers

  // ---------------------------------------------------------------------
  // Building a map from a slice: `for _, v := range xs { r[key(v)] = v }`
  // ---------------------------------------------------------------------

  /** Stores every element of `xs` under its key, front to back, so an
      element replaces any earlier one with the same key. */
  function KeyBy<K, V>(xs: seq<V>, key: V -> K): map<K, V>
  {
    KeyInto(map[], xs, key)
  }

  function KeyInto<K, V>(acc: map<K, V>, xs: seq<V>, key: V -> K): map<K, V>
    decreases |xs|
  {
    if |xs| == 0 then acc else KeyInto(acc[key(xs[0]) := xs[0]], xs[1..], key)
  }

  /** Reference definition: the last element of `xs` whose key is `k`. */
  function LastWith<K(==), V>(xs: seq<V>, key: V -> K, k: K): (r: Option<V>)
    ensures r.None? <==> forall i :: 0 <= i < |xs| ==> key(xs[i]) != k
    ensures r.Some? ==> exists i :: 0 <= i < |xs| && xs[i] == r.value && key(xs[i]) == k
                                    && forall j :: i < j < |xs| ==> key(xs[j]) != k
    decreases |xs|
  {
    if |xs| == 0 then None
    else
      match LastWith(xs[1..], key, k)
      case Some(v) =>
        assert forall i :: 0 < i < |xs| ==> xs[i] == xs[1..][i - 1];
        Some(v)
      case None =>
        assert forall i :: 0 < i < |xs| ==> xs[i] == xs[1..][i - 1];
        if key(xs[0]) == k then Some(xs[0]) else None
  }

  /** The map built by `KeyBy` holds, under every key, exactly the last
      element of the slice with that key, and no other keys. */
  lemma {:induction false} KeyByIsLastWith<K, V>(xs: seq<V>, key: V -> K, k: K)
    ensures k in KeyBy(xs, key) <==> LastWith(xs, key, k).Some?
    ensures k in KeyBy(xs, key) ==> LastWith(xs, key, k) == Some(KeyBy(xs, key)[k])
  {
    KeyIntoOverlays(map[], xs, key, k);
  }

  lemma {:induction false} KeyIntoOverlays<K, V>(acc: map<K, V>, xs: seq<V>, key: V -> K, k: K)
    ensures LastWith(xs, key, k).Some? ==>
              k in KeyInto(acc, xs, key) && KeyInto(acc, xs, key)[k] == LastWith(xs, key, k).value
    ensures LastWith(xs, key, k).None? ==>
              (k in KeyInto(acc, xs, key) <==> k in acc)
              && (k in acc ==> KeyInto(acc, xs, key)[k] == acc[k])
    decreases |xs|
  {
    if |xs| > 0 {
      KeyIntoOverlays(acc[key(xs[0]) := xs[0]], xs[1..], key, k);
    }
  }

  // ---------------------------------------------------------------------
  // Go map iteration: an arbitrary duplicate-free enumeration of the keys
  // ---------------------------------------------------------------------

  predicate Distinct<T(==)>(s: seq<T>)
  {
    forall i, j :: 0 <= i < j < |s| ==> s[i] != s[j]
  }

  /** `order` lists every key of `keys` exactly once, in some order. */
  ghost predicate Enumerates<T(!new)>(order: seq<T>, keys: set<T>)
  {
    Distinct(order) && forall x :: x in order <==> x in keys
  }

  function MapSeq<T, U>(f: T -> U, s: seq<T>): (r: seq<U>)
    ensures |r| == |s|
    ensures forall i :: 0 <= i < |s| ==> r[i] == f(s[i])
  {
    seq(|s|, i requires 0 <= i < |s| => f(s[i]))
  }

  /** In a duplicate-free sequence every element occurs exactly once. */
  lemma {:induction false} DistinctCount<T>(a: seq<T>, x: T)
    requires Distinct(a)
    ensures multiset(a)[x] == if x in a then 1 else 0
    decreases |a|
  {
    if |a| > 0 {
      assert a == [a[0]] + a[1..];
      assert multiset(a) == multiset{a[0]} + multiset(a[1..]);
      assert a[0] !in a[1..] by {
        forall i | 0 <= i < |a[1..]|
          ensures a[1..][i] != a[0]
        {
          assert a[1..][i] == a[i + 1];
        }
      }
      DistinctCount(a[1..], x);
    }
  }

  /** Two enumerations of the same keys are permutations of each other. */
  lemma EnumerationsArePermutations<T(!new)>(a: seq<T>, b: seq<T>, keys: set<T>)
    requires Enumerates(a, keys) && Enumerates(b, keys)
    ensures multiset(a) == multiset(b)
  {
    forall x
      ensures multiset(a)[x] == multiset(b)[x]
    {
      DistinctCount(a, x);
      DistinctCount(b, x);
    }
  }

  /** A value at two positions occurs at least twice. */
  lemma {:induction false} RepeatCounts<T>(b: seq<T>, i: int, j: int)
    requires 0 <= i < j < |b| && b[i] == b[j]
    ensures multiset(b)[b[i]] >= 2
  {
    assert b == b[..j] + [b[j]] + b[j + 1..];
    assert b[i] == b[..j][i];
    assert multiset(b) == multiset(b[..j]) + multiset{b[j]} + multiset(b[j + 1..]);
    assert b[i] in multiset(b[..j]);
  }

  /** A permutation of a duplicate-free sequence is duplicate-free. */
  lemma PermutationKeepsDistinct<T>(a: seq<T>, b: seq<T>)
    requires Distinct(a) && multiset(a) == multiset(b)
    ensures Distinct(b)
  {
    forall i, j | 0 <= i < j < |b|
      ensures b[i] != b[j]
    {
      if b[i] == b[j] {
        RepeatCounts(b, i, j);
        DistinctCount(a, b[i]);
        assert false;
      }
    }
  }

  lemma CancelOne<T>(p: multiset<T>, q: multiset<T>, x: T)
    requires p + multiset{x} == q + multiset{x}
    ensures p == q
  {
    forall y
      ensures p[y] == q[y]
    {
      assert (p + multiset{x})[y] == p[y] + multiset{x}[y];
      assert (q + multiset{x})[y] == q[y] + multiset{x}[y];
    }
  }

  /** Applying a function element-wise to permutations gives permutations. */
  lemma {:induction false} MapPermutation<T, U>(f: T -> U, a: seq<T>, b: seq<T>)
    requires multiset(a) == multiset(b)
    ensures multiset(MapSeq(f, a)) == multiset(MapSeq(f, b))
    decreases |a|
  {
    if |a| == 0 {
      assert |b| == |multiset(b)| == 0;
    } else {
      var x := a[0];
      assert x in multiset(a);
      assert x in b;
      var j :| 0 <= j < |b| && b[j] == x;
      var b' := RemoveAt(b, j);
      MapRemoveAt(f, b, j);
      assert a == [x] + a[1..];
      CancelOne(multiset(b'), multiset(a[1..]), x);
      MapPermutation(f, a[1..], b');
      MapCons(f, a);
    }
  }

  lemma MapCons<T, U>(f: T -> U, a: seq<T>)
    requires |a| > 0
    ensures multiset(MapSeq(f, a)) == multiset(MapSeq(f, a[1..])) + multiset{f(a[0])}
  {
    assert MapSeq(f, a) == [f(a[0])] + MapSeq(f, a[1..]);
  }

  function RemoveAt<T>(s: seq<T>, j: nat): (r: seq<T>)
    requires j < |s|
    ensures multiset(r) + multiset{s[j]} == multiset(s)
  {
    assert s == s[..j] + [s[j]] + s[j + 1..];
    s[..j] + s[j + 1..]
  }

  lemma MapRemoveAt<T, U>(f: T -> U, s: seq<T>, j: nat)
    requires j < |s|
    ensures multiset(MapSeq(f, s)) == multiset(MapSeq(f, RemoveAt(s, j))) + multiset{f(s[j])}
  {
    var m, l, r := MapSeq(f, s), MapSeq(f, s[..j]), MapSeq(f, s[j + 1..]);
    assert m == l + [f(s[j])] + r;
    assert MapSeq(f, RemoveAt(s, j)) == l + r;
  }

  // ---------------------------------------------------------------------
  // `sort.Ints`
  // ---------------------------------------------------------------------

  predicate Sorted(s: seq<int>)
  {
    forall i, j :: 0 <= i < j < |s| ==> s[i] <= s[j]
  }

  function Insert(x: int, s: seq<int>): (r: seq<int>)
    requires Sorted(s)
    ensures Sorted(r)
    ensures multiset(r) == multiset(s) + multiset{x}
  {
    if |s| == 0 then [x]
    else if x <= s[0] then [x] + s
    else
      var t := Insert(x, s[1..]);
      LowerBound(s[0], t, s[1..], x);
      InsertHead(s, t, x);
      [s[0]] + t
  }

  /** Every element of a permutation of `s + [x]` is at least `lo` when
      `x` and every element of `s` are. */
  lemma LowerBound(lo: int, t: seq<int>, s: seq<int>, x: int)
    requires lo <= x && forall i :: 0 <= i < |s| ==> lo <= s[i]
    requires multiset(t) == multiset(s) + multiset{x}
    ensures forall i :: 0 <= i < |t| ==> lo <= t[i]
  {
    forall i | 0 <= i < |t|
      ensures lo <= t[i]
    {
      assert t[i] in multiset(t);
      if t[i] != x {
        assert t[i] in multiset(s);
        var k :| 0 <= k < |s| && s[k] == t[i];
      }
    }
  }

  lemma InsertHead(s: seq<int>, t: seq<int>, x: int)
    requires |s| > 0 && multiset(t) == multiset(s[1..]) + multiset{x}
    ensures multiset([s[0]] + t) == multiset(s) + multiset{x}
  {
    assert s == [s[0]] + s[1..];
  }

  /** Insertion sort: a sorted permutation of its input. */
  function Sort(xs: seq<int>): (r: seq<int>)
    ensures Sorted(r)
    ensures multiset(r) == multiset(xs)
    ensures |r| == |xs|
  {
    if |xs| == 0 then []
    else
      assert xs == [xs[0]] + xs[1..];
      Insert(xs[0], Sort(xs[1..]))
  }

  lemma HeadIsLeast(s: seq<int>, y: int)
    requires Sorted(s) && y in s
    ensures s[0] <= y
  {
  }

  /** A multiset has exactly one sorted arrangement, so sorting does not
      depend on the order its input arrived in. */
  lemma {:induction false} SortedUnique(a: seq<int>, b: seq<int>)
    requires Sorted(a) && Sorted(b)
    requires multiset(a) == multiset(b)
    ensures a == b
    decreases |a|
  {
    assert |a| == |multiset(a)| == |multiset(b)| == |b|;
    if |a| > 0 {
      assert a[0] in multiset(a);
      assert b[0] in multiset(b);
      HeadIsLeast(b, a[0]);
      HeadIsLeast(a, b[0]);
      var h := a[0];
      assert b[0] == h;
      var a', b' := a[1..], b[1..];
      assert a == [h] + a';
      assert b == [h] + b';
      assert Sorted(a') && Sorted(b');
      calc {
        multiset(a') + multiset{h};
        multiset(a);
        multiset(b);
        multiset(b') + multiset{h};
      }
      CancelOne(multiset(a'), multiset(b'), h);
      SortedUnique(a', b');
    }
  }
}

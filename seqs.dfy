/**
 * Sequence vocabulary shared by the model: `Array.prototype.filter`, order-preserving
 * subsequences, and the first-occurrence order in which a JavaScript object's keys
 * are created when it is filled element by element.
 */
module Seqs {

  predicate Distinct<T(==)>(xs: seq<T>) {
    forall i, j :: 0 <= i < j < |xs| ==> xs[i] != xs[j]
  }

  /** `s.filter(p)`: the elements of `s` that satisfy `p`, in their original order. */
  function Filter<T(==)>(s: seq<T>, p: T -> bool): (r: seq<T>)
    ensures |r| <= |s|
  {
    if s == [] then [] else (if p(s[0]) then [s[0]] else []) + Filter(s[1..], p)
  }

  /** The filter keeps exactly the elements of `s` that satisfy `p`. */
  lemma {:induction false} FilterMembers<T>(s: seq<T>, p: T -> bool)
    ensures forall x :: x in Filter(s, p) ==> x in s && p(x)
    ensures forall x :: x in s && p(x) ==> x in Filter(s, p)
    decreases |s|
  {
    if s != [] {
      FilterMembers(s[1..], p);
      assert s == [s[0]] + s[1..];
    }
  }

  /** `a` is obtained from `b` by deleting elements, without reordering. */
  predicate Subseq<T(==)>(a: seq<T>, b: seq<T>)
    decreases |b|
  {
    a == [] || (b != [] && ((a[0] == b[0] && Subseq(a[1..], b[1..])) || Subseq(a, b[1..])))
  }

  /** Extending a prefix by the next element. */
  lemma TakeSnoc<T>(s: seq<T>, i: nat)
    requires i < |s|
    ensures s[..i + 1] == s[..i] + [s[i]]
  {
  }

  lemma {:induction false} SubseqRefl<T>(s: seq<T>)
    ensures Subseq(s, s)
    decreases |s|
  {
    if s != [] {
      SubseqRefl(s[1..]);
    }
  }

  lemma {:induction false} SubseqLength<T>(a: seq<T>, b: seq<T>)
    requires Subseq(a, b)
    ensures |a| <= |b|
    ensures forall x :: x in a ==> x in b
    decreases |b|
  {
    if a != [] {
      if a[0] == b[0] && Subseq(a[1..], b[1..]) {
        SubseqLength(a[1..], b[1..]);
        assert a == [a[0]] + a[1..] && b == [b[0]] + b[1..];
      } else {
        SubseqLength(a, b[1..]);
        assert b == [b[0]] + b[1..];
      }
    }
  }

  lemma {:induction false} FilterIsSubseq<T>(s: seq<T>, p: T -> bool)
    ensures Subseq(Filter(s, p), s)
    decreases |s|
  {
    if s != [] {
      FilterIsSubseq(s[1..], p);
      var r := Filter(s, p);
      if p(s[0]) {
        assert r[0] == s[0] && r[1..] == Filter(s[1..], p);
      } else {
        assert r == Filter(s[1..], p);
      }
    }
  }

  lemma {:induction false} FilterSnoc<T>(s: seq<T>, x: T, p: T -> bool)
    ensures Filter(s + [x], p) == Filter(s, p) + (if p(x) then [x] else [])
  {
    FilterAppend(s, [x], p);
    assert [x][1..] == [];
    assert Filter([x], p) == (if p(x) then [x] else []) + Filter([], p);
  }

  lemma {:induction false} FilterAppend<T>(s: seq<T>, t: seq<T>, p: T -> bool)
    ensures Filter(s + t, p) == Filter(s, p) + Filter(t, p)
    decreases |s|
  {
    if s == [] {
      assert s + t == t;
    } else {
      var u := s + t;
      assert u[0] == s[0] && u[1..] == s[1..] + t;
      FilterAppend(s[1..], t, p);
      var h := if p(s[0]) then [s[0]] else [];
      assert Filter(u, p) == h + Filter(s[1..] + t, p);
      assert Filter(s, p) == h + Filter(s[1..], p);
    }
  }

  lemma {:induction false} FilterIdempotent<T>(s: seq<T>, p: T -> bool)
    ensures Filter(Filter(s, p), p) == Filter(s, p)
    decreases |s|
  {
    if s != [] {
      FilterIdempotent(s[1..], p);
      if p(s[0]) {
        var r := Filter(s, p);
        assert r == [s[0]] + Filter(s[1..], p);
        assert r[1..] == Filter(s[1..], p);
        assert Filter(r, p) == [s[0]] + Filter(r[1..], p);
      } else {
        assert Filter(s, p) == Filter(s[1..], p);
      }
    }
  }

  /** Filtering by `p` and then by `q` is filtering once by their conjunction `pq`. */
  lemma {:induction false} FilterFilter<T>(s: seq<T>, p: T -> bool, q: T -> bool, pq: T -> bool)
    requires forall x :: pq(x) == (p(x) && q(x))
    ensures Filter(Filter(s, p), q) == Filter(s, pq)
    decreases |s|
  {
    if s != [] {
      FilterFilter(s[1..], p, q, pq);
      var head := if p(s[0]) then [s[0]] else [];
      FilterAppend(head, Filter(s[1..], p), q);
      if p(s[0]) {
        assert head[1..] == [];
      }
    }
  }

  /** A weaker predicate keeps at least the same elements, in the same order. */
  lemma {:induction false} FilterWeaker<T>(s: seq<T>, p: T -> bool, q: T -> bool)
    requires forall x :: x in s && p(x) ==> q(x)
    ensures Subseq(Filter(s, p), Filter(s, q))
    ensures |Filter(s, p)| <= |Filter(s, q)|
    decreases |s|
  {
    if s != [] {
      var rest := s[1..];
      assert forall x :: x in rest ==> x in s;
      FilterWeaker(rest, p, q);
      var a, b := Filter(s, p), Filter(s, q);
      var a', b' := Filter(rest, p), Filter(rest, q);
      if p(s[0]) {
        assert a == [s[0]] + a' && b == [s[0]] + b';
        assert a[1..] == a' && b[1..] == b';
      } else if q(s[0]) {
        assert a == a' && b == [s[0]] + b';
        assert b[1..] == b';
      } else {
        assert a == a' && b == b';
      }
      SubseqLength(a, b);
    }
  }

  /** When no element satisfies `p`, the filter is empty. */
  lemma {:induction false} FilterNone<T>(s: seq<T>, p: T -> bool)
    requires forall x :: x in s ==> !p(x)
    ensures Filter(s, p) == []
    decreases |s|
  {
    if s != [] {
      assert forall x :: x in s[1..] ==> x in s;
      FilterNone(s[1..], p);
    }
  }

  /** The filter keeps every occurrence of an element that satisfies `p` and none of the others. */
  lemma {:induction false} FilterMultiset<T>(s: seq<T>, p: T -> bool)
    ensures forall x :: multiset(Filter(s, p))[x] == if p(x) then multiset(s)[x] else 0
    decreases |s|
  {
    if s != [] {
      FilterMultiset(s[1..], p);
      assert s == [s[0]] + s[1..];
      assert Filter(s, p) == (if p(s[0]) then [s[0]] else []) + Filter(s[1..], p);
    }
  }

  /** When every element satisfies `p`, the filter returns its input. */
  lemma {:induction false} FilterAll<T>(s: seq<T>, p: T -> bool)
    requires forall x :: x in s ==> p(x)
    ensures Filter(s, p) == s
    decreases |s|
  {
    if s != [] {
      assert forall x :: x in s[1..] ==> x in s;
      FilterAll(s[1..], p);
    }
  }

  /**
   * The distinct keys of `s`, in the order in which each key first occurs:
   * the key order of an object built by assigning `obj[key(x)]` for each `x` in turn.
   */
  function DistinctKeys<T, K(==)>(s: seq<T>, key: T -> K): (r: seq<K>)
    ensures Distinct(r)
    ensures |r| <= |s|
    decreases |s|
  {
    if s == [] then []
    else
      var r0 := DistinctKeys(s[..|s| - 1], key);
      var k := key(s[|s| - 1]);
      if k in r0 then r0 else r0 + [k]
  }

  /** A key is listed iff some element has it. */
  lemma {:induction false} DistinctKeysMembers<T, K>(s: seq<T>, key: T -> K)
    ensures forall i :: 0 <= i < |s| ==> key(s[i]) in DistinctKeys(s, key)
    ensures forall k :: k in DistinctKeys(s, key) ==> exists i :: 0 <= i < |s| && key(s[i]) == k
    decreases |s|
  {
    if s != [] {
      var init := s[..|s| - 1];
      DistinctKeysMembers(init, key);
      assert forall i :: 0 <= i < |init| ==> init[i] == s[i];
    }
  }

  /** Index of the first element with key `k`; `|s|` when there is none. */
  function FirstIndex<T, K(==)>(s: seq<T>, key: T -> K, k: K): (r: nat)
    ensures r <= |s|
    ensures r < |s| ==> key(s[r]) == k
    ensures forall j :: 0 <= j < r ==> key(s[j]) != k
    decreases |s|
  {
    if s == [] then 0 else if key(s[0]) == k then 0 else 1 + FirstIndex(s[1..], key, k)
  }

  lemma {:induction false} FirstIndexSnoc<T, K>(s: seq<T>, x: T, key: T -> K, k: K)
    ensures FirstIndex(s + [x], key, k) ==
      if FirstIndex(s, key, k) < |s| then FirstIndex(s, key, k)
      else if key(x) == k then |s| else |s| + 1
    decreases |s|
  {
    if s == [] {
      assert [x][1..] == [];
    } else {
      assert (s + [x])[1..] == s[1..] + [x];
      FirstIndexSnoc(s[1..], x, key, k);
    }
  }

  lemma FirstIndexAbsent<T, K>(s: seq<T>, key: T -> K, k: K)
    ensures FirstIndex(s, key, k) == |s| <==> forall j :: 0 <= j < |s| ==> key(s[j]) != k
  {
  }

  /** The keys of `s` are listed in the order of their first occurrence in `s`. */
  ghost predicate FirstOccurrenceOrdered<T, K>(s: seq<T>, key: T -> K) {
    forall a, b :: 0 <= a < b < |DistinctKeys(s, key)| ==>
      FirstIndex(s, key, DistinctKeys(s, key)[a]) < FirstIndex(s, key, DistinctKeys(s, key)[b]) < |s|
  }

  /** The keys are listed in the order of their first occurrence in `s`. */
  lemma {:induction false} DistinctKeysFirstOccurrenceOrder<T, K>(s: seq<T>, key: T -> K)
    ensures FirstOccurrenceOrdered(s, key)
    decreases |s|
  {
    if s != [] {
      var init, x := s[..|s| - 1], s[|s| - 1];
      DistinctKeysFirstOccurrenceOrder(init, key);
      FirstOccurrenceOrderSnoc(init, x, key);
      assert s == init + [x];
    }
  }

  /** The inductive step: appending one element keeps the first-occurrence order. */
  lemma FirstOccurrenceOrderSnoc<T, K>(init: seq<T>, x: T, key: T -> K)
    requires FirstOccurrenceOrdered(init, key)
    ensures FirstOccurrenceOrdered(init + [x], key)
  {
    var s := init + [x];
    assert s[..|s| - 1] == init && s[|s| - 1] == x;
    FirstIndicesKept(init, x, key);
    var r0, r := DistinctKeys(init, key), DistinctKeys(s, key);
    if key(x) !in r0 {
      DistinctKeysMembers(init, key);
      FirstIndexAbsent(init, key, key(x));
      FirstIndexSnoc(init, x, key, key(x));
      assert r == r0 + [key(x)];
      forall a, b | 0 <= a < b < |r|
        ensures FirstIndex(s, key, r[a]) < FirstIndex(s, key, r[b]) < |s|
      {
        assert r[a] == r0[a] && r[a] in r0;
        if b < |r0| {
          assert r[b] == r0[b] && r[b] in r0;
        } else {
          assert r[b] == key(x);
        }
      }
    } else {
      assert r == r0;
      forall a, b | 0 <= a < b < |r|
        ensures FirstIndex(s, key, r[a]) < FirstIndex(s, key, r[b]) < |s|
      {
        assert r[a] == r0[a] && r[b] == r0[b];
        assert r[a] in r0 && r[b] in r0;
      }
    }
  }

  /** Appending an element leaves the first index of every key already present unchanged. */
  lemma FirstIndicesKept<T, K>(init: seq<T>, x: T, key: T -> K)
    ensures forall k :: k in DistinctKeys(init, key) ==>
      FirstIndex(init + [x], key, k) == FirstIndex(init, key, k) < |init|
  {
    DistinctKeysMembers(init, key);
    forall k | k in DistinctKeys(init, key)
      ensures FirstIndex(init + [x], key, k) == FirstIndex(init, key, k) < |init|
    {
      var i :| 0 <= i < |init| && key(init[i]) == k;
      FirstIndexSnoc(init, x, key, k);
    }
  }

  /** Index of the last element with key `k`; `-1` when there is none. */
  function LastIndex<T, K(==)>(s: seq<T>, key: T -> K, k: K): (r: int)
    ensures -1 <= r < |s|
    ensures 0 <= r ==> key(s[r]) == k
    ensures forall j :: r < j < |s| ==> key(s[j]) != k
    decreases |s|
  {
    if s == [] then -1
    else if key(s[|s| - 1]) == k then |s| - 1
    else LastIndex(s[..|s| - 1], key, k)
  }

  lemma {:induction false} LastIndexAbsent<T, K>(s: seq<T>, key: T -> K, k: K)
    ensures LastIndex(s, key, k) == -1 <==> forall j :: 0 <= j < |s| ==> key(s[j]) != k
  {
  }
  /** The positions in `s` of the elements `Filter(s, p)` keeps. */
  function FilterIndices<T(==)>(s: seq<T>, p: T -> bool): (r: seq<nat>)
    ensures |r| == |Filter(s, p)|
  {
    IndicesFrom(s, p, 0)
  }

  /** The kept positions of `s`, counted from `base`. */
  function IndicesFrom<T(==)>(s: seq<T>, p: T -> bool, base: nat): (r: seq<nat>)
    ensures |r| == |Filter(s, p)|
    decreases |s|
  {
    if s == [] then [] else (if p(s[0]) then [base] else []) + IndicesFrom(s[1..], p, base + 1)
  }

  lemma {:induction false} IndicesFromAt<T>(s: seq<T>, p: T -> bool, base: nat, i: nat)
    requires i < |Filter(s, p)|
    ensures base <= IndicesFrom(s, p, base)[i] < base + |s|
    ensures s[IndicesFrom(s, p, base)[i] - base] == Filter(s, p)[i]
    decreases |s|
  {
    var r, rest := IndicesFrom(s, p, base), IndicesFrom(s[1..], p, base + 1);
    var f, f' := Filter(s, p), Filter(s[1..], p);
    if p(s[0]) && i == 0 {
      assert f == [s[0]] + f';
      assert r[0] == base;
      assert s[r[i] - base] == s[0] == f[0];
    } else if p(s[0]) {
      assert f == [s[0]] + f' && f[i] == f'[i - 1];
      assert r == [base] + rest && r[i] == rest[i - 1];
      IndicesFromAt(s[1..], p, base + 1, i - 1);
      var k := rest[i - 1] - (base + 1);
      assert r[i] - base == k + 1;
      assert s[r[i] - base] == s[1..][k] == f'[i - 1] == f[i];
    } else {
      assert f == f';
      assert r == rest;
      IndicesFromAt(s[1..], p, base + 1, i);
      var k := rest[i] - (base + 1);
      assert r[i] - base == k + 1;
      assert s[r[i] - base] == s[1..][k] == f'[i] == f[i];
    }
  }

  lemma {:induction false} IndicesFromIncrease<T>(s: seq<T>, p: T -> bool, base: nat, i: nat, j: nat)
    requires i < j < |Filter(s, p)|
    ensures IndicesFrom(s, p, base)[i] < IndicesFrom(s, p, base)[j]
    decreases |s|
  {
    var r, rest := IndicesFrom(s, p, base), IndicesFrom(s[1..], p, base + 1);
    if p(s[0]) {
      assert r[j] == rest[j - 1];
      if i > 0 {
        assert r[i] == rest[i - 1];
        IndicesFromIncrease(s[1..], p, base + 1, i - 1, j - 1);
      } else {
        IndicesFromAtLeast(s[1..], p, base + 1, j - 1);
      }
    } else {
      assert r == rest;
      IndicesFromIncrease(s[1..], p, base + 1, i, j);
    }
  }

  lemma {:induction false} IndicesFromAtLeast<T>(s: seq<T>, p: T -> bool, base: nat, i: nat)
    requires i < |Filter(s, p)|
    ensures IndicesFrom(s, p, base)[i] >= base + i
    decreases |s|
  {
    var r, rest := IndicesFrom(s, p, base), IndicesFrom(s[1..], p, base + 1);
    if p(s[0]) {
      if i > 0 {
        assert r[i] == rest[i - 1];
        IndicesFromAtLeast(s[1..], p, base + 1, i - 1);
      }
    } else {
      assert r == rest;
      IndicesFromAtLeast(s[1..], p, base + 1, i);
    }
  }

  lemma {:induction false} IndicesFromIsOwn<T>(s: seq<T>, p: T -> bool, base: nat, i: nat)
    requires i < |Filter(s, p)|
    ensures IndicesFrom(s, p, base)[i] == base + i <==> forall j :: 0 <= j <= i ==> p(s[j])
    decreases |s|
  {
    var r, rest := IndicesFrom(s, p, base), IndicesFrom(s[1..], p, base + 1);
    if p(s[0]) {
      if i > 0 {
        assert r[i] == rest[i - 1];
        IndicesFromIsOwn(s[1..], p, base + 1, i - 1);
        assert forall j :: 1 <= j <= i ==> s[1..][j - 1] == s[j];
      }
    } else {
      assert r == rest;
      IndicesFromAtLeast(s[1..], p, base + 1, i);
    }
  }

  /** The `i`-th kept element is the element at the `i`-th kept position. */
  lemma FilterIndicesAt<T>(s: seq<T>, p: T -> bool, i: nat)
    requires i < |Filter(s, p)|
    ensures FilterIndices(s, p)[i] < |s|
    ensures s[FilterIndices(s, p)[i]] == Filter(s, p)[i]
  {
    IndicesFromAt(s, p, 0, i);
  }

  /** Kept positions increase. */
  lemma FilterIndicesIncrease<T>(s: seq<T>, p: T -> bool, i: nat, j: nat)
    requires i < j < |Filter(s, p)|
    ensures FilterIndices(s, p)[i] < FilterIndices(s, p)[j]
  {
    IndicesFromIncrease(s, p, 0, i, j);
  }

  /** The `i`-th kept element sits at position `i` exactly when nothing up to it was dropped. */
  lemma FilterIndexIsOwn<T>(s: seq<T>, p: T -> bool, i: nat)
    requires i < |Filter(s, p)|
    ensures FilterIndices(s, p)[i] == i <==> forall j :: 0 <= j <= i ==> p(s[j])
  {
    IndicesFromIsOwn(s, p, 0, i);
  }

  /** Mapping `row` over `Filter(s, p)` gives, at each index, the image of the element at the matching kept position. */
  lemma MappedAtKeptPositions<T, R>(s: seq<T>, p: T -> bool, rows: seq<R>, row: T -> R)
    requires |rows| == |Filter(s, p)|
    requires forall i :: 0 <= i < |rows| ==> rows[i] == row(Filter(s, p)[i])
    ensures forall i :: 0 <= i < |rows| ==>
      FilterIndices(s, p)[i] < |s| && p(s[FilterIndices(s, p)[i]]) &&
      rows[i] == row(s[FilterIndices(s, p)[i]])
  {
    FilterMembers(s, p);
    forall i | 0 <= i < |rows|
      ensures FilterIndices(s, p)[i] < |s| && p(s[FilterIndices(s, p)[i]]) &&
        rows[i] == row(s[FilterIndices(s, p)[i]])
    {
      FilterIndicesAt(s, p, i);
      assert Filter(s, p)[i] in Filter(s, p);
    }
  }
}

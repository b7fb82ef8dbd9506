/**
 * Row selection as pandas performs it: boolean filtering that keeps order,
 * and `drop_duplicates(keep="first")` / `~duplicated()` on a key.
 */
module Seqs {

  /** `[x for x in s if p(x)]`, defined from the right so that appending is one step. */
  function Filter<T>(s: seq<T>, p: T -> bool): (r: seq<T>)
    ensures |r| <= |s|
    ensures forall i :: 0 <= i < |r| ==> r[i] in s && p(r[i])
    ensures forall i :: 0 <= i < |s| && p(s[i]) ==> s[i] in r
    decreases |s|
  {
    if |s| == 0 then []
    else Filter(s[..|s| - 1], p) + (if p(s[|s| - 1]) then [s[|s| - 1]] else [])
  }

  lemma FilterAppend<T>(s: seq<T>, x: T, p: T -> bool)
    ensures Filter(s + [x], p) == Filter(s, p) + (if p(x) then [x] else [])
  {
    assert (s + [x])[..|s + [x]| - 1] == s;
  }

  /** One more element of `s` considered: the filter of the longer prefix. */
  lemma FilterPrefixStep<T>(s: seq<T>, i: int, p: T -> bool)
    requires 0 <= i < |s|
    ensures Filter(s[..i + 1], p) == Filter(s[..i], p) + (if p(s[i]) then [s[i]] else [])
  {
    assert s[..i + 1] == s[..i] + [s[i]];
    FilterAppend(s[..i], s[i], p);
  }

  /** Filtering by a predicate every element meets changes nothing. */
  lemma {:induction false} FilterAll<T>(s: seq<T>, p: T -> bool)
    requires forall x :: x in s ==> p(x)
    ensures Filter(s, p) == s
    decreases |s|
  {
    if |s| > 0 {
      FilterAll(s[..|s| - 1], p);
      assert s[..|s| - 1] + [s[|s| - 1]] == s;
    }
  }

  /** Filtering by a predicate no element meets leaves nothing. */
  lemma {:induction false} FilterNone<T>(s: seq<T>, p: T -> bool)
    requires forall x :: x in s ==> !p(x)
    ensures Filter(s, p) == []
    decreases |s|
  {
    if |s| > 0 {
      FilterNone(s[..|s| - 1], p);
    }
  }

  /** `s[i]` for each `i`: the values of one column, in row order. */
  function Map<T, U>(s: seq<T>, f: T -> U): (r: seq<U>)
    ensures |r| == |s| && forall i :: 0 <= i < |s| ==> r[i] == f(s[i])
  {
    seq(|s|, i requires 0 <= i < |s| => f(s[i]))
  }

  /** Mapping one more element appends its image. */
  lemma MapAppend<T, U>(s: seq<T>, x: T, f: T -> U)
    ensures Map(s + [x], f) == Map(s, f) + [f(x)]
  {
  }

  predicate Distinct<T(==)>(s: seq<T>)
  {
    forall i, j :: 0 <= i < j < |s| ==> s[i] != s[j]
  }

  /** No two elements share a key. */
  predicate DistinctKeys<T, K(==)>(s: seq<T>, key: T -> K)
  {
    forall i, j :: 0 <= i < j < |s| ==> key(s[i]) != key(s[j])
  }

  /** Some element before position `i` has the key of `s[i]`: pandas' `duplicated()`. */
  predicate Duplicated<T, K(==)>(s: seq<T>, key: T -> K, i: int)
    requires 0 <= i < |s|
  {
    exists j :: 0 <= j < i && key(s[j]) == key(s[i])
  }

  /** `s[~duplicated(key)]`: the first element of every key, in input order. */
  function KeepFirst<T, K(==)>(s: seq<T>, key: T -> K): seq<T>
    decreases |s|
  {
    if |s| == 0 then []
    else KeepFirst(s[..|s| - 1], key) + (if Duplicated(s, key, |s| - 1) then [] else [s[|s| - 1]])
  }

  /** `duplicated(key).any()`: some key repeats. */
  predicate AnyDuplicated<T, K(==)>(s: seq<T>, key: T -> K)
  {
    exists i :: 0 <= i < |s| && Duplicated(s, key, i)
  }

  /** `if df.duplicated(key).any(): df = df.drop_duplicates(key)`: keep-first deduplication, run only when a key repeats. */
  function DropDuplicates<T, K(==)>(s: seq<T>, key: T -> K): seq<T>
  {
    if AnyDuplicated(s, key) then KeepFirst(s, key) else s
  }

  predicate HasKey<T, K(==)>(s: seq<T>, key: T -> K, k: K)
  {
    exists i :: 0 <= i < |s| && key(s[i]) == k
  }

  /**
   * Keep-first deduplication: no key repeats, every key of the input survives,
   * nothing is added, and the length never grows.
   */
  lemma {:induction false} KeepFirstProperties<T, K>(s: seq<T>, key: T -> K)
    ensures DistinctKeys(KeepFirst(s, key), key)
    ensures forall k :: HasKey(KeepFirst(s, key), key, k) <==> HasKey(s, key, k)
    ensures forall x :: x in KeepFirst(s, key) ==> x in s
    ensures |KeepFirst(s, key)| <= |s|
    decreases |s|
  {
    if |s| > 0 {
      var n := |s| - 1;
      var init := s[..n];
      var r0 := KeepFirst(init, key);
      KeepFirstProperties(init, key);
      var r := KeepFirst(s, key);
      forall k ensures HasKey(r, key, k) <==> HasKey(s, key, k) {
        if HasKey(s, key, k) {
          var i :| 0 <= i < |s| && key(s[i]) == k;
          if i < n {
            assert key(init[i]) == k;
            assert HasKey(init, key, k);
            var j :| 0 <= j < |r0| && key(r0[j]) == k;
            assert r[j] == r0[j];
          } else if Duplicated(s, key, n) {
            var j0 :| 0 <= j0 < n && key(s[j0]) == key(s[n]);
            assert key(init[j0]) == k;
            assert HasKey(init, key, k);
            var j :| 0 <= j < |r0| && key(r0[j]) == k;
            assert r[j] == r0[j];
          } else {
            assert r[|r| - 1] == s[n];
          }
        }
        if HasKey(r, key, k) {
          var j :| 0 <= j < |r| && key(r[j]) == k;
          if j < |r0| {
            assert r0[j] == r[j];
            assert HasKey(r0, key, k);
            var i :| 0 <= i < |init| && key(init[i]) == k;
            assert s[i] == init[i];
          } else {
            assert r[j] == s[n];
          }
        }
      }
      if !Duplicated(s, key, n) {
        forall j | 0 <= j < |r0| ensures key(r0[j]) != key(s[n]) {
          assert HasKey(r0, key, key(r0[j]));
          var i :| 0 <= i < |init| && key(init[i]) == key(r0[j]);
          assert s[i] == init[i];
        }
      }
      forall x | x in r ensures x in s {
        if x in r0 {
          assert x in init;
        }
      }
    }
  }

  /** An element survives keep-first deduplication exactly when it is the first of its key. */
  lemma {:induction false} KeepFirstKeepsFirsts<T, K>(s: seq<T>, key: T -> K, i: int)
    requires 0 <= i < |s| && !Duplicated(s, key, i)
    ensures s[i] in KeepFirst(s, key)
    decreases |s|
  {
    var n := |s| - 1;
    if i < n {
      var init := s[..n];
      assert !Duplicated(init, key, i);
      KeepFirstKeepsFirsts(init, key, i);
      assert s[i] == init[i];
    }
  }

  /** Every survivor of keep-first deduplication carries the first occurrence of its key. */
  lemma {:induction false} KeepFirstOnlyFirsts<T, K>(s: seq<T>, key: T -> K, x: T)
    requires x in KeepFirst(s, key)
    ensures exists i :: 0 <= i < |s| && s[i] == x && !Duplicated(s, key, i)
    decreases |s|
  {
    var n := |s| - 1;
    var init := s[..n];
    if x in KeepFirst(init, key) {
      KeepFirstOnlyFirsts(init, key, x);
      var i :| 0 <= i < |init| && init[i] == x && !Duplicated(init, key, i);
      assert s[i] == x;
      assert !Duplicated(s, key, i);
    } else {
      assert x == s[n] && !Duplicated(s, key, n);
    }
  }

  /** The position of the first element whose key is `k`, or `|s|` when there is none. */
  function FirstKeyIndex<T, K(==)>(s: seq<T>, key: T -> K, k: K): (i: int)
    ensures 0 <= i <= |s|
    ensures i < |s| ==> key(s[i]) == k
    ensures forall j :: 0 <= j < i ==> key(s[j]) != k
    ensures i == |s| <==> !HasKey(s, key, k)
    decreases |s|
  {
    if |s| == 0 then 0
    else if key(s[0]) == k then 0
    else
      var i := FirstKeyIndex(s[1..], key, k);
      assert forall j :: 1 <= j <= i ==> key(s[j]) == key(s[1..][j - 1]);
      assert HasKey(s[1..], key, k) ==> HasKey(s, key, k) by {
        if HasKey(s[1..], key, k) {
          var j :| 0 <= j < |s[1..]| && key(s[1..][j]) == k;
          assert key(s[j + 1]) == k;
        }
      }
      i + 1
  }

  /** Keep-first deduplication lists the keys in the order of their first occurrence. */
  lemma {:induction false} KeepFirstOrder<T, K>(s: seq<T>, key: T -> K)
    ensures forall a, b :: 0 <= a < b < |KeepFirst(s, key)| ==>
              FirstKeyIndex(s, key, key(KeepFirst(s, key)[a])) < FirstKeyIndex(s, key, key(KeepFirst(s, key)[b]))
    decreases |s|
  {
    if |s| > 0 {
      var n := |s| - 1;
      var init := s[..n];
      var r0 := KeepFirst(init, key);
      var r := KeepFirst(s, key);
      KeepFirstOrder(init, key);
      KeepFirstProperties(init, key);
      forall a | 0 <= a < |r0| ensures FirstKeyIndex(s, key, key(r0[a])) == FirstKeyIndex(init, key, key(r0[a])) < n {
        assert r0[a] in init;
        var j :| 0 <= j < n && init[j] == r0[a];
        assert HasKey(init, key, key(r0[a]));
        FirstKeyIndexPrefix(s, key, n, key(r0[a]));
      }
      if !Duplicated(s, key, n) {
        assert FirstKeyIndex(s, key, key(s[n])) == n;
      }
      forall a, b | 0 <= a < b < |r| ensures FirstKeyIndex(s, key, key(r[a])) < FirstKeyIndex(s, key, key(r[b])) {
        assert r[a] == r0[a];
        if b < |r0| {
          assert r[b] == r0[b];
        } else {
          assert r[b] == s[n];
        }
      }
    }
  }

  /** A key that occurs among the first `n` elements is found at the same place in the prefix. */
  lemma FirstKeyIndexPrefix<T, K>(s: seq<T>, key: T -> K, n: int, k: K)
    requires 0 <= n <= |s| && HasKey(s[..n], key, k)
    ensures FirstKeyIndex(s, key, k) == FirstKeyIndex(s[..n], key, k) < n
  {
    var i := FirstKeyIndex(s[..n], key, k);
    var m := FirstKeyIndex(s, key, k);
    assert key(s[i]) == key(s[..n][i]) == k;
    forall j | 0 <= j < i ensures key(s[j]) != k {
      assert s[j] == s[..n][j];
    }
    assert m == i;
  }

  /** Filtering keeps an order that increases along `f`. */
  lemma {:induction false} FilterIncreasing<T>(s: seq<T>, p: T -> bool, f: T -> int)
    requires forall a, b :: 0 <= a < b < |s| ==> f(s[a]) < f(s[b])
    ensures forall a, b :: 0 <= a < b < |Filter(s, p)| ==> f(Filter(s, p)[a]) < f(Filter(s, p)[b])
    decreases |s|
  {
    if |s| > 0 {
      var n := |s| - 1;
      var init := s[..n];
      FilterIncreasing(init, p, f);
      var r0 := Filter(init, p);
      var r := Filter(s, p);
      assert r == r0 + (if p(s[n]) then [s[n]] else []);
      forall a, b | 0 <= a < b < |r| ensures f(r[a]) < f(r[b]) {
        assert r[a] == r0[a];
        if b < |r0| {
          assert r[b] == r0[b];
          assert f(r0[a]) < f(r0[b]);
        } else {
          assert r[b] == s[n];
          assert r0[a] in init;
          var j :| 0 <= j < n && init[j] == r0[a];
          assert s[j] == r0[a];
          assert f(s[j]) < f(s[n]);
        }
      }
    }
  }

  /** Filtering keeps keys distinct. */
  lemma {:induction false} FilterDistinctKeys<T, K>(s: seq<T>, p: T -> bool, key: T -> K)
    requires DistinctKeys(s, key)
    ensures DistinctKeys(Filter(s, p), key)
    decreases |s|
  {
    if |s| > 0 {
      var init := s[..|s| - 1];
      var last := s[|s| - 1];
      assert DistinctKeys(init, key) by {
        forall i, j | 0 <= i < j < |init| ensures key(init[i]) != key(init[j]) {
          assert init[i] == s[i] && init[j] == s[j];
        }
      }
      FilterDistinctKeys(init, p, key);
      var f := Filter(init, p);
      if p(last) {
        forall i | 0 <= i < |f| ensures key(f[i]) != key(last) {
          assert f[i] in init;
          var k :| 0 <= k < |init| && init[k] == f[i];
          assert s[k] == f[i];
        }
      }
    }
  }

  /** Two sequences whose elements carry the same keys position by position have the same repeats and the same keys. */
  lemma SameKeys<T, U, K>(a: seq<T>, ka: T -> K, b: seq<U>, kb: U -> K)
    requires |a| == |b|
    requires forall i :: 0 <= i < |a| ==> ka(a[i]) == kb(b[i])
    ensures forall i :: 0 <= i < |a| ==> (Duplicated(a, ka, i) <==> Duplicated(b, kb, i))
    ensures forall k :: HasKey(a, ka, k) <==> HasKey(b, kb, k)
  {
    forall i | 0 <= i < |a| ensures Duplicated(a, ka, i) <==> Duplicated(b, kb, i) {
      if Duplicated(b, kb, i) {
        var j :| 0 <= j < i && kb(b[j]) == kb(b[i]);
        assert ka(a[j]) == ka(a[i]);
      }
    }
    forall k ensures HasKey(a, ka, k) <==> HasKey(b, kb, k) {
      if HasKey(b, kb, k) {
        var j :| 0 <= j < |b| && kb(b[j]) == k;
        assert ka(a[j]) == k;
      }
    }
  }

  lemma DistinctConcat<T>(a: seq<T>, b: seq<T>)
    requires Distinct(a) && Distinct(b)
    requires forall j :: 0 <= j < |b| ==> b[j] !in a
    ensures Distinct(a + b)
  {
    forall i, j | 0 <= i < j < |a + b| ensures (a + b)[i] != (a + b)[j] {
      if j >= |a| && i < |a| {
        assert (a + b)[j] == b[j - |a|];
      }
    }
  }

  /** An element occurs at most once in a sequence without repeats. */
  lemma {:induction false} DistinctCounts<T>(s: seq<T>, x: T)
    requires Distinct(s)
    ensures multiset(s)[x] <= 1
    decreases |s|
  {
    if |s| > 0 {
      var n := |s| - 1;
      assert s == s[..n] + [s[n]];
      DistinctCounts(s[..n], x);
      assert s[n] !in s[..n];
    }
  }

  /** A permutation of a sequence without repeats has none. */
  lemma DistinctPermutation<T>(s: seq<T>, r: seq<T>)
    requires Distinct(s) && multiset(r) == multiset(s)
    ensures Distinct(r)
  {
    forall i, j | 0 <= i < j < |r| ensures r[i] != r[j] {
      if r[i] == r[j] {
        assert r == r[..j] + r[j..];
        assert r[i] in r[..j] && r[j] in r[j..];
        assert multiset(r)[r[i]] >= 2;
        DistinctCounts(s, r[i]);
      }
    }
  }

  /** A permutation of a sequence with distinct keys has distinct keys. */
  lemma DistinctKeysPermutation<T, K>(s: seq<T>, r: seq<T>, key: T -> K)
    requires DistinctKeys(s, key) && multiset(r) == multiset(s)
    ensures DistinctKeys(r, key)
  {
    assert Distinct(s);
    DistinctPermutation(s, r);
    forall i, j | 0 <= i < j < |r| ensures key(r[i]) != key(r[j]) {
      assert r[i] in multiset(s) && r[j] in multiset(s);
      var a :| 0 <= a < |s| && s[a] == r[i];
      var b :| 0 <= b < |s| && s[b] == r[j];
    }
  }

  /** How many elements meet `p`: the length of the filtered sequence. */
  function CountWhere<T>(s: seq<T>, p: T -> bool): (n: nat)
    ensures n == |Filter(s, p)|
    ensures n <= |s|
    decreases |s|
  {
    if |s| == 0 then 0 else CountWhere(s[..|s| - 1], p) + (if p(s[|s| - 1]) then 1 else 0)
  }

  /** Filtering the images of `s` keeps as many elements as filtering `s` by the composed test. */
  lemma {:induction false} FilterMapLength<T, U>(s: seq<T>, f: T -> U, p: U -> bool, q: T -> bool)
    requires forall x :: q(x) == p(f(x))
    ensures |Filter(Map(s, f), p)| == |Filter(s, q)|
    decreases |s|
  {
    if |s| > 0 {
      var n := |s| - 1;
      FilterMapLength(s[..n], f, p, q);
      assert Map(s, f)[..n] == Map(s[..n], f);
      assert Map(s, f)[n] == f(s[n]);
    }
  }

  /** Filtering distributes over concatenation. */
  lemma {:induction false} FilterConcat<T>(a: seq<T>, b: seq<T>, p: T -> bool)
    ensures Filter(a + b, p) == Filter(a, p) + Filter(b, p)
    decreases |b|
  {
    if |b| == 0 {
      assert a + b == a;
    } else {
      var n := |b| - 1;
      FilterConcat(a, b[..n], p);
      assert (a + b)[..|a + b| - 1] == a + b[..n];
      assert (a + b)[|a + b| - 1] == b[n];
      var tail := if p(b[n]) then [b[n]] else [];
      calc {
        Filter(a + b, p);
        Filter(a + b[..n], p) + tail;
        (Filter(a, p) + Filter(b[..n], p)) + tail;
        Filter(a, p) + (Filter(b[..n], p) + tail);
      }
    }
  }

  /** A first element that fails `p` is not kept. */
  lemma FilterDropsFirst<T>(s: seq<T>, p: T -> bool)
    requires |s| > 0 && !p(s[0])
    ensures |Filter(s, p)| <= |s| - 1
  {
    assert s == [s[0]] + s[1..];
    FilterConcat([s[0]], s[1..], p);
    assert Filter([s[0]], p) == [] by {
      assert [s[0]][..0] == [];
    }
  }

  /** Keys drawn from `b`, whose keys are drawn from `a`, are drawn from `a`. */
  lemma KeysWithin<T, K>(a: seq<T>, b: seq<T>, c: seq<T>, key: T -> K)
    requires forall i :: 0 <= i < |b| ==> HasKey(a, key, key(b[i]))
    requires forall i :: 0 <= i < |c| ==> HasKey(b, key, key(c[i]))
    ensures forall i :: 0 <= i < |c| ==> HasKey(a, key, key(c[i]))
  {
    forall i | 0 <= i < |c| ensures HasKey(a, key, key(c[i])) {
      var j :| 0 <= j < |b| && key(b[j]) == key(c[i]);
      assert HasKey(a, key, key(b[j]));
    }
  }

  /** The set of keys of the elements of `s`. */
  function Keys<T, K(==,!new)>(s: seq<T>, key: T -> K): (ks: set<K>)
    ensures forall k :: k in ks <==> HasKey(s, key, k)
  {
    set i | 0 <= i < |s| :: key(s[i])
  }

  /** Appending an element adds its key to the keys. */
  lemma KeysAppend<T, K(!new)>(s: seq<T>, x: T, key: T -> K)
    ensures Keys(s + [x], key) == Keys(s, key) + {key(x)}
  {
    var t := s + [x];
    forall k | k in Keys(t, key) ensures k in Keys(s, key) + {key(x)} {
      var i :| 0 <= i < |t| && key(t[i]) == k;
      if i < |s| {
        assert t[i] == s[i];
        assert HasKey(s, key, k);
      }
    }
    forall k | k in Keys(s, key) + {key(x)} ensures k in Keys(t, key) {
      if k == key(x) {
        assert t[|s|] == x;
      } else {
        var i :| 0 <= i < |s| && key(s[i]) == k;
        assert t[i] == s[i];
      }
      assert HasKey(t, key, k);
    }
  }

  /** Elements with pairwise different keys have as many keys as elements. */
  lemma {:induction false} DistinctKeysCount<T, K(!new)>(s: seq<T>, key: T -> K)
    requires DistinctKeys(s, key)
    ensures |Keys(s, key)| == |s|
    decreases |s|
  {
    if |s| > 0 {
      var n := |s| - 1;
      var init := s[..n];
      assert DistinctKeys(init, key) by {
        forall i, j | 0 <= i < j < n ensures key(init[i]) != key(init[j]) {
          assert init[i] == s[i] && init[j] == s[j];
        }
      }
      DistinctKeysCount(init, key);
      assert s == init + [s[n]];
      KeysAppend(init, s[n], key);
      assert key(s[n]) !in Keys(init, key) by {
        forall i | 0 <= i < n ensures key(init[i]) != key(s[n]) {
          assert init[i] == s[i];
        }
      }
    }
  }

  /** Keep-first deduplication leaves one element per distinct key. */
  lemma KeepFirstCount<T, K(!new)>(s: seq<T>, key: T -> K)
    ensures |KeepFirst(s, key)| == |Keys(s, key)|
  {
    KeepFirstProperties(s, key);
    DistinctKeysCount(KeepFirst(s, key), key);
    assert Keys(KeepFirst(s, key), key) == Keys(s, key);
  }

  /**
   * When `r` marks exactly the duplicated positions of `s`, the marked
   * elements and the first occurrences together account for all of `s`.
   */
  lemma {:induction false} DuplicatesCount<T, K, U>(s: seq<T>, key: T -> K, r: seq<U>, p: U -> bool)
    requires |r| == |s|
    requires forall i :: 0 <= i < |s| ==> (p(r[i]) <==> Duplicated(s, key, i))
    ensures |Filter(r, p)| + |KeepFirst(s, key)| == |s|
    decreases |s|
  {
    if |s| > 0 {
      var n := |s| - 1;
      forall i | 0 <= i < n ensures p(r[..n][i]) <==> Duplicated(s[..n], key, i) {
        if Duplicated(s, key, i) {
          var j :| 0 <= j < i && key(s[j]) == key(s[i]);
          assert key(s[..n][j]) == key(s[..n][i]);
        }
        if Duplicated(s[..n], key, i) {
          var j :| 0 <= j < i && key(s[..n][j]) == key(s[..n][i]);
          assert key(s[j]) == key(s[i]);
        }
      }
      DuplicatesCount(s[..n], key, r[..n], p);
    }
  }
}

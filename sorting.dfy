/**
 * `sort_values(by=[...])` on several key columns: pandas sorts with a stable
 * lexicographic sort, so the model is a stable insertion sort on the key cells.
 */
module Sorting {
  import opened Cells
  import opened Seqs

  /** Every row's key is at most the key of every later row. */
  predicate SortedBy<T>(s: seq<T>, key: T -> seq<Cell>)
  {
    forall i, j :: 0 <= i < j < |s| ==> LexLe(key(s[i]), key(s[j]))
  }

  /** Inserts `x` after every element whose key is not greater than its own. */
  function Insert<T>(s: seq<T>, x: T, key: T -> seq<Cell>): (r: seq<T>)
    ensures |r| == |s| + 1
    ensures multiset(r) == multiset(s) + multiset{x}
    decreases |s|
  {
    if |s| == 0 then [x]
    else if LexLe(key(s[|s| - 1]), key(x)) then s + [x]
    else
      var init := s[..|s| - 1];
      assert s == init + [s[|s| - 1]];
      Insert(init, x, key) + [s[|s| - 1]]
  }

  /** Insertion sort on the key: the stable order pandas produces. */
  function SortBy<T>(s: seq<T>, key: T -> seq<Cell>): (r: seq<T>)
    ensures |r| == |s|
    ensures multiset(r) == multiset(s)
    decreases |s|
  {
    if |s| == 0 then []
    else
      var init := s[..|s| - 1];
      assert s == init + [s[|s| - 1]];
      Insert(SortBy(init, key), s[|s| - 1], key)
  }

  lemma {:induction false} InsertSorted<T>(s: seq<T>, x: T, key: T -> seq<Cell>)
    requires SortedBy(s, key)
    ensures SortedBy(Insert(s, x, key), key)
    decreases |s|
  {
    if |s| > 0 {
      var n := |s| - 1;
      var last := s[n];
      if LexLe(key(last), key(x)) {
        var r := s + [x];
        forall i, j | 0 <= i < j < |r| ensures LexLe(key(r[i]), key(r[j])) {
          if j == n + 1 && i < n {
            LexLeTrans(key(s[i]), key(last), key(x));
          }
        }
      } else {
        var init := s[..n];
        assert SortedBy(init, key);
        InsertSorted(init, x, key);
        LexLeTotal(key(last), key(x));
        var r0 := Insert(init, x, key);
        var r := r0 + [last];
        forall i, j | 0 <= i < j < |r| ensures LexLe(key(r[i]), key(r[j])) {
          if j == |r0| {
            assert r[i] in multiset(r0);
            assert r[i] in multiset(init) + multiset{x};
            if r[i] != x {
              assert r[i] in multiset(init);
              var k :| 0 <= k < |init| && init[k] == r[i];
              assert s[k] == r[i];
            }
          }
        }
      }
    }
  }

  /** The sort produces rows in key order. */
  lemma {:induction false} SortBySorted<T>(s: seq<T>, key: T -> seq<Cell>)
    ensures SortedBy(SortBy(s, key), key)
    decreases |s|
  {
    if |s| > 0 {
      SortBySorted(s[..|s| - 1], key);
      InsertSorted(SortBy(s[..|s| - 1], key), s[|s| - 1], key);
    }
  }

  /** Sorting keeps exactly the input rows: the output is a permutation. */
  lemma SortByMembers<T>(s: seq<T>, key: T -> seq<Cell>)
    ensures forall x :: x in SortBy(s, key) <==> x in s
  {
    var r := SortBy(s, key);
    forall x ensures x in r <==> x in s {
      assert x in r <==> x in multiset(r);
      assert x in s <==> x in multiset(s);
    }
  }

  /** In a sorted sequence every earlier element is at most the last one. */
  lemma SortedBelowLast<T>(s: seq<T>, key: T -> seq<Cell>)
    requires SortedBy(s, key) && |s| > 0
    ensures SortedBy(s[..|s| - 1], key)
    ensures forall x :: x in s[..|s| - 1] ==> LexLe(key(x), key(s[|s| - 1]))
  {
    forall x | x in s[..|s| - 1] ensures LexLe(key(x), key(s[|s| - 1])) {
      var k :| 0 <= k < |s| - 1 && s[k] == x;
    }
  }

  /** Appending an element at least as large as every element keeps the order. */
  lemma AppendSorted<T>(f: seq<T>, x: T, key: T -> seq<Cell>)
    requires SortedBy(f, key)
    requires forall y :: y in f ==> LexLe(key(y), key(x))
    ensures SortedBy(f + [x], key)
  {
    var r := f + [x];
    forall i, j | 0 <= i < j < |r| ensures LexLe(key(r[i]), key(r[j])) {
      if j == |f| {
        assert r[i] == f[i];
      }
    }
  }

  /** Appending a block whose elements all have the key `top`, at least every earlier key, keeps the order. */
  lemma AppendBlockSorted<T>(f: seq<T>, b: seq<T>, key: T -> seq<Cell>, top: seq<Cell>)
    requires SortedBy(f, key)
    requires forall i :: 0 <= i < |f| ==> LexLe(key(f[i]), top)
    requires forall i :: 0 <= i < |b| ==> key(b[i]) == top
    ensures SortedBy(f + b, key)
  {
    var r := f + b;
    LexLeTotal(top, top);
    forall i, j | 0 <= i < j < |r| ensures LexLe(key(r[i]), key(r[j])) {
      if j < |f| {
        assert r[i] == f[i] && r[j] == f[j];
      } else if i >= |f| {
        assert r[i] == b[i - |f|] && r[j] == b[j - |f|];
      } else {
        assert r[i] == f[i] && r[j] == b[j - |f|];
      }
    }
  }

  /** Dropping rows keeps the remaining rows in key order. */
  lemma {:induction false} FilterSorted<T>(s: seq<T>, p: T -> bool, key: T -> seq<Cell>)
    requires SortedBy(s, key)
    ensures SortedBy(Filter(s, p), key)
    decreases |s|
  {
    if |s| > 0 {
      var n := |s| - 1;
      var init := s[..n];
      SortedBelowLast(s, key);
      FilterSorted(init, p, key);
      var f := Filter(init, p);
      if p(s[n]) {
        assert Filter(s, p) == f + [s[n]];
        forall y | y in f ensures LexLe(key(y), key(s[n])) {
          var i :| 0 <= i < |f| && f[i] == y;
          assert y in init;
        }
        AppendSorted(f, s[n], key);
      } else {
        assert Filter(s, p) == f;
      }
    }
  }

  /** Rewriting rows without touching their keys keeps them in key order. */
  lemma SameKeysSorted<T>(s: seq<T>, t: seq<T>, key: T -> seq<Cell>)
    requires SortedBy(s, key) && |t| == |s|
    requires forall i :: 0 <= i < |s| ==> key(t[i]) == key(s[i])
    ensures SortedBy(t, key)
  {
  }
}

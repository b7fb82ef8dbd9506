/**
 * `left.merge(right, on=key, how=...)` on one key column, in the row order
 * pandas documents: each left row in turn, followed by its matching right
 * rows in right-table order. `how="left"` keeps a left row that has no match,
 * with the right values missing; `how="inner"` drops it. Keys are compared
 * as cells, so a missing key matches a missing key, as pandas does.
 */
module Joins {
  import opened Wrappers
  import opened Cells
  import opened Seqs
  import opened Sorting

  /** The rows `x` gives with its matching right rows, in right-table order. */
  function Matches<L, R, O>(x: L, right: seq<R>, lk: L -> Cell, rk: R -> Cell, put: (L, Option<R>) -> O): (ms: seq<O>)
    ensures |ms| <= |right|
    decreases |right|
  {
    if |right| == 0 then []
    else
      var n := |right| - 1;
      Matches(x, right[..n], lk, rk, put) + (if rk(right[n]) == lk(x) then [put(x, Some(right[n]))] else [])
  }

  /** The rows a left join gives one left row: its matches, or the row alone with nothing from the right. */
  function JoinOne<L, R, O>(x: L, right: seq<R>, lk: L -> Cell, rk: R -> Cell, put: (L, Option<R>) -> O): (j: seq<O>)
    ensures |j| >= 1
  {
    var ms := Matches(x, right, lk, rk, put);
    if |ms| == 0 then [put(x, None)] else ms
  }

  /** `left.merge(right, how="left")`. */
  function LeftJoin<L, R, O>(left: seq<L>, right: seq<R>, lk: L -> Cell, rk: R -> Cell, put: (L, Option<R>) -> O): (out: seq<O>)
    ensures |out| >= |left|
    decreases |left|
  {
    if |left| == 0 then []
    else
      var n := |left| - 1;
      LeftJoin(left[..n], right, lk, rk, put) + JoinOne(left[n], right, lk, rk, put)
  }

  /** `left.merge(right, how="inner")`. */
  function InnerJoin<L, R, O>(left: seq<L>, right: seq<R>, lk: L -> Cell, rk: R -> Cell, put: (L, Option<R>) -> O): (out: seq<O>)
    decreases |left|
  {
    if |left| == 0 then []
    else
      var n := |left| - 1;
      InnerJoin(left[..n], right, lk, rk, put) + Matches(left[n], right, lk, rk, put)
  }

  /** The last right row whose key is `c`, if any (with distinct keys, the only one). */
  function Lookup<R>(right: seq<R>, rk: R -> Cell, c: Cell): (r: Option<R>)
    ensures r.Some? ==> r.value in right && rk(r.value) == c
    ensures r.None? <==> !HasKey(right, rk, c)
    decreases |right|
  {
    if |right| == 0 then None
    else
      var n := |right| - 1;
      if rk(right[n]) == c then Some(right[n])
      else
        var r := Lookup(right[..n], rk, c);
        assert HasKey(right, rk, c) ==> HasKey(right[..n], rk, c) by {
          if HasKey(right, rk, c) {
            var j :| 0 <= j < |right| && rk(right[j]) == c;
            assert right[..n][j] == right[j];
          }
        }
        assert HasKey(right[..n], rk, c) ==> HasKey(right, rk, c) by {
          if HasKey(right[..n], rk, c) {
            var j :| 0 <= j < n && rk(right[..n][j]) == c;
            assert right[j] == right[..n][j];
          }
        }
        r
  }

  // ---------------------------------------------------------------------------
  // Matches

  /**
   * The matches of `x`, as a reference definition: the right rows with its
   * key, kept in right-table order, each put together with `x`.
   */
  lemma {:induction false} MatchesFiltered<L, R, O>(x: L, right: seq<R>, lk: L -> Cell, rk: R -> Cell, put: (L, Option<R>) -> O)
    ensures Matches(x, right, lk, rk, put) == Map(Filter(right, (r: R) => rk(r) == lk(x)), (r: R) => put(x, Some(r)))
    decreases |right|
  {
    if |right| > 0 {
      var n := |right| - 1;
      var same := (r: R) => rk(r) == lk(x);
      var pair := (r: R) => put(x, Some(r));
      MatchesFiltered(x, right[..n], lk, rk, put);
      var before := Filter(right[..n], same);
      var last := if same(right[n]) then [right[n]] else [];
      assert Filter(right, same) == before + last;
      assert Map(before + last, pair) == Map(before, pair) + Map(last, pair);
    }
  }

  /** Each right row with the key of `x` gives a match. */
  lemma MatchesComplete<L, R, O>(x: L, right: seq<R>, lk: L -> Cell, rk: R -> Cell, put: (L, Option<R>) -> O)
    ensures forall j :: 0 <= j < |right| && rk(right[j]) == lk(x) ==> put(x, Some(right[j])) in Matches(x, right, lk, rk, put)
  {
    var same := (r: R) => rk(r) == lk(x);
    var filtered := Filter(right, same);
    MatchesFiltered(x, right, lk, rk, put);
    forall j | 0 <= j < |right| && rk(right[j]) == lk(x) ensures put(x, Some(right[j])) in Matches(x, right, lk, rk, put) {
      assert same(right[j]);
      var k :| 0 <= k < |filtered| && filtered[k] == right[j];
      assert Matches(x, right, lk, rk, put)[k] == put(x, Some(right[j]));
    }
  }

  /**
   * Every match is the left row put together with a right row of the same
   * key, and every right row of that key gives a match.
   */
  lemma {:induction false} MatchesCells<L, R, O>(x: L, right: seq<R>, lk: L -> Cell, rk: R -> Cell, put: (L, Option<R>) -> O)
    ensures forall k :: 0 <= k < |Matches(x, right, lk, rk, put)| ==>
              exists j :: 0 <= j < |right| && rk(right[j]) == lk(x) && Matches(x, right, lk, rk, put)[k] == put(x, Some(right[j]))
    ensures forall j :: 0 <= j < |right| && rk(right[j]) == lk(x) ==> put(x, Some(right[j])) in Matches(x, right, lk, rk, put)
    ensures |Matches(x, right, lk, rk, put)| == 0 <==> !HasKey(right, rk, lk(x))
    decreases |right|
  {
    MatchesComplete(x, right, lk, rk, put);
    if |right| > 0 {
      var n := |right| - 1;
      var init := right[..n];
      MatchesCells(x, init, lk, rk, put);
      var m0 := Matches(x, init, lk, rk, put);
      var ms := Matches(x, right, lk, rk, put);
      forall k | 0 <= k < |ms| ensures exists j :: 0 <= j < |right| && rk(right[j]) == lk(x) && ms[k] == put(x, Some(right[j])) {
        if k < |m0| {
          var j :| 0 <= j < |init| && rk(init[j]) == lk(x) && m0[k] == put(x, Some(init[j]));
          assert right[j] == init[j];
        } else {
          assert ms[k] == put(x, Some(right[n]));
        }
      }
      if HasKey(right, rk, lk(x)) && rk(right[n]) != lk(x) {
        var j :| 0 <= j < |right| && rk(right[j]) == lk(x);
        assert init[j] == right[j];
      }
      if HasKey(init, rk, lk(x)) {
        var j :| 0 <= j < |init| && rk(init[j]) == lk(x);
        assert init[j] == right[j];
      }
    } else {
      assert Matches(x, right, lk, rk, put) == [];
    }
  }

  /** A left row has no match exactly when the right table lacks its key. */
  lemma MatchesNone<L, R, O>(x: L, right: seq<R>, lk: L -> Cell, rk: R -> Cell, put: (L, Option<R>) -> O)
    ensures |Matches(x, right, lk, rk, put)| == 0 <==> !HasKey(right, rk, lk(x))
  {
    MatchesCells(x, right, lk, rk, put);
  }

  /** With at most one right row per key, the matches are the one looked-up row, or none. */
  lemma {:induction false} MatchesUnique<L, R, O>(x: L, right: seq<R>, lk: L -> Cell, rk: R -> Cell, put: (L, Option<R>) -> O)
    requires DistinctKeys(right, rk)
    ensures var r := Lookup(right, rk, lk(x));
            Matches(x, right, lk, rk, put) == if r.Some? then [put(x, r)] else []
    decreases |right|
  {
    if |right| > 0 {
      var n := |right| - 1;
      var init := right[..n];
      assert DistinctKeys(init, rk);
      MatchesUnique(x, init, lk, rk, put);
      if rk(right[n]) == lk(x) {
        MatchesCells(x, init, lk, rk, put);
      }
    }
  }

  // ---------------------------------------------------------------------------
  // Left joins

  lemma LeftJoinStep<L, R, O>(left: seq<L>, right: seq<R>, lk: L -> Cell, rk: R -> Cell, put: (L, Option<R>) -> O)
    requires |left| > 0
    ensures LeftJoin(left, right, lk, rk, put) == LeftJoin(left[..|left| - 1], right, lk, rk, put) + JoinOne(left[|left| - 1], right, lk, rk, put)
  {
  }

  /** Joining the first `m` left rows gives a prefix of the whole join. */
  lemma {:induction false} LeftJoinPrefix<L, R, O>(left: seq<L>, right: seq<R>, lk: L -> Cell, rk: R -> Cell, put: (L, Option<R>) -> O, m: int)
    requires 0 <= m <= |left|
    ensures LeftJoin(left[..m], right, lk, rk, put) <= LeftJoin(left, right, lk, rk, put)
    decreases |left|
  {
    if m < |left| {
      var init := left[..|left| - 1];
      assert init[..m] == left[..m];
      LeftJoinPrefix(init, right, lk, rk, put, m);
      LeftJoinStep(left, right, lk, rk, put);
    } else {
      assert left[..m] == left;
    }
  }

  /**
   * No left row is lost: the rows of left row `i` follow those of the
   * earlier rows, starting at position `|LeftJoin(left[..i])|`.
   */
  lemma LeftJoinAt<L, R, O>(left: seq<L>, right: seq<R>, lk: L -> Cell, rk: R -> Cell, put: (L, Option<R>) -> O, i: int)
    requires 0 <= i < |left|
    ensures var start := |LeftJoin(left[..i], right, lk, rk, put)|;
            var block := JoinOne(left[i], right, lk, rk, put);
            start + |block| <= |LeftJoin(left, right, lk, rk, put)|
            && LeftJoin(left, right, lk, rk, put)[start..start + |block|] == block
  {
    var p := left[..i + 1];
    var out := LeftJoin(left, right, lk, rk, put);
    var before := LeftJoin(left[..i], right, lk, rk, put);
    var block := JoinOne(left[i], right, lk, rk, put);
    LeftJoinPrefix(left, right, lk, rk, put, i + 1);
    LeftJoinStep(p, right, lk, rk, put);
    assert p[..i] == left[..i] && p[i] == left[i];
    assert LeftJoin(p, right, lk, rk, put) == before + block;
    BlockOfPrefix(out, before, block);
  }

  /** When `before + block` is a prefix of `s`, `block` sits in `s` right after `before`. */
  lemma BlockOfPrefix<O>(s: seq<O>, before: seq<O>, block: seq<O>)
    requires before + block <= s
    ensures |before| + |block| <= |s| && s[|before|..|before| + |block|] == block
  {
    assert s[..|before| + |block|] == before + block;
    assert s[|before|..|before| + |block|] == (before + block)[|before|..];
  }

  /**
   * Nothing is added: a property every row given by every left row has, every
   * row of the left join has.
   */
  lemma {:induction false} LeftJoinAll<L, R, O>(left: seq<L>, right: seq<R>, lk: L -> Cell, rk: R -> Cell, put: (L, Option<R>) -> O, p: O -> bool)
    requires forall i, m :: 0 <= i < |left| && 0 <= m < |JoinOne(left[i], right, lk, rk, put)| ==> p(JoinOne(left[i], right, lk, rk, put)[m])
    ensures forall k :: 0 <= k < |LeftJoin(left, right, lk, rk, put)| ==> p(LeftJoin(left, right, lk, rk, put)[k])
    decreases |left|
  {
    if |left| > 0 {
      var n := |left| - 1;
      var init := left[..n];
      forall i, m | 0 <= i < |init| && 0 <= m < |JoinOne(init[i], right, lk, rk, put)|
        ensures p(JoinOne(init[i], right, lk, rk, put)[m])
      {
        assert init[i] == left[i];
      }
      LeftJoinAll(init, right, lk, rk, put, p);
      var o0 := LeftJoin(init, right, lk, rk, put);
      var j := JoinOne(left[n], right, lk, rk, put);
      var out := LeftJoin(left, right, lk, rk, put);
      LeftJoinStep(left, right, lk, rk, put);
      assert out == o0 + j;
      forall k | 0 <= k < |out| ensures p(out[k]) {
        if k < |o0| {
          assert out[k] == o0[k];
        } else {
          assert out[k] == j[k - |o0|];
        }
      }
    } else {
      assert LeftJoin(left, right, lk, rk, put) == [];
    }
  }

  /**
   * With at most one right row per key, a left join keeps the left rows one
   * for one, in order, each put together with the right row of its key.
   */
  lemma {:induction false} LeftJoinUnique<L, R, O>(left: seq<L>, right: seq<R>, lk: L -> Cell, rk: R -> Cell, put: (L, Option<R>) -> O)
    requires DistinctKeys(right, rk)
    ensures |LeftJoin(left, right, lk, rk, put)| == |left|
    ensures forall i :: 0 <= i < |left| ==> LeftJoin(left, right, lk, rk, put)[i] == put(left[i], Lookup(right, rk, lk(left[i])))
    decreases |left|
  {
    if |left| > 0 {
      var n := |left| - 1;
      var init := left[..n];
      LeftJoinUnique(init, right, lk, rk, put);
      MatchesUnique(left[n], right, lk, rk, put);
      LeftJoinStep(left, right, lk, rk, put);
      var o0 := LeftJoin(init, right, lk, rk, put);
      var out := LeftJoin(left, right, lk, rk, put);
      var last := put(left[n], Lookup(right, rk, lk(left[n])));
      assert JoinOne(left[n], right, lk, rk, put) == [last];
      assert out == o0 + [last];
      forall i | 0 <= i < |left| ensures out[i] == put(left[i], Lookup(right, rk, lk(left[i]))) {
        if i < n {
          assert out[i] == o0[i] && left[i] == init[i];
        } else {
          assert out[i] == last;
        }
      }
    } else {
      assert LeftJoin(left, right, lk, rk, put) == [];
    }
  }

  /** The rows each left row gives all carry that left row's sort key. */
  ghost predicate KeepsKey<L, R, O>(left: seq<L>, right: seq<R>, lk: L -> Cell, rk: R -> Cell, put: (L, Option<R>) -> O,
                              sk: L -> seq<Cell>, ok: O -> seq<Cell>)
  {
    forall i, m :: 0 <= i < |left| && 0 <= m < |JoinOne(left[i], right, lk, rk, put)| ==> ok(JoinOne(left[i], right, lk, rk, put)[m]) == sk(left[i])
  }

  /**
   * A left join keeps the order of a sorted left table when each output row
   * has the sort key of the left row that gives it.
   */
  lemma {:induction false} LeftJoinSorted<L, R, O>(left: seq<L>, right: seq<R>, lk: L -> Cell, rk: R -> Cell, put: (L, Option<R>) -> O,
                                                   sk: L -> seq<Cell>, ok: O -> seq<Cell>)
    requires SortedBy(left, sk)
    requires KeepsKey(left, right, lk, rk, put, sk, ok)
    ensures SortedBy(LeftJoin(left, right, lk, rk, put), ok)
    decreases |left|
  {
    if |left| > 0 {
      var n := |left| - 1;
      var init := left[..n];
      assert KeepsKey(init, right, lk, rk, put, sk, ok) by {
        forall i, m | 0 <= i < |init| && 0 <= m < |JoinOne(init[i], right, lk, rk, put)| ensures ok(JoinOne(init[i], right, lk, rk, put)[m]) == sk(init[i]) {
          assert init[i] == left[i];
        }
      }
      LeftJoinSorted(init, right, lk, rk, put, sk, ok);
      var upTo := (o: O) => LexLe(ok(o), sk(left[n]));
      forall i, m | 0 <= i < |init| && 0 <= m < |JoinOne(init[i], right, lk, rk, put)| ensures upTo(JoinOne(init[i], right, lk, rk, put)[m]) {
        assert init[i] == left[i];
      }
      LeftJoinAll(init, right, lk, rk, put, upTo);
      var o0 := LeftJoin(init, right, lk, rk, put);
      var j := JoinOne(left[n], right, lk, rk, put);
      LeftJoinStep(left, right, lk, rk, put);
      assert forall y :: 0 <= y < |j| ==> ok(j[y]) == sk(left[n]);
      assert forall x :: 0 <= x < |o0| ==> upTo(o0[x]);
      AppendBlockSorted(o0, j, ok, sk(left[n]));
    }
  }

  // ---------------------------------------------------------------------------
  // Inner joins

  lemma InnerJoinStep<L, R, O>(left: seq<L>, right: seq<R>, lk: L -> Cell, rk: R -> Cell, put: (L, Option<R>) -> O)
    requires |left| > 0
    ensures InnerJoin(left, right, lk, rk, put) == InnerJoin(left[..|left| - 1], right, lk, rk, put) + Matches(left[|left| - 1], right, lk, rk, put)
  {
  }

  /** Every row of an inner join is a left row put together with a right row of the same key. */
  lemma {:induction false} InnerJoinFrom<L, R, O>(left: seq<L>, right: seq<R>, lk: L -> Cell, rk: R -> Cell, put: (L, Option<R>) -> O)
    ensures forall k :: 0 <= k < |InnerJoin(left, right, lk, rk, put)| ==>
              exists i, j :: 0 <= i < |left| && 0 <= j < |right| && rk(right[j]) == lk(left[i])
                             && InnerJoin(left, right, lk, rk, put)[k] == put(left[i], Some(right[j]))
    decreases |left|
  {
    if |left| > 0 {
      var n := |left| - 1;
      var init := left[..n];
      InnerJoinFrom(init, right, lk, rk, put);
      MatchesCells(left[n], right, lk, rk, put);
      var o0 := InnerJoin(init, right, lk, rk, put);
      var ms := Matches(left[n], right, lk, rk, put);
      var out := InnerJoin(left, right, lk, rk, put);
      InnerJoinStep(left, right, lk, rk, put);
      forall k | 0 <= k < |out| ensures exists i, j :: 0 <= i < |left| && 0 <= j < |right| && rk(right[j]) == lk(left[i])
                                                       && out[k] == put(left[i], Some(right[j])) {
        if k < |o0| {
          var i, j :| 0 <= i < |init| && 0 <= j < |right| && rk(right[j]) == lk(init[i]) && o0[k] == put(init[i], Some(right[j]));
          assert left[i] == init[i] && out[k] == o0[k];
        } else {
          assert out[k] == ms[k - |o0|];
          var j :| 0 <= j < |right| && rk(right[j]) == lk(left[n]) && ms[k - |o0|] == put(left[n], Some(right[j]));
        }
      }
    } else {
      assert InnerJoin(left, right, lk, rk, put) == [];
    }
  }

  /** Joining the first `m` left rows gives a prefix of the whole inner join. */
  lemma {:induction false} InnerJoinPrefix<L, R, O>(left: seq<L>, right: seq<R>, lk: L -> Cell, rk: R -> Cell, put: (L, Option<R>) -> O, m: int)
    requires 0 <= m <= |left|
    ensures InnerJoin(left[..m], right, lk, rk, put) <= InnerJoin(left, right, lk, rk, put)
    decreases |left|
  {
    if m < |left| {
      var init := left[..|left| - 1];
      assert init[..m] == left[..m];
      InnerJoinPrefix(init, right, lk, rk, put, m);
      InnerJoinStep(left, right, lk, rk, put);
    } else {
      assert left[..m] == left;
    }
  }

  /** A left row whose key the right table has keeps all its matches in the inner join. */
  lemma InnerJoinAt<L, R, O>(left: seq<L>, right: seq<R>, lk: L -> Cell, rk: R -> Cell, put: (L, Option<R>) -> O, i: int)
    requires 0 <= i < |left|
    ensures var start := |InnerJoin(left[..i], right, lk, rk, put)|;
            var block := Matches(left[i], right, lk, rk, put);
            start + |block| <= |InnerJoin(left, right, lk, rk, put)|
            && InnerJoin(left, right, lk, rk, put)[start..start + |block|] == block
  {
    var p := left[..i + 1];
    InnerJoinPrefix(left, right, lk, rk, put, i + 1);
    InnerJoinStep(p, right, lk, rk, put);
    assert p[..i] == left[..i];
  }

  /** An inner join is empty exactly when no left key is a right key. */
  lemma {:induction false} InnerJoinEmpty<L, R, O>(left: seq<L>, right: seq<R>, lk: L -> Cell, rk: R -> Cell, put: (L, Option<R>) -> O)
    ensures |InnerJoin(left, right, lk, rk, put)| == 0 <==> forall i :: 0 <= i < |left| ==> !HasKey(right, rk, lk(left[i]))
    decreases |left|
  {
    if |left| > 0 {
      var n := |left| - 1;
      var init := left[..n];
      InnerJoinEmpty(init, right, lk, rk, put);
      MatchesNone(left[n], right, lk, rk, put);
      InnerJoinStep(left, right, lk, rk, put);
      assert forall i :: 0 <= i < n ==> init[i] == left[i];
    }
  }
}

/**
 * What the price cleaning step guarantees: the window it keeps, the columns
 * it treats as prices, the 10% missing-data rule and its consequence for a
 * calendar-day window, the reach of the forward fill, and the shape of the
 * rows each branch returns.
 */
module PriceProperties {
  import opened Wrappers
  import opened Cells
  import opened Text
  import opened Seqs
  import opened Columns
  import opened Frames
  import opened Sorting
  import opened CleanPrices
  import opened Tickers

  // ---------------------------------------------------------------------------
  // Window, columns and format

  /** Both branches start from exactly the rows dated inside the window, in date order. */
  lemma WindowedRows(f: Frame, start: int, end: int)
    ensures var d := DateColumn(f.columns);
            var w := Windowed(f, start, end);
            SortedBy(w, DateKey(d)) && |w| <= |f.rows|
            && forall row :: row in w <==> row in f.rows && InWindow(row, d, start, end)
  {
    var d := DateColumn(f.columns);
    var kept := WindowRows(f.rows, d, start, end);
    SortBySorted(kept, DateKey(d));
    SortByMembers(kept, DateKey(d));
  }

  /** With distinct names, the positions of the names that pass `p` are the positions whose name passes it. */
  lemma IndicesOfFiltered(columns: seq<string>, p: string -> bool)
    requires Distinct(columns)
    ensures forall k :: k in IndicesOf(columns, Filter(columns, p)) <==> 0 <= k < |columns| && p(columns[k])
  {
    var names := Filter(columns, p);
    var ks := IndicesOf(columns, names);
    forall k ensures k in ks <==> 0 <= k < |columns| && p(columns[k]) {
      if k in ks {
        var j :| 0 <= j < |names| && ks[j] == k;
        assert names[j] in columns && p(names[j]);
      }
      if 0 <= k < |columns| && p(columns[k]) {
        var j :| 0 <= j < |names| && names[j] == columns[k];
        assert IndexOf(columns, columns[k]) == k;
        assert ks[j] == k;
      }
    }
  }

  /** In a table with distinct names, the price columns are exactly the ones whose name mentions a price, the date column aside. */
  lemma PriceColumnsSelected(columns: seq<string>)
    requires Distinct(columns)
    ensures forall k :: k in PriceColumns(columns) <==>
              0 <= k < |columns| && MentionsPrice(columns[k]) && k != DateColumn(columns)
  {
    var d := DateColumn(columns);
    var dateName := if 0 <= d < |columns| then columns[d] else "";
    IndicesOfFiltered(columns, PriceTest(dateName));
    assert !MentionsPrice("") by {
      assert Lower("") == "";
    }
    forall k | 0 <= k < |columns|
      ensures PriceTest(dateName)(columns[k]) <==> MentionsPrice(columns[k]) && k != d
    {
    }
  }

  /** A name with none of the letters o, h, w, a, p and l mentions no price ("Ticker"). */
  lemma NoPriceWithoutL(name: string)
    requires forall i :: 0 <= i < |name| ==> name[i] !in "oOhHwWaApPlL"
    ensures !MentionsPrice(name)
  {
    var l := Lower(name);
    assert forall i :: 0 <= i < |l| ==> l[i] !in "ohwapl";
    if Contains(l, "open") { ContainsChars(l, "open", 0); }
    if Contains(l, "high") { ContainsChars(l, "high", 0); }
    if Contains(l, "low") { ContainsChars(l, "low", 1); }
    if Contains(l, "close") { ContainsChars(l, "close", 1); }
    if Contains(l, "adj") { ContainsChars(l, "adj", 0); }
    if Contains(l, "price") { ContainsChars(l, "price", 0); }
  }

  /** A name with none of the letters p, h, w, c and a mentions no price ("Symbol"). */
  lemma NoPriceWithoutC(name: string)
    requires forall i :: 0 <= i < |name| ==> name[i] !in "pPhHwWcCaA"
    ensures !MentionsPrice(name)
  {
    var l := Lower(name);
    assert forall i :: 0 <= i < |l| ==> l[i] !in "phwca";
    if Contains(l, "open") { ContainsChars(l, "open", 1); }
    if Contains(l, "high") { ContainsChars(l, "high", 0); }
    if Contains(l, "low") { ContainsChars(l, "low", 2); }
    if Contains(l, "close") { ContainsChars(l, "close", 0); }
    if Contains(l, "adj") { ContainsChars(l, "adj", 0); }
    if Contains(l, "price") { ContainsChars(l, "price", 0); }
  }

  /** Neither ticker alias mentions a price. */
  lemma TickerNamesNoPrice()
    ensures forall c :: c in LongTickerCandidates ==> !MentionsPrice(c)
  {
    forall c | c in LongTickerCandidates ensures !MentionsPrice(c) {
      if c == "Ticker" { NoPriceWithoutL(c); } else { NoPriceWithoutC(c); }
    }
  }

  /** A column picked by name as something other than a price is not among the price columns. */
  lemma NotPriceColumn(columns: seq<string>, name: string)
    requires name in columns
    requires !MentionsPrice(name) || name == (if 0 <= DateColumn(columns) < |columns| then columns[DateColumn(columns)] else "")
    ensures IndexOf(columns, name) !in PriceColumns(columns)
  {
    var d := DateColumn(columns);
    var dateName := if 0 <= d < |columns| then columns[d] else "";
    var names := Filter(columns, PriceTest(dateName));
  }

  /**
   * In long format neither the ticker column nor the date column is a price
   * column, so the fill and the dropna leave both untouched.
   */
  lemma KeyColumnsNotPrices(columns: seq<string>)
    requires IsLong(columns)
    ensures 0 <= LongTickerColumn(columns) < |columns|
    ensures LongTickerColumn(columns) !in PriceColumns(columns)
    ensures DateColumn(columns) !in PriceColumns(columns)
  {
    TickerNamesNoPrice();
    assert "Ticker" in LongTickerCandidates && "Symbol" in LongTickerCandidates;
    NotPriceColumn(columns, if "Ticker" in columns then "Ticker" else "Symbol");
    var d := DateColumn(columns);
    if 0 <= d < |columns| {
      NotPriceColumn(columns, columns[d]);
    }
  }

  // ---------------------------------------------------------------------------
  // The 10% rule

  /** Over a window of positive length, more than 10% missing means fewer than 90% of the days present. */
  lemma MissingPctThreshold(actual: nat, expected: int)
    requires expected > 0
    ensures MissingPct(actual, expected) > 10.0 <==> 10 * actual < 9 * expected
  {
    var e := expected as real;
    var a := actual as real;
    var q := (e - a) / e;
    assert q * e == e - a;
    assert MissingPct(actual, expected) == q * 100.0;
    ScaleByPositive(q, 0.1, e);
    assert (10 * actual < 9 * expected) == (10.0 * a < 9.0 * e);
  }

  lemma ScaleByPositive(x: real, y: real, e: real)
    requires e > 0.0
    ensures x > y <==> x * e > y * e
  {
  }

  // ---------------------------------------------------------------------------
  // Calendar days against trading days

  /** Day numbers count from 1970-01-01, a Thursday; Monday to Friday are weekdays. */
  predicate IsWeekday(day: int)
  {
    (day + 3) % 7 < 5
  }

  /** The number of weekdays from `start` to `end`, both included. */
  function WeekdaysIn(start: int, end: int): nat
    decreases end - start
  {
    if end < start then 0 else WeekdaysIn(start, end - 1) + (if IsWeekday(end) then 1 else 0)
  }

  lemma {:induction false} WeekdaysSplit(a: int, b: int, c: int)
    requires a - 1 <= b <= c
    ensures WeekdaysIn(a, c) == WeekdaysIn(a, b) + WeekdaysIn(b + 1, c)
    decreases c - b
  {
    if b < c {
      WeekdaysSplit(a, b, c - 1);
    }
  }

  /** Any seven consecutive days hold exactly five weekdays. */
  lemma WeekOfWeekdays(a: int)
    ensures WeekdaysIn(a, a + 6) == 5
  {
    var m := (a + 3) % 7;
    var q := (a + 3) / 7;
    assert a + 3 == 7 * q + m;
    forall j | a <= j < a + 7
      ensures IsWeekday(j) == ((if m + j - a < 7 then m + j - a else m + j - a - 7) < 5)
    {
      if m + j - a < 7 {
        assert j + 3 == 7 * q + (m + j - a);
      } else {
        assert j + 3 == 7 * (q + 1) + (m + j - a - 7);
      }
    }
    assert WeekdaysIn(a, a) == (if IsWeekday(a) then 1 else 0);
    assert WeekdaysIn(a, a + 1) == WeekdaysIn(a, a) + (if IsWeekday(a + 1) then 1 else 0);
    assert WeekdaysIn(a, a + 2) == WeekdaysIn(a, a + 1) + (if IsWeekday(a + 2) then 1 else 0);
    assert WeekdaysIn(a, a + 3) == WeekdaysIn(a, a + 2) + (if IsWeekday(a + 3) then 1 else 0);
    assert WeekdaysIn(a, a + 4) == WeekdaysIn(a, a + 3) + (if IsWeekday(a + 4) then 1 else 0);
    assert WeekdaysIn(a, a + 5) == WeekdaysIn(a, a + 4) + (if IsWeekday(a + 5) then 1 else 0);
  }

  /** A window of `n` calendar days holds at most five weekdays per started week. */
  lemma {:induction false} WeekdaysAtMost(a: int, c: int)
    requires a <= c
    ensures WeekdaysIn(a, c) <= 5 * ((c - a + 7) / 7)
    decreases c - a
  {
    WeekOfWeekdays(a);
    if c - a < 7 {
      WeekdaysSplit(a, c, a + 6);
    } else {
      WeekdaysSplit(a, a + 6, c);
      WeekdaysAtMost(a + 7, c);
      assert (c - a + 7) / 7 == (c - (a + 7) + 7) / 7 + 1;
    }
  }

  /** Distinct weekdays of a window are no more than its weekdays. */
  lemma {:induction false} WeekdaySetBound(days: set<int>, start: int, end: int)
    requires forall y :: y in days ==> start <= y <= end && IsWeekday(y)
    ensures |days| <= WeekdaysIn(start, end)
    decreases end - start
  {
    if end < start {
      assert forall y :: y !in days;
      assert days == {};
    } else {
      var rest := days - {end};
      WeekdaySetBound(rest, start, end - 1);
      if end in days {
        assert days == rest + {end};
      } else {
        assert days == rest;
      }
    }
  }

  /** The dates on the rows of ticker `x`. */
  function DatesOf(rows: seq<seq<Cell>>, t: int, d: int, x: Cell): (days: set<int>)
    ensures forall y :: y in days ==> exists i :: 0 <= i < |rows| && At(rows[i], t) == x && At(rows[i], d) == Day(y)
    decreases |rows|
  {
    if |rows| == 0 then {}
    else
      var last := rows[|rows| - 1];
      var before := DatesOf(rows[..|rows| - 1], t, d, x);
      assert forall y :: y in before ==> exists i :: 0 <= i < |rows| && At(rows[i], t) == x && At(rows[i], d) == Day(y) by {
        forall y | y in before ensures exists i :: 0 <= i < |rows| && At(rows[i], t) == x && At(rows[i], d) == Day(y) {
          var i :| 0 <= i < |rows| - 1 && At(rows[..|rows| - 1][i], t) == x && At(rows[..|rows| - 1][i], d) == Day(y);
          assert rows[..|rows| - 1][i] == rows[i];
        }
      }
      before + if At(last, t) == x && At(last, d).Day? then {At(last, d).d} else {}
  }

  /** One row per date: the rows of ticker `x` carry pairwise distinct dates. */
  predicate OneRowPerDate(rows: seq<seq<Cell>>, t: int, d: int, x: Cell)
  {
    forall i, j :: 0 <= i < j < |rows| && At(rows[i], t) == x && At(rows[j], t) == x ==> At(rows[i], d) != At(rows[j], d)
  }

  /** Dropping the last row keeps one row per date, and its date is not among the earlier ones. */
  lemma LastDateIsNew(rows: seq<seq<Cell>>, t: int, d: int, x: Cell)
    requires |rows| > 0 && OneRowPerDate(rows, t, d, x)
    ensures OneRowPerDate(rows[..|rows| - 1], t, d, x)
    ensures At(rows[|rows| - 1], t) == x && At(rows[|rows| - 1], d).Day? ==>
              At(rows[|rows| - 1], d).d !in DatesOf(rows[..|rows| - 1], t, d, x)
  {
    var init := rows[..|rows| - 1];
    assert forall i :: 0 <= i < |init| ==> init[i] == rows[i];
  }

  /** With one dated row per date, a ticker has as many rows as distinct dates. */
  lemma {:induction false} DaysAreDates(rows: seq<seq<Cell>>, t: int, d: int, x: Cell)
    requires !x.Null? && OneRowPerDate(rows, t, d, x)
    requires forall row :: row in rows && At(row, t) == x ==> At(row, d).Day?
    ensures Days(rows, t, x) == |DatesOf(rows, t, d, x)|
    decreases |rows|
  {
    if |rows| > 0 {
      var init := rows[..|rows| - 1];
      LastDateIsNew(rows, t, d, x);
      assert forall row :: row in init ==> row in rows;
      DaysAreDates(init, t, d, x);
    }
  }

  /**
   * Over a window of at least 27 calendar days, a ticker with one row per
   * date, all on weekdays, has fewer than 90% of the calendar days.
   */
  lemma WeekdayTickerShort(w: seq<seq<Cell>>, t: int, d: int, start: int, end: int, x: Cell)
    requires ExpectedDays(start, end) >= 27
    requires OneRowPerDate(w, t, d, x)
    requires forall row :: row in w && At(row, t) == x ==> At(row, d).Day? && start <= At(row, d).d <= end && IsWeekday(At(row, d).d)
    ensures 10 * Days(w, t, x) < 9 * ExpectedDays(start, end)
  {
    var e := ExpectedDays(start, end);
    if !x.Null? {
      DaysAreDates(w, t, d, x);
      forall y | y in DatesOf(w, t, d, x) ensures start <= y <= end && IsWeekday(y) {
        var i :| 0 <= i < |w| && At(w[i], t) == x && At(w[i], d) == Day(y);
        assert w[i] in w;
      }
      WeekdaySetBound(DatesOf(w, t, d, x), start, end);
      WeekdaysAtMost(start, end);
      assert (e + 7) / 7 * 7 <= e + 7;
    }
  }

  // ---------------------------------------------------------------------------
  // Forward fill

  lemma {:induction false} BackReach(vals: seq<Cell>, gap: nat, limit: nat)
    ensures var j := LastPresent(vals);
            Back(vals, gap, limit) == if j >= 0 && gap + (|vals| - 1 - j) <= limit then vals[j] else Null
    decreases |vals|
  {
    if |vals| > 0 && vals[|vals| - 1].Null? {
      var init := vals[..|vals| - 1];
      BackReach(init, gap + 1, limit);
      var j := LastPresent(init);
      assert j >= 0 ==> init[j] == vals[j];
    }
  }

  /**
   * `ffill(limit)` at the last position: a present cell is kept; a missing
   * one takes the last present value when at most `limit` missing cells
   * separate them, and stays missing otherwise.
   */
  lemma FilledLastReach(vals: seq<Cell>, limit: nat)
    ensures |vals| > 0 && !vals[|vals| - 1].Null? ==> FilledLast(vals, limit) == vals[|vals| - 1]
    ensures var j := LastPresent(vals);
            FilledLast(vals, limit) == if j >= 0 && |vals| - 1 - j <= limit then vals[j] else Null
  {
    BackReach(vals, 0, limit);
  }

  /**
   * The grouped fill never crosses tickers: a filled cell is missing or is
   * the value of an earlier row (or the row itself) of the same ticker, and a
   * present cell of a row with a ticker stays as it is.
   */
  lemma FillStaysInGroup(rows: seq<seq<Cell>>, t: int, k: int, i: int)
    requires 0 <= i < |rows|
    ensures var c := GroupFillCell(rows, t, k, i);
            c.Null? || exists i' :: 0 <= i' <= i && At(rows[i'], t) == At(rows[i], t) && At(rows[i'], k) == c
    ensures !At(rows[i], t).Null? && !At(rows[i], k).Null? ==> GroupFillCell(rows, t, k, i) == At(rows[i], k)
  {
    var x := At(rows[i], t);
    var vals := GroupPrefix(rows, t, k, i);
    FilledLastReach(vals, FillLimit);
    GroupPrefixEnds(rows, t, k, i);
    var c := GroupFillCell(rows, t, k, i);
    if !c.Null? {
      var j := LastPresent(vals);
      assert c == vals[j] && vals[j] in vals;
      GroupCellsOrigin(rows, t, x, k, i + 1);
      assert CellOfGroup(rows, t, x, k, i + 1, c);
    }
  }

  /** The fill over the price columns leaves every other column as it was. */
  lemma {:induction false} FillKeepsOtherColumns(rows: seq<seq<Cell>>, t: int, ks: seq<int>, c: int)
    requires c !in ks
    ensures forall i :: 0 <= i < |rows| ==> At(GroupFillAll(rows, t, ks)[i], c) == At(rows[i], c)
    decreases |ks|
  {
    if |ks| > 0 {
      FillKeepsOtherColumns(rows, t, ks[..|ks| - 1], c);
    }
  }

  // ---------------------------------------------------------------------------
  // What each branch returns

  /** A ticker is listed as bad exactly when one of the statistics records for it is above 10%. */
  lemma BadTickersMembers(stats: seq<TickerStat>, x: Cell)
    ensures x in BadTickers(stats) <==> exists i :: 0 <= i < |stats| && stats[i].ticker == x && stats[i].missingPct > 10.0
  {
    var pred := (s: TickerStat) => s.missingPct > 10.0;
    var bad := Filter(stats, pred);
    if x in BadTickers(stats) {
      var k :| 0 <= k < |bad| && BadTickers(stats)[k] == x;
      assert bad[k] in stats && pred(bad[k]);
    }
    if i :| 0 <= i < |stats| && stats[i].ticker == x && stats[i].missingPct > 10.0 {
      assert stats[i] in bad;
      var k :| 0 <= k < |bad| && bad[k] == stats[i];
      assert BadTickers(stats)[k] == x;
    }
  }

  /** A ticker that occurs in the window is dropped exactly when it has fewer than 90% of the calendar days. */
  lemma BadTickerIff(w: seq<seq<Cell>>, t: int, expected: int, x: Cell)
    requires expected > 0
    requires exists row :: row in w && At(row, t) == x
    ensures x in BadTickers(Stats(w, t, expected)) <==> 10 * Days(w, t, x) < 9 * expected
  {
    var tickers := UniqueTickers(w, t);
    var stats := Stats(w, t, expected);
    UniqueTickersListed(w, t, x);
    BadTickersMembers(stats, x);
    MissingPctThreshold(Days(w, t, x), expected);
    var j :| 0 <= j < |tickers| && tickers[j] == x;
    assert stats[j] == StatOf(w, t, expected, x);
    forall i | 0 <= i < |stats| && stats[i].ticker == x ensures i == j {
      assert stats[i] == StatOf(w, t, expected, tickers[i]);
    }
  }

  /** The fill keeps the sort keys, so the filled rows are still in (ticker, date) order. */
  lemma FilledSorted(sorted: seq<seq<Cell>>, t: int, d: int, ks: seq<int>)
    requires t !in ks && d !in ks
    requires SortedBy(sorted, TickerDateKey(t, d))
    ensures SortedBy(GroupFillAll(sorted, t, ks), TickerDateKey(t, d))
  {
    var filled := GroupFillAll(sorted, t, ks);
    FillKeepsOtherColumns(sorted, t, ks, t);
    FillKeepsOtherColumns(sorted, t, ks, d);
    SameKeysSorted(sorted, filled, TickerDateKey(t, d));
  }

  /**
   * Every row the long-format branch returns is in (ticker, date) order, has
   * every price, carries the ticker and date of a row of the window, and its
   * ticker has at least 90% of the window's calendar days. Conversely, every
   * window row of such a ticker with every price present is returned.
   */
  lemma LongOutput(w: seq<seq<Cell>>, t: int, d: int, ks: seq<int>, expected: int)
    requires expected > 0 && t !in ks && d !in ks
    requires LongRows(w, t, d, ks, expected).Ok?
    ensures var out := LongRows(w, t, d, ks, expected).value;
            |out| <= |w| && SortedBy(out, TickerDateKey(t, d))
            && (forall row :: row in out ==> !AnyNullAt(row, ks))
            && (forall row :: row in out ==> exists src :: src in w && At(src, t) == At(row, t) && At(src, d) == At(row, d))
            && (forall row :: row in out ==> !At(row, t).Null? && 10 * Days(w, t, At(row, t)) >= 9 * expected)
            && (forall row :: row in w && 10 * Days(w, t, At(row, t)) >= 9 * expected && !AnyNullAt(row, ks) ==> row in out)
  {
    var bad := BadTickers(Stats(w, t, expected));
    var kept := DropTickers(w, t, bad);
    var sorted := SortBy(kept, TickerDateKey(t, d));
    var filled := GroupFillAll(sorted, t, ks);
    var out := DropMissingPrices(filled, ks);
    assert LongRows(w, t, d, ks, expected).value == out;
    SortBySorted(kept, TickerDateKey(t, d));
    FilledSorted(sorted, t, d, ks);
    FilterSorted(filled, (row: seq<Cell>) => !AnyNullAt(row, ks), TickerDateKey(t, d));
    forall row | row in out
      ensures exists src :: src in w && At(src, t) == At(row, t) && At(src, d) == At(row, d)
      ensures !At(row, t).Null? && 10 * Days(w, t, At(row, t)) >= 9 * expected
    {
      LongRowOrigin(w, t, d, ks, expected, row);
    }
    forall row | row in w && 10 * Days(w, t, At(row, t)) >= 9 * expected && !AnyNullAt(row, ks)
      ensures row in out
    {
      LongRowKept(w, t, d, ks, expected, row);
    }
  }

  lemma LongRowOrigin(w: seq<seq<Cell>>, t: int, d: int, ks: seq<int>, expected: int, row: seq<Cell>)
    requires expected > 0 && t !in ks && d !in ks
    requires LongRows(w, t, d, ks, expected).Ok? && row in LongRows(w, t, d, ks, expected).value
    ensures exists src :: src in w && At(src, t) == At(row, t) && At(src, d) == At(row, d)
    ensures !At(row, t).Null? && 10 * Days(w, t, At(row, t)) >= 9 * expected
  {
    var bad := BadTickers(Stats(w, t, expected));
    var kept := DropTickers(w, t, bad);
    var sorted := SortBy(kept, TickerDateKey(t, d));
    var filled := GroupFillAll(sorted, t, ks);
    assert LongRows(w, t, d, ks, expected).value == DropMissingPrices(filled, ks);
    FillKeepsOtherColumns(sorted, t, ks, t);
    FillKeepsOtherColumns(sorted, t, ks, d);
    var i :| 0 <= i < |filled| && filled[i] == row;
    var src := sorted[i];
    assert src in multiset(sorted);
    assert src in kept;
    assert src in w && At(src, t) !in bad;
    BadTickerIff(w, t, expected, At(src, t));
  }

  /** The grouped fill leaves a row of a known ticker with every price present as it is. */
  lemma {:induction false} FillKeepsCompleteRow(rows: seq<seq<Cell>>, t: int, ks: seq<int>, i: int)
    requires 0 <= i < |rows| && !At(rows[i], t).Null? && !AnyNullAt(rows[i], ks)
    ensures GroupFillAll(rows, t, ks)[i] == rows[i]
    decreases |ks|
  {
    if |ks| > 0 {
      var init := ks[..|ks| - 1];
      var k := ks[|ks| - 1];
      assert !AnyNullAt(rows[i], init) by {
        forall j | 0 <= j < |init| ensures !At(rows[i], init[j]).Null? {
          assert init[j] == ks[j];
        }
      }
      FillKeepsCompleteRow(rows, t, init, i);
      var prev := GroupFillAll(rows, t, init);
      assert !At(rows[i], ks[|ks| - 1]).Null?;
      FillStaysInGroup(prev, t, k, i);
      assert GroupFill(prev, t, k)[i] == SetAt(prev[i], k, At(prev[i], k));
    }
  }

  /**
   * The converse of `LongRowOrigin`: a window row whose ticker has at least
   * 90% of the window's calendar days and whose prices are all present is a
   * row of the long-format result, unchanged.
   */
  lemma LongRowKept(w: seq<seq<Cell>>, t: int, d: int, ks: seq<int>, expected: int, row: seq<Cell>)
    requires expected > 0 && LongRows(w, t, d, ks, expected).Ok?
    requires row in w && 10 * Days(w, t, At(row, t)) >= 9 * expected && !AnyNullAt(row, ks)
    ensures row in LongRows(w, t, d, ks, expected).value
  {
    var bad := BadTickers(Stats(w, t, expected));
    var kept := DropTickers(w, t, bad);
    var sorted := SortBy(kept, TickerDateKey(t, d));
    var filled := GroupFillAll(sorted, t, ks);
    assert LongRows(w, t, d, ks, expected).value == DropMissingPrices(filled, ks);
    BadTickerIff(w, t, expected, At(row, t));
    var j :| 0 <= j < |w| && w[j] == row;
    assert row in kept;
    SortByMembers(kept, TickerDateKey(t, d));
    var i :| 0 <= i < |sorted| && sorted[i] == row;
    FillKeepsCompleteRow(sorted, t, ks, i);
    assert filled[i] == row;
  }

  /** A window has unique tickers exactly when it has rows. */
  lemma UniqueTickersEmpty(w: seq<seq<Cell>>, t: int)
    ensures |UniqueTickers(w, t)| == 0 <==> |w| == 0
  {
    if |w| > 0 {
      UniqueTickersListed(w, t, At(w[0], t));
    }
  }

  /** When every ticker of the window is a string, so is every dropped ticker. */
  lemma TextTickersPrintable(w: seq<seq<Cell>>, t: int, expected: int)
    requires forall row :: row in w ==> At(row, t).Text?
    ensures Printable(BadTickers(Stats(w, t, expected)))
  {
    var stats := Stats(w, t, expected);
    var bad := BadTickers(stats);
    KeepFirstProperties(ColumnCells(w, t), (c: Cell) => c);
    forall i | 0 <= i < |bad| && i < 10 ensures bad[i].Text? {
      BadTickersMembers(stats, bad[i]);
      var j :| 0 <= j < |stats| && stats[j].ticker == bad[i] && stats[j].missingPct > 10.0;
      assert UniqueTickers(w, t)[j] in ColumnCells(w, t);
    }
  }

  /**
   * The long-format result: the step succeeds exactly when the window has
   * rows and the first ten dropped tickers are strings; it then has the
   * input's columns, rows dated inside the window, in (ticker, date) order,
   * with every price present, each for a ticker with at least 90% of the
   * window's calendar days; and every row of the window for such a ticker
   * whose prices are all present is one of them.
   */
  lemma CleanPricesLong(f: Frame, start: int, end: int)
    requires FirstPresent(DateCandidates, f.columns).Some? && IsLong(f.columns) && ExpectedDays(start, end) > 0
    ensures var w := Windowed(f, start, end);
            CleanPrices.CleanPrices(f, start, end).Ok? <==>
              |w| > 0 && Printable(BadTickers(Stats(w, LongTickerColumn(f.columns), ExpectedDays(start, end))))
    ensures CleanPrices.CleanPrices(f, start, end).Ok? ==>
            var out := CleanPrices.CleanPrices(f, start, end).value;
            var t := LongTickerColumn(f.columns);
            var d := DateColumn(f.columns);
            out.columns == f.columns && |out.rows| <= |f.rows| && SortedBy(out.rows, TickerDateKey(t, d))
            && forall row :: row in out.rows ==>
                 !AnyNullAt(row, PriceColumns(f.columns)) && InWindow(row, d, start, end)
                 && !At(row, t).Null? && 10 * Days(Windowed(f, start, end), t, At(row, t)) >= 9 * ExpectedDays(start, end)
    ensures CleanPrices.CleanPrices(f, start, end).Ok? ==>
            var t := LongTickerColumn(f.columns);
            var d := DateColumn(f.columns);
            forall row :: row in f.rows && InWindow(row, d, start, end)
                          && 10 * Days(Windowed(f, start, end), t, At(row, t)) >= 9 * ExpectedDays(start, end)
                          && !AnyNullAt(row, PriceColumns(f.columns))
                          ==> row in CleanPrices.CleanPrices(f, start, end).value.rows
  {
    var t := LongTickerColumn(f.columns);
    var d := DateColumn(f.columns);
    var w := Windowed(f, start, end);
    var ks := PriceColumns(f.columns);
    CleanPricesSteps(f, start, end);
    UniqueTickersEmpty(w, t);
    if LongRows(w, t, d, ks, ExpectedDays(start, end)).Ok? {
      KeyColumnsNotPrices(f.columns);
      WindowedRows(f, start, end);
      LongOutput(w, t, d, ks, ExpectedDays(start, end));
      var out := LongRows(w, t, d, ks, ExpectedDays(start, end)).value;
      forall row | row in out ensures InWindow(row, d, start, end) {
        var src :| src in w && At(src, t) == At(row, t) && At(src, d) == At(row, d);
      }
    }
  }

  /**
   * The consequence of measuring against calendar days: over a window of at
   * least 27 days, a ticker whose windowed rows are one per date and all on
   * weekdays (a stock that trades every weekday and never at the weekend)
   * has no row in the long-format result.
   */
  lemma WeekdayTickerDropped(f: Frame, start: int, end: int, x: Cell)
    requires FirstPresent(DateCandidates, f.columns).Some? && IsLong(f.columns) && ExpectedDays(start, end) >= 27
    requires OneRowPerDate(Windowed(f, start, end), LongTickerColumn(f.columns), DateColumn(f.columns), x)
    requires forall row :: row in f.rows && At(row, LongTickerColumn(f.columns)) == x && InWindow(row, DateColumn(f.columns), start, end) ==>
               IsWeekday(At(row, DateColumn(f.columns)).d)
    requires |Windowed(f, start, end)| > 0 && forall row :: row in f.rows ==> At(row, LongTickerColumn(f.columns)).Text?
    ensures CleanPrices.CleanPrices(f, start, end).Ok?
    ensures forall row :: row in CleanPrices.CleanPrices(f, start, end).value.rows ==> At(row, LongTickerColumn(f.columns)) != x
  {
    var t := LongTickerColumn(f.columns);
    var d := DateColumn(f.columns);
    var w := Windowed(f, start, end);
    WindowedRows(f, start, end);
    WeekdayTickerShort(w, t, d, start, end, x);
    TextTickersPrintable(w, t, ExpectedDays(start, end));
    CleanPricesLong(f, start, end);
  }

  /**
   * The step fails exactly when no date column exists; in long format when
   * the window has no rows, when it has rows but no length, or when one of
   * the first ten dropped tickers is not a string; in wide format when a
   * kept column holds a string, and otherwise when a kept column is named
   * Close.
   */
  lemma CleanPricesErrors(f: Frame, start: int, end: int)
    ensures CleanPrices.CleanPrices(f, start, end) == Err(NoDateColumn) <==> FirstPresent(DateCandidates, f.columns).None?
    ensures CleanPrices.CleanPrices(f, start, end) == Err(NoTickerStats) <==>
              FirstPresent(DateCandidates, f.columns).Some? && IsLong(f.columns) && |Windowed(f, start, end)| == 0
    ensures CleanPrices.CleanPrices(f, start, end) == Err(ZeroLengthWindow) <==>
              FirstPresent(DateCandidates, f.columns).Some? && IsLong(f.columns)
              && ExpectedDays(start, end) == 0 && |Windowed(f, start, end)| > 0
    ensures CleanPrices.CleanPrices(f, start, end) == Err(NonStringBadTicker) <==>
              FirstPresent(DateCandidates, f.columns).Some? && IsLong(f.columns)
              && ExpectedDays(start, end) != 0 && |Windowed(f, start, end)| > 0
              && !Printable(BadTickers(Stats(Windowed(f, start, end), LongTickerColumn(f.columns), ExpectedDays(start, end))))
    ensures CleanPrices.CleanPrices(f, start, end) == Err(NonNumericPrices) <==>
              var vs := ValueColumns(|f.columns|, DateColumn(f.columns));
              FirstPresent(DateCandidates, f.columns).Some? && !IsLong(f.columns)
              && !NumericColumns(f.rows, KeptColumns(PlainFillAll(Windowed(f, start, end), vs), vs))
    ensures CleanPrices.CleanPrices(f, start, end) == Err(CloseColumnTaken) <==>
              var vs := ValueColumns(|f.columns|, DateColumn(f.columns));
              var kept := KeptColumns(PlainFillAll(Windowed(f, start, end), vs), vs);
              FirstPresent(DateCandidates, f.columns).Some? && !IsLong(f.columns)
              && NumericColumns(f.rows, kept) && CloseKept(f.columns, kept)
  {
    if FirstPresent(DateCandidates, f.columns).Some? {
      CleanPricesSteps(f, start, end);
      UniqueTickersEmpty(Windowed(f, start, end), LongTickerColumn(f.columns));
    }
  }

  // ---------------------------------------------------------------------------
  // Wide format

  /** The fill over the ticker columns leaves every other column as it was. */
  lemma {:induction false} PlainFillKeepsOtherColumns(rows: seq<seq<Cell>>, ks: seq<int>, c: int)
    requires c !in ks
    ensures forall i :: 0 <= i < |rows| ==> At(PlainFillAll(rows, ks)[i], c) == At(rows[i], c)
    decreases |ks|
  {
    if |ks| > 0 {
      PlainFillKeepsOtherColumns(rows, ks[..|ks| - 1], c);
    }
  }

  /** A kept column is a ticker column of the table, not the date, and not too sparse after the fill. */
  lemma KeptColumnsIff(filled: seq<seq<Cell>>, n: nat, d: int)
    ensures forall k :: k in KeptColumns(filled, ValueColumns(n, d)) <==> 0 <= k < n && k != d && !TooSparse(filled, k)
  {
    var all := seq(n, i => i);
    var vs := ValueColumns(n, d);
    forall k ensures k in KeptColumns(filled, vs) <==> 0 <= k < n && k != d && !TooSparse(filled, k) {
      if 0 <= k < n && k != d {
        assert all[k] == k;
        assert k in vs;
      }
    }
  }

  /** Melting `rows` over the columns `ks`: one row per (column, row) pair, made of the date, the column name and the value. */
  lemma {:induction false} MeltRows(rows: seq<seq<Cell>>, d: int, columns: seq<string>, ks: seq<int>)
    ensures |Melt(rows, d, columns, ks)| == |ks| * |rows|
    ensures forall r :: r in Melt(rows, d, columns, ks) ==>
              exists i, j :: 0 <= i < |rows| && 0 <= j < |ks| && r == [At(rows[i], d), Text(Name(columns, ks[j])), At(rows[i], ks[j])]
    decreases |ks|
  {
    if |ks| > 0 {
      var init := ks[..|ks| - 1];
      var k := ks[|ks| - 1];
      MeltRows(rows, d, columns, init);
      var tail := Map(rows, (row: seq<Cell>) => [At(row, d), Text(Name(columns, k)), At(row, k)]);
      assert Melt(rows, d, columns, ks) == Melt(rows, d, columns, init) + tail;
      assert (|ks| - 1) * |rows| + |rows| == |ks| * |rows|;
      forall r | r in Melt(rows, d, columns, ks)
        ensures exists i, j :: 0 <= i < |rows| && 0 <= j < |ks| && r == [At(rows[i], d), Text(Name(columns, ks[j])), At(rows[i], ks[j])]
      {
        if r in Melt(rows, d, columns, init) {
          var i, j :| 0 <= i < |rows| && 0 <= j < |init| && r == [At(rows[i], d), Text(Name(columns, init[j])), At(rows[i], init[j])];
          assert init[j] == ks[j];
        } else {
          var i :| 0 <= i < |tail| && tail[i] == r;
          assert ks[|ks| - 1] == k;
        }
      }
    }
  }

  /** A row kept by the dropna has no missing and no infinite cell in a kept column, and keeps the date of its source row. */
  lemma CompleteDateRow(filled: seq<seq<Cell>>, kept: seq<int>, d: int, row: seq<Cell>)
    requires row in CompleteDates(filled, kept)
    ensures forall k :: k in kept ==> !At(row, k).Null? && !IsInfCell(At(row, k))
    ensures exists i :: 0 <= i < |filled| && At(row, d) == InfToNull(At(filled[i], d))
  {
    var cleaned := Map(filled, (r: seq<Cell>) => Map(r, InfToNull));
    assert row in cleaned && !AnyNullAt(row, kept);
    var i :| 0 <= i < |cleaned| && cleaned[i] == row;
    assert row == Map(filled[i], InfToNull);
    forall k | k in kept ensures !At(row, k).Null? && !IsInfCell(At(row, k)) {
      var j :| 0 <= j < |kept| && kept[j] == k;
    }
  }

  /** The complete date rows are dated inside the window and usable in every kept column. */
  lemma CompleteDatesUsable(w: seq<seq<Cell>>, filled: seq<seq<Cell>>, kept: seq<int>, d: int, start: int, end: int)
    requires |filled| == |w| && forall i :: 0 <= i < |w| ==> At(filled[i], d) == At(w[i], d)
    requires forall r :: r in w ==> InWindow(r, d, start, end)
    ensures forall r :: r in CompleteDates(filled, kept) ==>
              InWindow(r, d, start, end) && forall k :: k in kept ==> !At(r, k).Null? && !IsInfCell(At(r, k))
  {
    forall r | r in CompleteDates(filled, kept)
      ensures InWindow(r, d, start, end) && forall k :: k in kept ==> !At(r, k).Null? && !IsInfCell(At(r, k))
    {
      CompleteDateRow(filled, kept, d, r);
      var m :| 0 <= m < |filled| && At(r, d) == InfToNull(At(filled[m], d));
      assert InWindow(w[m], d, start, end) by {
        assert w[m] in w;
      }
    }
  }

  /** One melted row of usable, dated rows. */
  lemma MeltedUsableRow(complete: seq<seq<Cell>>, kept: seq<int>, d: int, columns: seq<string>, start: int, end: int, row: seq<Cell>)
    requires forall r :: r in complete ==>
               InWindow(r, d, start, end) && forall k :: k in kept ==> !At(r, k).Null? && !IsInfCell(At(r, k))
    requires row in Melt(complete, d, columns, kept)
    ensures |row| == 3 && InWindow(row, 0, start, end)
    ensures exists k :: k in kept && row[1] == Text(Name(columns, k))
    ensures !row[2].Null? && !IsInfCell(row[2])
  {
    MeltRows(complete, d, columns, kept);
    var i, j :| 0 <= i < |complete| && 0 <= j < |kept| && row == [At(complete[i], d), Text(Name(columns, kept[j])), At(complete[i], kept[j])];
    assert complete[i] in complete && kept[j] in kept;
  }

  /** One melted row, traced back to a complete date row and a kept column. */
  lemma MeltedRow(w: seq<seq<Cell>>, filled: seq<seq<Cell>>, kept: seq<int>, d: int, columns: seq<string>, start: int, end: int, row: seq<Cell>)
    requires |filled| == |w| && forall i :: 0 <= i < |w| ==> At(filled[i], d) == At(w[i], d)
    requires forall r :: r in w ==> InWindow(r, d, start, end)
    requires row in Melt(CompleteDates(filled, kept), d, columns, kept)
    ensures |row| == 3 && InWindow(row, 0, start, end)
    ensures exists k :: k in kept && row[1] == Text(Name(columns, k))
    ensures !row[2].Null? && !IsInfCell(row[2])
  {
    CompleteDatesUsable(w, filled, kept, d, start, end);
    MeltedUsableRow(CompleteDates(filled, kept), kept, d, columns, start, end, row);
  }

  /** One row of the wide branch: a dated (date, Ticker, Close) triple with a usable Close. */
  lemma WideRow(w: seq<seq<Cell>>, d: int, columns: seq<string>, start: int, end: int, row: seq<Cell>)
    requires forall r :: r in w ==> InWindow(r, d, start, end)
    requires row in WideRows(w, d, columns)
    ensures |row| == 3 && InWindow(row, 0, start, end)
    ensures exists k :: k in KeptColumns(PlainFillAll(w, ValueColumns(|columns|, d)), ValueColumns(|columns|, d)) && row[1] == Text(Name(columns, k))
    ensures !row[2].Null? && !IsInfCell(row[2])
  {
    var vs := ValueColumns(|columns|, d);
    var filled := PlainFillAll(w, vs);
    var kept := KeptColumns(filled, vs);
    assert d !in vs;
    PlainFillKeepsOtherColumns(w, vs, d);
    MeltedRow(w, filled, kept, d, columns, start, end, row);
  }

  /**
   * The wide-format result: the step succeeds exactly when no kept column
   * holds a string and none is named Close. It then gives (date, Ticker,
   * Close) rows, one per kept ticker column and complete date, dated inside
   * the window, named after a kept column, with a Close that is neither
   * missing nor infinite; a column is kept exactly when it is not the date
   * and at most 10% of it is missing after the fill.
   */
  lemma CleanPricesWide(f: Frame, start: int, end: int)
    requires FirstPresent(DateCandidates, f.columns).Some? && !IsLong(f.columns)
    ensures var d := DateColumn(f.columns);
            var filled := PlainFillAll(Windowed(f, start, end), ValueColumns(|f.columns|, d));
            var kept := KeptColumns(filled, ValueColumns(|f.columns|, d));
            CleanPrices.CleanPrices(f, start, end).Ok? <==> NumericColumns(f.rows, kept) && !CloseKept(f.columns, kept)
    ensures CleanPrices.CleanPrices(f, start, end).Ok? ==>
            var out := CleanPrices.CleanPrices(f, start, end).value;
            var d := DateColumn(f.columns);
            var filled := PlainFillAll(Windowed(f, start, end), ValueColumns(|f.columns|, d));
            var kept := KeptColumns(filled, ValueColumns(|f.columns|, d));
            0 <= d < |f.columns| && out.columns == [f.columns[d], "Ticker", "Close"]
            && (forall k :: k in kept <==> 0 <= k < |f.columns| && k != d && !TooSparse(filled, k))
            && |out.rows| == |kept| * |CompleteDates(filled, kept)|
            && forall row: seq<Cell> :: row in out.rows ==>
                 |row| == 3 && InWindow(row, 0, start, end)
                 && (exists k :: k in kept && row[1] == Text(f.columns[k]))
                 && !row[2].Null? && !IsInfCell(row[2])
  {
    var d := DateColumn(f.columns);
    var w := Windowed(f, start, end);
    var vs := ValueColumns(|f.columns|, d);
    var filled := PlainFillAll(w, vs);
    var kept := KeptColumns(filled, vs);
    var rows := WideRows(w, d, f.columns);
    CleanPricesSteps(f, start, end);
    assert NumericColumns(f.rows, kept) && !CloseKept(f.columns, kept) ==> CleanPrices.CleanPrices(f, start, end) == Ok(Frame([f.columns[d], "Ticker", "Close"], rows));
    KeptColumnsIff(filled, |f.columns|, d);
    WindowedRows(f, start, end);
    WideRowsNamed(w, d, f.columns, start, end);
    NamedRows(rows, kept, f.columns);
  }

  /** Rows naming a kept column through `Name` name it by its position in `columns`. */
  lemma NamedRows(rows: seq<seq<Cell>>, kept: seq<int>, columns: seq<string>)
    requires forall k :: k in kept ==> 0 <= k < |columns|
    requires forall row: seq<Cell> :: row in rows ==> |row| == 3 && exists k :: k in kept && row[1] == Text(Name(columns, k))
    ensures forall row: seq<Cell> :: row in rows ==> exists k :: k in kept && row[1] == Text(columns[k])
  {
    forall row: seq<Cell> | row in rows
      ensures exists k :: k in kept && row[1] == Text(columns[k])
    {
      var k :| k in kept && row[1] == Text(Name(columns, k));
      assert Name(columns, k) == columns[k];
    }
  }

  /** The wide branch on windowed rows: its size and what each of its rows holds. */
  lemma WideRowsNamed(w: seq<seq<Cell>>, d: int, columns: seq<string>, start: int, end: int)
    requires forall r :: r in w ==> InWindow(r, d, start, end)
    ensures var vs := ValueColumns(|columns|, d);
            var filled := PlainFillAll(w, vs);
            var kept := KeptColumns(filled, vs);
            |WideRows(w, d, columns)| == |kept| * |CompleteDates(filled, kept)|
            && forall row: seq<Cell> :: row in WideRows(w, d, columns) ==>
                 |row| == 3 && InWindow(row, 0, start, end)
                 && (exists k :: k in kept && row[1] == Text(Name(columns, k)))
                 && !row[2].Null? && !IsInfCell(row[2])
  {
    var vs := ValueColumns(|columns|, d);
    var filled := PlainFillAll(w, vs);
    var kept := KeptColumns(filled, vs);
    MeltRows(CompleteDates(filled, kept), d, columns, kept);
    forall row: seq<Cell> | row in WideRows(w, d, columns)
      ensures |row| == 3 && InWindow(row, 0, start, end)
      ensures exists k :: k in kept && row[1] == Text(Name(columns, k))
      ensures !row[2].Null? && !IsInfCell(row[2])
    {
      WideRow(w, d, columns, start, end, row);
    }
  }
}

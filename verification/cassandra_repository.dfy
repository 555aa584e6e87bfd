/** The history service's repository over a table of records: every query
    selects the rows of one identifier within a time restriction, and every
    row the record factory cannot decode is skipped. */
module CassandraRepository {
  import opened Primitives
  import opened TimeRestrictions
  import opened Store
  import opened Histogram

  /** The restricted select-all: identifier equality, the lower clause and
      the upper clause. Its rows are exactly the rows of the identifier whose
      timestamp the restriction admits. */
  function Selected(store: seq<Row>, identifier: string, tr: TimeRestriction): (rows: seq<Row>)
    ensures |rows| <= |store|
    ensures forall r :: r in rows <==> r in store && r.identifier == identifier && Admits(tr, r.timestamp)
    ensures forall r: Row :: r.identifier == identifier && Admits(tr, r.timestamp) ==> multiset(rows)[r] == multiset(store)[r]
  {
    var clauses := [LowerClause(tr), UpperClause(tr)];
    assert forall r: Row :: Matches(r, identifier, clauses) <==> r.identifier == identifier && Admits(tr, r.timestamp) by {
      forall r: Row
        ensures Matches(r, identifier, clauses) <==> r.identifier == identifier && Admits(tr, r.timestamp)
      {
        ClausesMeanRestriction(tr, r.timestamp);
        assert Holds(clauses[0], r.timestamp) <==> Holds(LowerClause(tr), r.timestamp);
        assert Holds(clauses[1], r.timestamp) <==> Holds(UpperClause(tr), r.timestamp);
      }
    }
    Where(store, identifier, clauses)
  }

  /** Whether a stored row is one a restricted query can return a record for. */
  ghost predicate Answers<T>(decode: Row -> Option<T>, store: seq<Row>, identifier: string, tr: TimeRestriction, r: Row, x: T) {
    r in store && r.identifier == identifier && Admits(tr, r.timestamp) && decode(r) == Some(x)
  }

  /** All records of an identifier within the restriction: each comes from an
      admitted row, every admitted row that decodes contributes one, each
      record occurs once per admitted row decoding to it, and the records and
      the skipped rows together account for every admitted row. */
  function Get<T>(decode: Row -> Option<T>, store: seq<Row>, identifier: string, tr: TimeRestriction)
    : (out: seq<T>)
    ensures |out| <= |store|
    ensures forall x :: x in out ==> exists r :: Answers(decode, store, identifier, tr, r, x)
    ensures forall r :: r in store && r.identifier == identifier && Admits(tr, r.timestamp) && decode(r).Some?
                    ==> decode(r).value in out
    ensures forall i :: 0 <= i < |out| ==> multiset(out)[out[i]] == Decodings(decode, Selected(store, identifier, tr), out[i])
    ensures |out| + Failures(decode, Selected(store, identifier, tr)) == |Selected(store, identifier, tr)|
  {
    var rows := Selected(store, identifier, tr);
    var out := Execute(decode, rows);
    ExecuteCountsAt(decode, rows);
    assert forall x :: x in out ==> exists r :: Answers(decode, store, identifier, tr, r, x) by {
      forall x | x in out
        ensures exists r :: Answers(decode, store, identifier, tr, r, x)
      {
        var r :| r in rows && decode(r) == Some(x);
        assert Answers(decode, store, identifier, tr, r, x);
      }
    }
    out
  }

  /** The restricted rows ordered by timestamp and cut at `count`; the driver
      refuses a count that is not positive. */
  function Ordered(store: seq<Row>, identifier: string, tr: TimeRestriction, dir: Direction, count: int32)
    : (res: Result<seq<Row>, Failure>)
    ensures res.Err? <==> count <= 0
    ensures res.Err? ==> res.error == InvalidLimit
    ensures res.Ok? ==> Sorted(dir, res.value)
    ensures res.Ok? ==> |res.value| == MinInt(count, |Selected(store, identifier, tr)|)
    ensures res.Ok? ==> forall r :: r in res.value ==> r in Selected(store, identifier, tr)
  {
    Limit(OrderBy(dir, Selected(store, identifier, tr)), count)
  }

  /** The records of the rows an ordered, limited query returns. */
  function GetFirst<T>(decode: Row -> Option<T>, store: seq<Row>, identifier: string, tr: TimeRestriction,
                       dir: Direction, count: int32): (res: Result<seq<T>, Failure>)
    ensures res.Err? <==> count <= 0
    ensures res.Err? ==> res.error == InvalidLimit
    ensures res.Ok? ==> |res.value| <= count
    ensures res.Ok? ==> forall x :: x in res.value ==> exists r :: Answers(decode, store, identifier, tr, r, x)
  {
    var rows :- Ordered(store, identifier, tr, dir, count);
    var out := Execute(decode, rows);
    assert forall x :: x in out ==> exists r :: Answers(decode, store, identifier, tr, r, x) by {
      forall x | x in out
        ensures exists r :: Answers(decode, store, identifier, tr, r, x)
      {
        var r :| r in rows && decode(r) == Some(x);
        assert r in Selected(store, identifier, tr);
        assert Answers(decode, store, identifier, tr, r, x);
      }
    }
    Ok(out)
  }

  /** The `count` newest records of the restriction, newest first. */
  function GetLatest<T>(decode: Row -> Option<T>, store: seq<Row>, identifier: string, tr: TimeRestriction,
                        count: int32): (res: Result<seq<T>, Failure>)
    ensures res.Err? <==> count <= 0
    ensures res.Err? ==> res.error == InvalidLimit
    ensures res.Ok? ==> |res.value| <= count
    ensures res.Ok? ==> forall x :: x in res.value ==> exists r :: Answers(decode, store, identifier, tr, r, x)
  {
    GetFirst(decode, store, identifier, tr, Desc, count)
  }

  /** The `count` oldest records of the restriction, oldest first. */
  function GetEarliest<T>(decode: Row -> Option<T>, store: seq<Row>, identifier: string, tr: TimeRestriction,
                          count: int32): (res: Result<seq<T>, Failure>)
    ensures res.Err? <==> count <= 0
    ensures res.Err? ==> res.error == InvalidLimit
    ensures res.Ok? ==> |res.value| <= count
    ensures res.Ok? ==> forall x :: x in res.value ==> exists r :: Answers(decode, store, identifier, tr, r, x)
  {
    GetFirst(decode, store, identifier, tr, Asc, count)
  }

  /** The rows behind the latest records are the newest ones: none of the
      restricted rows left out is newer than a row kept, and the cut keeps
      `count` rows or all of them. */
  lemma NewestRowsKept(store: seq<Row>, identifier: string, tr: TimeRestriction, count: int32)
    requires count > 0
    ensures var all := Selected(store, identifier, tr);
      var kept := Ordered(store, identifier, tr, Desc, count).value;
      && |kept| == MinInt(count, |all|)
      && forall a, b :: a in kept && b in all && b !in kept ==> a.timestamp >= b.timestamp
  {
    var all := Selected(store, identifier, tr);
    var sorted := OrderBy(Desc, all);
    var kept := Ordered(store, identifier, tr, Desc, count).value;
    var dropped := sorted[|kept|..];
    TopRows(Desc, all, count);
    forall a, b | a in kept && b in all && b !in kept
      ensures a.timestamp >= b.timestamp
    {
      assert b in multiset(kept) + multiset(dropped);
      assert InOrder(Desc, a, b);
    }
  }

  /** The rows behind the earliest records are the oldest ones. */
  lemma OldestRowsKept(store: seq<Row>, identifier: string, tr: TimeRestriction, count: int32)
    requires count > 0
    ensures var all := Selected(store, identifier, tr);
      var kept := Ordered(store, identifier, tr, Asc, count).value;
      && |kept| == MinInt(count, |all|)
      && forall a, b :: a in kept && b in all && b !in kept ==> a.timestamp <= b.timestamp
  {
    var all := Selected(store, identifier, tr);
    var sorted := OrderBy(Asc, all);
    var kept := Ordered(store, identifier, tr, Asc, count).value;
    var dropped := sorted[|kept|..];
    TopRows(Asc, all, count);
    forall a, b | a in kept && b in all && b !in kept
      ensures a.timestamp <= b.timestamp
    {
      assert b in multiset(kept) + multiset(dropped);
      assert InOrder(Asc, a, b);
    }
  }

  // ---------------------------------------------------------------------------
  // Trend.

  function Total(xs: seq<real>): (t: real) {
    if |xs| == 0 then 0.0 else Total(xs[..|xs| - 1]) + xs[|xs| - 1]
  }

  /** The arithmetic mean, absent for no values; it lies between the least
      and the greatest value (`MeanTimesCount` gives its exact value). */
  function Average(xs: seq<real>): (a: Option<real>)
    ensures a.None? <==> |xs| == 0
    ensures a.Some? ==> MinOf(xs) <= a.value <= MaxOf(xs)
  {
    if |xs| == 0 then None
    else
      var lo, hi := MinOf(xs), MaxOf(xs);
      TotalBetween(xs, lo, hi);
      Some(Quotient(Total(xs), |xs| as real, lo, hi))
  }

  /** `t / m` for a positive `m`, kept between `lo` and `hi` when `t` lies
      between `m * lo` and `m * hi`. */
  function Quotient(t: real, m: real, lo: real, hi: real): (q: real)
    requires m > 0.0 && m * lo <= t <= m * hi
    ensures q == t / m
    ensures lo <= q <= hi
  {
    var q := t / m;
    assert q * m == t;
    assert (q - lo) * m == t - m * lo;
    assert (hi - q) * m == m * hi - t;
    q
  }

  /** The mean, taken once for every value, gives the total. */
  lemma {:induction false} MeanTimesCount(xs: seq<real>)
    requires |xs| > 0
    ensures Average(xs).value * (|xs| as real) == Total(xs)
  {
    AverageIsQuotient(xs);
    TimesBack(Average(xs).value, Total(xs), |xs| as real);
  }

  lemma {:induction false} AverageIsQuotient(xs: seq<real>)
    requires |xs| > 0
    ensures Average(xs).value == Total(xs) / (|xs| as real)
  {
    var lo, hi := MinOf(xs), MaxOf(xs);
    TotalBetween(xs, lo, hi);
    assert Average(xs) == Some(Quotient(Total(xs), |xs| as real, lo, hi));
  }

  /** Every element between `lo` and `hi` puts the total between `|xs|` times
      each. */
  lemma {:induction false} TotalBetween(xs: seq<real>, lo: real, hi: real)
    requires forall i :: 0 <= i < |xs| ==> lo <= xs[i] <= hi
    ensures (|xs| as real) * lo <= Total(xs) <= (|xs| as real) * hi
  {
    if |xs| > 0 {
      var init := xs[..|xs| - 1];
      assert forall i :: 0 <= i < |init| ==> init[i] == xs[i];
      TotalBetween(init, lo, hi);
      assert lo <= xs[|xs| - 1] <= hi;
    }
  }

  /** The ratio of the end average to the start average; 1 when the start is
      not positive, and -1 when either average is missing. */
  function Trend(start: Option<real>, end: Option<real>): (t: real) {
    if start.Some? && end.Some? then
      if start.value > 0.0 then end.value / start.value else 1.0
    else -1.0
  }

  /** The trend over the `points` earliest and latest records of the
      restriction; the driver refuses a count that is not positive. */
  function GetTrend<T>(decode: Row -> Option<T>, value: T -> real, store: seq<Row>, identifier: string,
                       tr: TimeRestriction, points: int32): (res: Result<real, Failure>)
    ensures res.Err? <==> points <= 0
    ensures res.Err? ==> res.error == InvalidLimit
    ensures points > 0 ==> res.Ok? && TrendOf(Average(Values(value, GetEarliest(decode, store, identifier, tr, points).value)),
                                            Average(Values(value, GetLatest(decode, store, identifier, tr, points).value)),
                                            res.value)
  {
    if points <= 0 then Err(InvalidLimit)
    else
      var earliest := GetEarliest(decode, store, identifier, tr, points).value;
      var latest := GetLatest(decode, store, identifier, tr, points).value;
      var start, end := Average(Values(value, earliest)), Average(Values(value, latest));
      TrendMeans(start, end);
      Ok(Trend(start, end))
  }

  /** What a trend `t` from the start mean to the end mean means: -1 when
      either mean is missing (no records); otherwise 1 when the start mean is
      not positive, and else the factor that takes the start mean to the end
      mean. */
  predicate TrendOf(start: Option<real>, end: Option<real>, t: real) {
    && (start.None? || end.None? ==> t == -1.0)
    && (start.Some? && end.Some? ==>
          && (start.value <= 0.0 ==> t == 1.0)
          && (start.value > 0.0 ==> t * start.value == end.value))
  }

  lemma TrendMeans(start: Option<real>, end: Option<real>)
    ensures TrendOf(start, end, Trend(start, end))
  {
    if start.Some? && end.Some? && start.value > 0.0 {
      RatioTimes(end.value, start.value);
    }
  }

  lemma TimesBack(q: real, t: real, m: real)
    requires m > 0.0 && q == t / m
    ensures q * m == t
  {
  }

  lemma RatioTimes(e: real, s: real)
    requires s > 0.0
    ensures (e / s) * s == e
  {
  }

  /** Without a single record in the restriction, the trend is -1. */
  lemma TrendWithoutData<T>(decode: Row -> Option<T>, value: T -> real, store: seq<Row>, identifier: string,
                            tr: TimeRestriction, points: int32)
    requires points > 0
    requires Get(decode, store, identifier, tr) == []
    ensures GetTrend(decode, value, store, identifier, tr, points) == Ok(-1.0)
  {
    var earliest := GetEarliest(decode, store, identifier, tr, points).value;
    var latest := GetLatest(decode, store, identifier, tr, points).value;
    assert earliest == [] by {
      NothingFirstWithoutData(decode, store, identifier, tr, Asc, points);
    }
    assert Average(Values(value, earliest)) == None;
  }

  /** An ordered query returns nothing when the restriction has no record. */
  lemma NothingFirstWithoutData<T>(decode: Row -> Option<T>, store: seq<Row>, identifier: string,
                                   tr: TimeRestriction, dir: Direction, points: int32)
    requires points > 0
    requires Get(decode, store, identifier, tr) == []
    ensures GetFirst(decode, store, identifier, tr, dir, points) == Ok([])
  {
    var rows := Ordered(store, identifier, tr, dir, points).value;
    assert forall r :: r in rows ==> decode(r).None? by {
      assert forall r :: r in rows ==> r in Selected(store, identifier, tr);
    }
    ExecuteNone(decode, rows);
  }

  /** When every admitted row decodes to the same positive value, the trend
      is 1: nothing rose or fell. */
  lemma SteadyTrend<T>(decode: Row -> Option<T>, value: T -> real, store: seq<Row>, identifier: string,
                       tr: TimeRestriction, points: int32, c: real)
    requires points > 0 && c > 0.0
    requires exists r :: r in store && r.identifier == identifier && Admits(tr, r.timestamp)
    requires forall r :: r in store && r.identifier == identifier && Admits(tr, r.timestamp)
                    ==> decode(r).Some? && value(decode(r).value) == c
    ensures GetTrend(decode, value, store, identifier, tr, points) == Ok(1.0)
  {
    var earliest := SteadyRecords(decode, value, store, identifier, tr, Asc, points, c);
    var latest := SteadyRecords(decode, value, store, identifier, tr, Desc, points, c);
    assert Average(Values(value, earliest)) == Some(c) by {
      SteadyAverage(Values(value, earliest), c);
    }
    assert Average(Values(value, latest)) == Some(c) by {
      SteadyAverage(Values(value, latest), c);
    }
    assert GetEarliest(decode, store, identifier, tr, points) == Ok(earliest);
    assert GetLatest(decode, store, identifier, tr, points) == Ok(latest);
    SteadyRatio(c);
  }

  lemma SteadyRatio(c: real)
    requires c > 0.0
    ensures Trend(Some(c), Some(c)) == 1.0
  {
    assert Trend(Some(c), Some(c)) == c / c;
    assert (c / c) * c == c;
  }

  /** Under the assumptions of the steady trend, an ordered query returns at
      least one record, and each has the value `c`. */
  lemma SteadyRecords<T>(decode: Row -> Option<T>, value: T -> real, store: seq<Row>, identifier: string,
                         tr: TimeRestriction, dir: Direction, points: int32, c: real) returns (xs: seq<T>)
    requires points > 0
    requires exists r :: r in store && r.identifier == identifier && Admits(tr, r.timestamp)
    requires forall r :: r in store && r.identifier == identifier && Admits(tr, r.timestamp)
                    ==> decode(r).Some? && value(decode(r).value) == c
    ensures GetFirst(decode, store, identifier, tr, dir, points) == Ok(xs)
    ensures |xs| > 0 && forall i :: 0 <= i < |xs| ==> Values(value, xs)[i] == c
  {
    var all := Selected(store, identifier, tr);
    var rows := Ordered(store, identifier, tr, dir, points).value;
    var r0 :| r0 in store && r0.identifier == identifier && Admits(tr, r0.timestamp);
    assert r0 in all;
    assert |rows| > 0;
    assert forall r :: r in rows ==> decode(r).Some? && value(decode(r).value) == c by {
      assert forall r :: r in rows ==> r in all;
    }
    xs := ExecuteConstant(decode, value, rows, c);
  }

  /** Rows that all decode to records of value `c` give as many records, each
      of value `c`. */
  lemma ExecuteConstant<T>(decode: Row -> Option<T>, value: T -> real, rows: seq<Row>, c: real) returns (xs: seq<T>)
    requires |rows| > 0
    requires forall r :: r in rows ==> decode(r).Some? && value(decode(r).value) == c
    ensures xs == Execute(decode, rows)
    ensures |xs| > 0 && forall i :: 0 <= i < |xs| ==> Values(value, xs)[i] == c
  {
    xs := Execute(decode, rows);
    ExecuteComplete(decode, rows);
    forall i | 0 <= i < |xs|
      ensures value(xs[i]) == c
    {
      assert xs[i] in xs;
      var r :| r in rows && decode(r) == Some(xs[i]);
    }
  }

  /** The mean of values that are all `c` is `c`. */
  lemma SteadyAverage(xs: seq<real>, c: real)
    requires |xs| > 0 && forall i :: 0 <= i < |xs| ==> xs[i] == c
    ensures Average(xs) == Some(c)
  {
    var m := |xs| as real;
    SteadyTotal(xs, c);
    assert Total(xs) / m == c by {
      DivCancel(m, c);
    }
  }

  lemma DivCancel(m: real, c: real)
    requires m > 0.0
    ensures (m * c) / m == c
  {
  }

  lemma {:induction false} SteadyTotal(xs: seq<real>, c: real)
    requires forall i :: 0 <= i < |xs| ==> xs[i] == c
    ensures Total(xs) == |xs| as real * c
  {
    if |xs| > 0 {
      var init := xs[..|xs| - 1];
      assert forall i :: 0 <= i < |init| ==> init[i] == xs[i];
      SteadyTotal(init, c);
      assert (|xs| - 1) as real * c + c == |xs| as real * c;
    }
  }

  // ---------------------------------------------------------------------------
  // Distribution.

  /** The histogram over the values of all records of the restriction. */
  function GetDistribution<T>(decode: Row -> Option<T>, value: T -> real, store: seq<Row>, identifier: string,
                              tr: TimeRestriction, bucketsCount: int32): (res: Result<seq<Bucket>, Failure>)
    ensures var records := Get(decode, store, identifier, tr);
      && (|records| == 0 ==> res == Ok([]))
      && (|records| > 0 && bucketsCount < 0 ==> res == Err(NegativeArraySize))
      && (|records| > 0 && bucketsCount == 0 ==> res == Err(IndexOutOfBounds))
      && (|records| > 0 && bucketsCount > 0 ==> res.Ok? && |res.value| == bucketsCount)
  {
    Distribution(Values(value, Get(decode, store, identifier, tr)), bucketsCount)
  }

  /** Every record of the restriction is counted in exactly one bucket. */
  lemma DistributionCountsRecords<T>(decode: Row -> Option<T>, value: T -> real, store: seq<Row>,
                                     identifier: string, tr: TimeRestriction, bucketsCount: int32)
    requires bucketsCount > 0
    ensures var res := GetDistribution(decode, value, store, identifier, tr, bucketsCount);
      res.Ok? && TotalCount(res.value) == |Get(decode, store, identifier, tr)|
  {
    var vs := Values(value, Get(decode, store, identifier, tr));
    if |vs| > 0 {
      CountsSumToValues(vs, bucketsCount);
    }
  }
}

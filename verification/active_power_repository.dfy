/** The aggregation service's repository: records of one identifier after a
    timestamp, or its newest records. Unlike the history repository, a row
    the record factory cannot decode ends the whole query with the
    factory's exception. */
module ActivePowerRepository {
  import opened Primitives
  import opened TimeRestrictions
  import opened Store
  import opened Histogram
  import CassandraRepository

  /** The rows of the identifier strictly after `after`. */
  function After(store: seq<Row>, identifier: string, after: int64): (rows: seq<Row>)
    ensures forall r :: r in rows <==> r in store && r.identifier == identifier && r.timestamp > after
  {
    var clauses := [Gt(after)];
    assert forall r: Row :: Matches(r, identifier, clauses) <==> r.identifier == identifier && r.timestamp > after by {
      forall r: Row
        ensures Matches(r, identifier, clauses) <==> r.identifier == identifier && r.timestamp > after
      {
        assert Holds(clauses[0], r.timestamp) <==> r.timestamp > after;
      }
    }
    Where(store, identifier, clauses)
  }

  /** The records of the identifier after `after`: one per row, in row order,
      unless some such row does not decode. */
  function GetAfter<T>(decode: Row -> Option<T>, store: seq<Row>, identifier: string, after: int64)
    : (res: Result<seq<T>, Failure>)
    ensures res.Err? <==> exists r :: r in store && r.identifier == identifier && r.timestamp > after && decode(r).None?
    ensures res.Err? ==> res.error == DecodeFailure
    ensures res.Ok? ==> |res.value| == |After(store, identifier, after)|
    ensures res.Ok? ==> forall i :: 0 <= i < |res.value| ==> decode(After(store, identifier, after)[i]) == Some(res.value[i])
    ensures res.Ok? ==> forall r :: r in store && r.identifier == identifier && r.timestamp > after
                                ==> decode(r).Some? && decode(r).value in res.value
  {
    var rows := After(store, identifier, after);
    var res := StrictExecute(decode, rows);
    assert res.Ok? ==> forall r :: r in rows ==> decode(r).Some? && decode(r).value in res.value by {
      if res.Ok? {
        forall r | r in rows
          ensures decode(r).Some? && decode(r).value in res.value
        {
          var i :| 0 <= i < |rows| && rows[i] == r;
          assert decode(rows[i]) == Some(res.value[i]);
        }
      }
    }
    res
  }

  /** The newest `count` records of the identifier, newest first, with no time
      restriction; the driver refuses a count that is not positive, and a kept
      row that does not decode ends the query. */
  function GetLatest<T>(decode: Row -> Option<T>, store: seq<Row>, identifier: string, count: int32)
    : (res: Result<seq<T>, Failure>)
    ensures count <= 0 ==> res == Err(InvalidLimit)
    ensures count > 0 ==>
      var kept := Limit(OrderBy(Desc, Where(store, identifier, [])), count).value;
      && (res.Err? <==> exists r :: r in kept && decode(r).None?)
      && (res.Err? ==> res.error == DecodeFailure)
      && (res.Ok? ==> |res.value| == |kept| && forall i :: 0 <= i < |kept| ==> decode(kept[i]) == Some(res.value[i]))
    ensures res.Ok? ==> |res.value| == MinInt(count, |Where(store, identifier, [])|)
    ensures res.Ok? ==> forall x :: x in res.value ==> exists r :: r in store && r.identifier == identifier && decode(r) == Some(x)
  {
    var all := Where(store, identifier, []);
    var rows :- Limit(OrderBy(Desc, all), count);
    var res := StrictExecute(decode, rows);
    assert res.Ok? ==> forall x :: x in res.value ==> exists r :: r in store && r.identifier == identifier && decode(r) == Some(x) by {
      if res.Ok? {
        forall x | x in res.value
          ensures exists r :: r in store && r.identifier == identifier && decode(r) == Some(x)
        {
          var i :| 0 <= i < |res.value| && res.value[i] == x;
          var r := rows[i];
          assert decode(r) == Some(x);
          assert r in all;
        }
      }
    }
    res
  }

  /** The histogram over the values of the records after `after`; a decode
      failure ends it before any bucket is computed. */
  function GetDistribution<T>(decode: Row -> Option<T>, value: T -> real, store: seq<Row>, identifier: string,
                              after: int64, bucketsCount: int32): (res: Result<seq<Bucket>, Failure>)
    ensures GetAfter(decode, store, identifier, after).Err? ==> res == Err(DecodeFailure)
    ensures GetAfter(decode, store, identifier, after).Ok? ==>
      var records := GetAfter(decode, store, identifier, after).value;
      && (|records| == 0 ==> res == Ok([]))
      && (|records| > 0 && bucketsCount < 0 ==> res == Err(NegativeArraySize))
      && (|records| > 0 && bucketsCount == 0 ==> res == Err(IndexOutOfBounds))
      && (|records| > 0 && bucketsCount > 0 ==> res.Ok? && |res.value| == bucketsCount)
  {
    var records :- GetAfter(decode, store, identifier, after);
    Distribution(Values(value, records), bucketsCount)
  }

  /** Every record after `after` is counted in exactly one bucket. */
  lemma DistributionCountsRecords<T>(decode: Row -> Option<T>, value: T -> real, store: seq<Row>,
                                     identifier: string, after: int64, bucketsCount: int32)
    requires bucketsCount > 0
    requires GetAfter(decode, store, identifier, after).Ok?
    ensures var res := GetDistribution(decode, value, store, identifier, after, bucketsCount);
      res.Ok? && TotalCount(res.value) == |After(store, identifier, after)|
  {
    var vs := Values(value, GetAfter(decode, store, identifier, after).value);
    if |vs| > 0 {
      CountsSumToValues(vs, bucketsCount);
    }
  }

  // ---------------------------------------------------------------------------
  // Against the history repository.

  /** When every row after `after` decodes, the strict query returns what the
      history repository returns for the restriction "after `after`". */
  lemma AfterAgreesWithHistory<T>(decode: Row -> Option<T>, store: seq<Row>, identifier: string, after: int64)
    requires forall r :: r in store && r.identifier == identifier && r.timestamp > after ==> decode(r).Some?
    ensures GetAfter(decode, store, identifier, after)
         == Ok(CassandraRepository.Get(decode, store, identifier, TimeRestriction(None, Some(after), None)))
  {
    var tr := TimeRestriction(None, Some(after), None);
    var c1, c2 := [Gt(after)], [LowerClause(tr), UpperClause(tr)];
    assert c2 == [Gt(after), Lte(LONG_MAX)];
    assert Where(store, identifier, c1) == Where(store, identifier, c2) by {
      forall r | r in store
        ensures Matches(r, identifier, c1) <==> Matches(r, identifier, c2)
      {
        assert Holds(c1[0], r.timestamp) <==> Holds(c2[0], r.timestamp);
        assert Holds(c2[1], r.timestamp);
      }
      WhereCongruent(store, identifier, c1, c2);
    }
    StrictIsLenientWhenAllDecode(decode, Where(store, identifier, c1));
  }

  /** When the newest `count` rows decode, the strict query returns what the
      history repository returns for its newest records without a time
      restriction. */
  lemma LatestAgreesWithHistory<T>(decode: Row -> Option<T>, store: seq<Row>, identifier: string, count: int32)
    requires forall r :: r in store && r.identifier == identifier ==> decode(r).Some?
    ensures var unrestricted := TimeRestriction(None, None, None);
      GetLatest(decode, store, identifier, count)
        == CassandraRepository.GetLatest(decode, store, identifier, unrestricted, count)
  {
    var tr := TimeRestriction(None, None, None);
    var c1, c2 := [], [LowerClause(tr), UpperClause(tr)];
    assert c2 == [Gte(LONG_MIN), Lte(LONG_MAX)];
    assert Where(store, identifier, c1) == Where(store, identifier, c2) by {
      forall r | r in store
        ensures Matches(r, identifier, c1) <==> Matches(r, identifier, c2)
      {
        assert Holds(c2[0], r.timestamp) && Holds(c2[1], r.timestamp);
      }
      WhereCongruent(store, identifier, c1, c2);
    }
    if count > 0 {
      var all := Where(store, identifier, c1);
      var rows := Limit(OrderBy(Desc, all), count).value;
      assert forall r :: r in rows ==> decode(r).Some?;
      StrictIsLenientWhenAllDecode(decode, rows);
    }
  }
}

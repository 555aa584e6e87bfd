/** The store as the repositories see it: a sequence of rows, each with an
    identifier and a timestamp, queried with an identifier equality, timestamp
    clauses, an optional ordering by timestamp and an optional limit. */
module Store {
  import opened Primitives
  import opened TimeRestrictions

  /** A stored row: the key columns, and the remaining columns that a record
      decoder reads. */
  datatype Row = Row(identifier: string, timestamp: int64, columns: map<string, string>)

  /** The exceptions a query can end with. */
  datatype Failure =
    | InvalidLimit            // the driver rejects a LIMIT that is not positive
    | DecodeFailure           // a row the record factory cannot decode
    | NegativeArraySize       // a histogram with a negative bucket count
    | IndexOutOfBounds        // a histogram with no buckets for its values

  /** The WHERE clause: identifier equality and every given timestamp clause. */
  predicate Matches(r: Row, identifier: string, clauses: seq<Clause>) {
    r.identifier == identifier && forall i :: 0 <= i < |clauses| ==> Holds(clauses[i], r.timestamp)
  }

  /** The rows a WHERE clause selects, in store order. */
  function Where(rows: seq<Row>, identifier: string, clauses: seq<Clause>): (sel: seq<Row>)
    ensures |sel| <= |rows|
    ensures forall r :: r in sel <==> r in rows && Matches(r, identifier, clauses)
    ensures forall r :: Matches(r, identifier, clauses) ==> multiset(sel)[r] == multiset(rows)[r]
  {
    if |rows| == 0 then []
    else
      var init := Where(rows[..|rows| - 1], identifier, clauses);
      var last := rows[|rows| - 1];
      assert rows == rows[..|rows| - 1] + [last];
      if Matches(last, identifier, clauses) then init + [last] else init
  }

  /** Two WHERE clauses that select the same rows give the same result. */
  lemma {:induction false} WhereCongruent(rows: seq<Row>, identifier: string, c1: seq<Clause>, c2: seq<Clause>)
    requires forall r :: r in rows ==> (Matches(r, identifier, c1) <==> Matches(r, identifier, c2))
    ensures Where(rows, identifier, c1) == Where(rows, identifier, c2)
  {
    if |rows| > 0 {
      var init := rows[..|rows| - 1];
      assert forall r :: r in init ==> r in rows;
      WhereCongruent(init, identifier, c1, c2);
    }
  }

  // ---------------------------------------------------------------------------
  // ORDER BY timestamp.

  datatype Direction = Asc | Desc

  /** Whether row `a` may precede row `b` in the given direction. */
  predicate InOrder(dir: Direction, a: Row, b: Row) {
    match dir
    case Asc => a.timestamp <= b.timestamp
    case Desc => a.timestamp >= b.timestamp
  }

  predicate Sorted(dir: Direction, rows: seq<Row>) {
    forall i, j :: 0 <= i < j < |rows| ==> InOrder(dir, rows[i], rows[j])
  }

  /** Places `r` before the first row it may precede. */
  function Insert(dir: Direction, r: Row, rows: seq<Row>): (out: seq<Row>)
    requires Sorted(dir, rows)
    ensures Sorted(dir, out)
    ensures multiset(out) == multiset(rows) + multiset{r}
    ensures |out| == |rows| + 1
  {
    if |rows| == 0 then [r]
    else if InOrder(dir, r, rows[0]) then
      assert forall y :: y in rows ==> InOrder(dir, r, y) by {
        SortedHead(dir, rows);
      }
      SortedCons(dir, r, rows);
      [r] + rows
    else
      var tail := Insert(dir, r, rows[1..]);
      assert forall y :: y in tail ==> InOrder(dir, rows[0], y) by {
        SortedHead(dir, rows);
        assert forall y :: y in tail ==> y == r || y in rows[1..] by {
          assert forall y :: y in tail ==> y in multiset(rows[1..]) + multiset{r};
        }
      }
      SortedCons(dir, rows[0], tail);
      assert rows == [rows[0]] + rows[1..];
      [rows[0]] + tail
  }

  /** The head of a sorted sequence may precede every row of it. */
  lemma SortedHead(dir: Direction, rows: seq<Row>)
    requires Sorted(dir, rows) && |rows| > 0
    ensures forall y :: y in rows ==> InOrder(dir, rows[0], y)
  {
  }

  lemma SortedCons(dir: Direction, x: Row, rows: seq<Row>)
    requires Sorted(dir, rows)
    requires forall y :: y in rows ==> InOrder(dir, x, y)
    ensures Sorted(dir, [x] + rows)
  {
    var s := [x] + rows;
    forall i, j | 0 <= i < j < |s|
      ensures InOrder(dir, s[i], s[j])
    {
      assert s[j] == rows[j - 1];
      if i > 0 {
        assert s[i] == rows[i - 1];
      }
    }
  }

  /** The ORDER BY clause: the same rows, sorted by timestamp. */
  function OrderBy(dir: Direction, rows: seq<Row>): (out: seq<Row>)
    ensures Sorted(dir, out)
    ensures multiset(out) == multiset(rows)
    ensures |out| == |rows|
    ensures forall r :: r in out <==> r in rows
  {
    if |rows| == 0 then []
    else
      assert rows == [rows[0]] + rows[1..];
      var out := Insert(dir, rows[0], OrderBy(dir, rows[1..]));
      assert forall r :: r in out <==> r in rows by {
        assert forall r :: r in out <==> r in multiset(out);
        assert forall r :: r in rows <==> r in multiset(rows);
      }
      out
  }

  /** The LIMIT clause: at most `n` rows from the front; the driver refuses
      a limit that is not positive. */
  function Limit(rows: seq<Row>, n: int32): (res: Result<seq<Row>, Failure>)
    ensures res.Err? <==> n <= 0
    ensures res.Err? ==> res.error == InvalidLimit
    ensures res.Ok? ==> |res.value| == MinInt(n, |rows|) && res.value == rows[..|res.value|]
    ensures res.Ok? ==> forall r :: r in res.value ==> r in rows
  {
    if n <= 0 then Err(InvalidLimit)
    else
      var kept := rows[..MinInt(n, |rows|)];
      assert forall r :: r in kept ==> r in rows by {
        assert rows == kept + rows[|kept|..];
      }
      Ok(kept)
  }

  /** Sorting and cutting at `n` keeps the `n` rows that come first in the
      ordering: no dropped row may precede a kept one. */
  lemma {:induction false} TopRows(dir: Direction, rows: seq<Row>, n: int32)
    requires n > 0
    ensures var kept := Limit(OrderBy(dir, rows), n).value;
      var dropped := OrderBy(dir, rows)[|kept|..];
      && multiset(kept) + multiset(dropped) == multiset(rows)
      && forall a, b :: a in kept && b in dropped ==> InOrder(dir, a, b)
  {
    var sorted := OrderBy(dir, rows);
    var k := MinInt(n, |sorted|);
    assert sorted == sorted[..k] + sorted[k..];
    forall a, b | a in sorted[..k] && b in sorted[k..]
      ensures InOrder(dir, a, b)
    {
      var i :| 0 <= i < k && sorted[i] == a;
      var j :| 0 <= j < |sorted| - k && sorted[k..][j] == b;
      assert sorted[k + j] == b;
    }
  }

  // ---------------------------------------------------------------------------
  // Reconstructing records from rows. A decoder gives None where the record
  // factory raises a decode exception.

  /** How many of the rows decode to `x`, counted by position. */
  ghost function Decodings<T>(decode: Row -> Option<T>, rows: seq<Row>, x: T): (n: nat) {
    |set i | 0 <= i < |rows| && decode(rows[i]) == Some(x)|
  }

  /** How many of the rows do not decode, counted by position. */
  function Failures<T>(decode: Row -> Option<T>, rows: seq<Row>): (n: nat) {
    |set i | 0 <= i < |rows| && decode(rows[i]).None?|
  }

  /** Appending a row adds one to the count of the record it decodes to. */
  lemma DecodingsSnoc<T>(decode: Row -> Option<T>, rows: seq<Row>, r: Row)
    ensures forall x :: Decodings(decode, rows + [r], x)
                        == Decodings(decode, rows, x) + (if decode(r) == Some(x) then 1 else 0)
  {
    var all := rows + [r];
    forall x
      ensures Decodings(decode, all, x) == Decodings(decode, rows, x) + (if decode(r) == Some(x) then 1 else 0)
    {
      var a := set i | 0 <= i < |rows| && decode(rows[i]) == Some(x);
      var b := set i | 0 <= i < |all| && decode(all[i]) == Some(x);
      if decode(r) == Some(x) {
        assert b == a + {|rows|};
      } else {
        assert b == a;
      }
    }
  }

  /** Appending a row adds one failure exactly when it does not decode. */
  lemma FailuresSnoc<T>(decode: Row -> Option<T>, rows: seq<Row>, r: Row)
    ensures Failures(decode, rows + [r]) == Failures(decode, rows) + (if decode(r).None? then 1 else 0)
  {
    var all := rows + [r];
    var a := set i | 0 <= i < |rows| && decode(rows[i]).None?;
    var b := set i | 0 <= i < |all| && decode(all[i]).None?;
    if decode(r).None? {
      assert b == a + {|rows|};
    } else {
      assert b == a;
    }
  }

  /** The lenient loop: every row that decodes contributes its record, in row
      order; a row that does not decode is skipped. */
  function Execute<T>(decode: Row -> Option<T>, rows: seq<Row>): (out: seq<T>)
    ensures |out| <= |rows|
    ensures forall x :: x in out ==> exists r :: r in rows && decode(r) == Some(x)
    ensures forall r :: r in rows && decode(r).Some? ==> decode(r).value in out
  {
    if |rows| == 0 then []
    else
      var init := Execute(decode, rows[..|rows| - 1]);
      var last := rows[|rows| - 1];
      assert rows == rows[..|rows| - 1] + [last];
      match decode(last)
      case None => init
      case Some(x) => init + [x]
  }

  /** Each record occurs in the lenient loop's output as many times as there
      are rows decoding to it, and the records and the skipped rows together
      account for every row. */
  lemma {:induction false} ExecuteCounts<T>(decode: Row -> Option<T>, rows: seq<Row>)
    ensures forall x :: multiset(Execute(decode, rows))[x] == Decodings(decode, rows, x)
    ensures |Execute(decode, rows)| + Failures(decode, rows) == |rows|
  {
    if |rows| > 0 {
      var front, last := rows[..|rows| - 1], rows[|rows| - 1];
      assert rows == front + [last];
      ExecuteCounts(decode, front);
      DecodingsSnoc(decode, front, last);
      FailuresSnoc(decode, front, last);
    }
  }

  /** `ExecuteCounts` read at the positions of the output. */
  lemma ExecuteCountsAt<T>(decode: Row -> Option<T>, rows: seq<Row>)
    ensures var out := Execute(decode, rows);
      forall i :: 0 <= i < |out| ==> multiset(out)[out[i]] == Decodings(decode, rows, out[i])
    ensures |Execute(decode, rows)| + Failures(decode, rows) == |rows|
  {
    ExecuteCounts(decode, rows);
    var out := Execute(decode, rows);
    forall i | 0 <= i < |out|
      ensures multiset(out)[out[i]] == Decodings(decode, rows, out[i])
    {
      var x := out[i];
      assert multiset(out)[x] == Decodings(decode, rows, x);
    }
  }

  /** A single row gives its record, or nothing when it does not decode;
      with `ExecuteConcat` this fixes the lenient loop's output in row order. */
  lemma ExecuteSingle<T>(decode: Row -> Option<T>, r: Row)
    ensures Execute(decode, [r]) == if decode(r).Some? then [decode(r).value] else []
  {
  }

  /** Skipping distributes over row sequences: the rows before and after any
      cut are decoded independently. */
  lemma {:induction false} ExecuteConcat<T>(decode: Row -> Option<T>, a: seq<Row>, b: seq<Row>)
    ensures Execute(decode, a + b) == Execute(decode, a) + Execute(decode, b)
    decreases |b|
  {
    if |b| == 0 {
      assert a + b == a;
    } else {
      var b' := b[..|b| - 1];
      assert (a + b)[..|a + b| - 1] == a + b';
      ExecuteConcat(decode, a, b');
    }
  }

  /** Rows that all fail to decode give no records. */
  lemma {:induction false} ExecuteNone<T>(decode: Row -> Option<T>, rows: seq<Row>)
    requires forall r :: r in rows ==> decode(r).None?
    ensures Execute(decode, rows) == []
  {
    if |rows| > 0 {
      var init := rows[..|rows| - 1];
      assert forall r :: r in init ==> r in rows;
      ExecuteNone(decode, init);
    }
  }

  /** A row that decodes is never lost: the output is as long as the rows
      exactly when every row decodes. */
  lemma {:induction false} ExecuteComplete<T>(decode: Row -> Option<T>, rows: seq<Row>)
    ensures |Execute(decode, rows)| == |rows| <==> forall r :: r in rows ==> decode(r).Some?
  {
    if |rows| > 0 {
      var init := rows[..|rows| - 1];
      ExecuteComplete(decode, init);
      assert rows == init + [rows[|rows| - 1]];
    }
  }

  /** The strict loop: every row is decoded, in order, and the first row that
      does not decode ends the query with its exception. */
  function StrictExecute<T>(decode: Row -> Option<T>, rows: seq<Row>): (res: Result<seq<T>, Failure>)
    ensures res.Err? <==> exists r :: r in rows && decode(r).None?
    ensures res.Err? ==> res.error == DecodeFailure
    ensures res.Ok? ==> |res.value| == |rows|
    ensures res.Ok? ==> forall i :: 0 <= i < |rows| ==> decode(rows[i]) == Some(res.value[i])
  {
    if |rows| == 0 then Ok([])
    else
      var init := rows[..|rows| - 1];
      var last := rows[|rows| - 1];
      assert rows == init + [last];
      var xs :- StrictExecute(decode, init);
      match decode(last)
      case None => Err(DecodeFailure)
      case Some(x) => Ok(xs + [x])
  }

  /** When every row decodes, the strict and the lenient loop agree. */
  lemma {:induction false} StrictIsLenientWhenAllDecode<T>(decode: Row -> Option<T>, rows: seq<Row>)
    requires forall r :: r in rows ==> decode(r).Some?
    ensures StrictExecute(decode, rows) == Ok(Execute(decode, rows))
  {
    if |rows| > 0 {
      var init := rows[..|rows| - 1];
      assert forall r :: r in init ==> r in rows;
      StrictIsLenientWhenAllDecode(decode, init);
    }
  }
}

/** The per-group aggregation state: the last value seen for each key, and the
    `LongSummaryStatistics` computed over those values. */
module SensorHistory {
  import opened Primitives

  /** A map key as it is written on the wire: the key's UTF-8 bytes. */
  type Key = seq<byte>

  datatype History = History(lastValues: map<Key, int64>)

  /** The state a group starts from. */
  function EmptyHistory(): (h: History) {
    History(map[])
  }

  /** `update`: a map put. */
  function Update(h: History, key: Key, value: int64): (h': History)
    ensures key in h'.lastValues && h'.lastValues[key] == value
    ensures h'.lastValues.Keys == h.lastValues.Keys + {key}
    ensures forall k :: k in h.lastValues && k != key ==> h'.lastValues[k] == h.lastValues[k]
  {
    History(h.lastValues[key := value])
  }

  /** Putting the same value twice is putting it once. */
  lemma UpdateIdempotent(h: History, key: Key, value: int64)
    ensures Update(Update(h, key, value), key, value) == Update(h, key, value)
  {
  }

  /** A later put of a key replaces an earlier one. */
  lemma UpdateOverwrites(h: History, key: Key, v1: int64, v2: int64)
    ensures Update(Update(h, key, v1), key, v2) == Update(h, key, v2)
  {
  }

  /** Puts of different keys can be applied in either order. */
  lemma UpdateCommutes(h: History, k1: Key, v1: int64, k2: Key, v2: int64)
    requires k1 != k2
    ensures Update(Update(h, k1, v1), k2, v2) == Update(Update(h, k2, v2), k1, v1)
  {
  }

  // ---------------------------------------------------------------------------
  // Enumerating a map: the iteration order of a hash map is not specified, so
  // every operation that walks the entries takes the order as a parameter.

  predicate Distinct<X(==)>(s: seq<X>) {
    forall i, j :: 0 <= i < j < |s| ==> s[i] != s[j]
  }

  /** `order` lists every key of `keys` exactly once. */
  ghost predicate IsEnumeration(order: seq<Key>, keys: set<Key>) {
    Distinct(order) && forall k :: k in order <==> k in keys
  }

  /** The values of `m` in the order the keys are listed. */
  function ValuesIn(m: map<Key, int64>, order: seq<Key>): (vs: seq<int64>)
    requires forall k :: k in order ==> k in m
    ensures |vs| == |order|
    ensures forall i :: 0 <= i < |order| ==> vs[i] == m[order[i]]
  {
    if |order| == 0 then [] else ValuesIn(m, order[..|order| - 1]) + [m[order[|order| - 1]]]
  }

  lemma ValuesInConcat(m: map<Key, int64>, a: seq<Key>, b: seq<Key>)
    requires forall k :: k in a + b ==> k in m
    ensures ValuesIn(m, a + b) == ValuesIn(m, a) + ValuesIn(m, b)
  {
    var l, r := ValuesIn(m, a + b), ValuesIn(m, a) + ValuesIn(m, b);
    assert |l| == |r|;
    forall i | 0 <= i < |l|
      ensures l[i] == r[i]
    {
      if i >= |a| {
        assert (a + b)[i] == b[i - |a|];
      }
    }
  }

  /** A duplicate-free sequence has as many elements as its set. */
  lemma {:induction false} DistinctCardinality(s: seq<Key>)
    requires Distinct(s)
    ensures |set k | k in s| == |s|
  {
    if |s| > 0 {
      var init := s[..|s| - 1];
      DistinctCardinality(init);
      var last := s[|s| - 1];
      assert (set k | k in s) == (set k | k in init) + {last};
      assert last !in init;
    }
  }

  lemma EnumerationLength(order: seq<Key>, keys: set<Key>)
    requires IsEnumeration(order, keys)
    ensures |order| == |keys|
  {
    DistinctCardinality(order);
    assert (set k | k in order) == keys;
  }

  /** Dropping position j from a duplicate-free sequence drops exactly s[j]. */
  lemma RemoveAt(s: seq<Key>, j: nat)
    requires Distinct(s) && j < |s|
    ensures Distinct(s[..j] + s[j + 1..])
    ensures forall k :: k in s[..j] + s[j + 1..] <==> k in s && k != s[j]
  {
    var t := s[..j] + s[j + 1..];
    assert forall i :: 0 <= i < |t| ==> t[i] == if i < j then s[i] else s[i + 1];
    forall k | k in s && k != s[j]
      ensures k in t
    {
      var i :| 0 <= i < |s| && s[i] == k;
      if i < j { assert t[i] == k; } else { assert t[i - 1] == k; }
    }
  }

  // ---------------------------------------------------------------------------
  // Sums. The mathematical sum; Java's long sum is its wrap-around.

  function Sum(vs: seq<int>): (s: int) {
    if |vs| == 0 then 0 else Sum(vs[..|vs| - 1]) + vs[|vs| - 1]
  }

  lemma {:induction false} SumConcat(a: seq<int>, b: seq<int>)
    ensures Sum(a + b) == Sum(a) + Sum(b)
    decreases |b|
  {
    if |b| > 0 {
      assert (a + b)[..|a + b| - 1] == a + b[..|b| - 1];
      SumConcat(a, b[..|b| - 1]);
    } else {
      assert a + b == a;
    }
  }

  /** Taking one key out of the enumeration takes its value out of the sum. */
  lemma SumWithout(m: map<Key, int64>, o: seq<Key>, j: nat)
    requires j < |o| && forall k :: k in o ==> k in m
    ensures Sum(ValuesIn(m, o)) == Sum(ValuesIn(m, o[..j] + o[j + 1..])) + m[o[j]]
  {
    assert o == o[..j] + [o[j]] + o[j + 1..];
    ValuesInConcat(m, o[..j] + [o[j]], o[j + 1..]);
    ValuesInConcat(m, o[..j], [o[j]]);
    ValuesInConcat(m, o[..j], o[j + 1..]);
    var a, c := ValuesIn(m, o[..j]), ValuesIn(m, o[j + 1..]);
    SumConcat(a + [m[o[j]]], c);
    SumConcat(a, c);
  }

  /** Removing the same key from two enumerations of one key set leaves two
      enumerations of one key set. */
  lemma RemoveFromBoth(o1: seq<Key>, o2: seq<Key>, j: nat, o1': seq<Key>, o2': seq<Key>)
    requires Distinct(o1) && Distinct(o2) && |o1| > 0 && j < |o2|
    requires forall k :: k in o1 <==> k in o2
    requires o2[j] == o1[|o1| - 1]
    requires o1' == o1[..|o1| - 1] && o2' == o2[..j] + o2[j + 1..]
    ensures Distinct(o1') && Distinct(o2')
    ensures forall k :: k in o1' <==> k in o2'
  {
    var n, x := |o1|, o2[j];
    RemoveAt(o1, n - 1);
    RemoveAt(o2, j);
    assert o1[..n - 1] + o1[n..] == o1';
    forall k
      ensures k in o1' <==> k in o2'
    {
      assert k in o1' <==> k in o1 && k != x;
      assert k in o2' <==> k in o2 && k != x;
    }
  }

  /** The sum over a map's values does not depend on the order the keys are
      visited in. */
  lemma {:induction false} SumOrderIndependent(m: map<Key, int64>, o1: seq<Key>, o2: seq<Key>)
    requires Distinct(o1) && Distinct(o2)
    requires forall k :: k in o1 <==> k in o2
    requires forall k :: k in o1 ==> k in m
    ensures Sum(ValuesIn(m, o1)) == Sum(ValuesIn(m, o2))
    decreases |o1|
  {
    if |o1| == 0 {
      EnumerationLength(o2, set k | k in o1);
    } else {
      var n := |o1|;
      assert o1[n - 1] in o2;
      var j :| 0 <= j < |o2| && o2[j] == o1[n - 1];
      var o1', o2' := o1[..n - 1], o2[..j] + o2[j + 1..];
      RemoveFromBoth(o1, o2, j, o1', o2');
      assert forall k :: k in o1' ==> k in o1;
      SumOrderIndependent(m, o1', o2');
      SumStep(m, o1, o2, j);
    }
  }

  /** The inductive step: the last key of one order sits at position `j` of
      the other, and the sums without it agree. */
  lemma SumStep(m: map<Key, int64>, o1: seq<Key>, o2: seq<Key>, j: nat)
    requires |o1| > 0 && j < |o2| && o2[j] == o1[|o1| - 1]
    requires forall k :: k in o1 ==> k in m
    requires forall k :: k in o2 ==> k in m
    requires Sum(ValuesIn(m, o1[..|o1| - 1])) == Sum(ValuesIn(m, o2[..j] + o2[j + 1..]))
    ensures Sum(ValuesIn(m, o1)) == Sum(ValuesIn(m, o2))
  {
    SumWithout(m, o2, j);
    SumLast(m, o1);
  }

  lemma SumLast(m: map<Key, int64>, o: seq<Key>)
    requires |o| > 0 && forall k :: k in o ==> k in m
    ensures Sum(ValuesIn(m, o)) == Sum(ValuesIn(m, o[..|o| - 1])) + m[o[|o| - 1]]
  {
    var vs := ValuesIn(m, o);
    assert vs[..|vs| - 1] == ValuesIn(m, o[..|o| - 1]);
  }

  // ---------------------------------------------------------------------------
  // LongSummaryStatistics.

  datatype Summary = Summary(count: nat, sum: int64, min: int64, max: int64)

  /** The statistics of no values: `min` and `max` start at the opposite ends of
      the long range. */
  const EMPTY_SUMMARY: Summary := Summary(0, 0, LONG_MAX, LONG_MIN)

  /** `accept(value)`: one more value; the sum wraps around like Java's `+=`. */
  function Accept(s: Summary, v: int64): (s': Summary) {
    Summary(s.count + 1, Wrap64(s.sum + v),
            if v < s.min then v else s.min,
            if v > s.max then v else s.max)
  }

  /** The statistics of a stream of longs, accepted left to right. */
  function Summarize(vs: seq<int64>): (s: Summary)
    ensures s.count == |vs|
    ensures s.sum == Wrap64(Sum(vs))
    ensures forall i :: 0 <= i < |vs| ==> s.min <= vs[i] <= s.max
    ensures |vs| > 0 ==> s.min in vs && s.max in vs
    ensures |vs| == 0 ==> s == EMPTY_SUMMARY
  {
    if |vs| == 0 then EMPTY_SUMMARY
    else
      var init, last := vs[..|vs| - 1], vs[|vs| - 1];
      var p := Summarize(init);
      Wrap64AddLeft(Sum(init), last);
      assert vs == init + [last];
      Accept(p, last)
  }

  /** `getSummaryStatistics` over the map's values, visited in `order`. */
  function SummaryStatistics(h: History, order: seq<Key>): (s: Summary)
    requires IsEnumeration(order, h.lastValues.Keys)
    ensures s.count == |h.lastValues|
    ensures s.sum == Wrap64(Sum(ValuesIn(h.lastValues, order)))
    ensures forall k :: k in h.lastValues ==> s.min <= h.lastValues[k] <= s.max
    ensures |h.lastValues| > 0 ==>
      (exists k :: k in h.lastValues && h.lastValues[k] == s.min) &&
      (exists k :: k in h.lastValues && h.lastValues[k] == s.max)
    ensures |h.lastValues| == 0 ==> s == EMPTY_SUMMARY
  {
    MapStatistics(h.lastValues, order);
    Summarize(ValuesIn(h.lastValues, order))
  }

  lemma MapStatistics(m: map<Key, int64>, order: seq<Key>)
    requires IsEnumeration(order, m.Keys)
    ensures var s := Summarize(ValuesIn(m, order));
      && s.count == |m|
      && (forall k :: k in m ==> s.min <= m[k] <= s.max)
      && (|m| > 0 ==>
            (exists k :: k in m && m[k] == s.min) && (exists k :: k in m && m[k] == s.max))
  {
    var vs := ValuesIn(m, order);
    EnumerationLength(order, m.Keys);
    assert |m| == |m.Keys|;
    var s := Summarize(vs);
    forall k | k in m
      ensures s.min <= m[k] <= s.max
    {
      var i :| 0 <= i < |order| && order[i] == k;
      assert vs[i] == m[k];
    }
    if |m| > 0 {
      var i :| 0 <= i < |vs| && vs[i] == s.min;
      assert m[order[i]] == s.min;
      var j :| 0 <= j < |vs| && vs[j] == s.max;
      assert m[order[j]] == s.max;
    }
  }

  /** The statistics do not depend on the iteration order of the map. */
  lemma SummaryOrderIndependent(h: History, o1: seq<Key>, o2: seq<Key>)
    requires IsEnumeration(o1, h.lastValues.Keys) && IsEnumeration(o2, h.lastValues.Keys)
    ensures SummaryStatistics(h, o1) == SummaryStatistics(h, o2)
  {
    var s1, s2 := SummaryStatistics(h, o1), SummaryStatistics(h, o2);
    assert s1.sum == s2.sum by {
      SumOrderIndependent(h.lastValues, o1, o2);
    }
    if |h.lastValues| > 0 {
      SameExtremes(h.lastValues, s1, s2);
    }
  }

  /** Two bounds that are both attained by values of the map are equal. */
  lemma SameExtremes(m: map<Key, int64>, s1: Summary, s2: Summary)
    requires forall k :: k in m ==> s1.min <= m[k] <= s1.max && s2.min <= m[k] <= s2.max
    requires exists k :: k in m && m[k] == s1.min
    requires exists k :: k in m && m[k] == s2.min
    requires exists k :: k in m && m[k] == s1.max
    requires exists k :: k in m && m[k] == s2.max
    ensures s1.min == s2.min && s1.max == s2.max
  {
    var a :| a in m && m[a] == s1.min;
    var b :| b in m && m[b] == s2.min;
    var c :| c in m && m[c] == s1.max;
    var d :| d in m && m[d] == s2.max;
  }

  /** `getAverage`: the (wrapped) sum over the count, zero when there are no values. */
  function Average(s: Summary): (a: real) {
    if s.count > 0 then s.sum as real / s.count as real else 0.0
  }

  lemma {:induction false} SumBounds(vs: seq<int64>, lo: int, hi: int)
    requires forall i :: 0 <= i < |vs| ==> lo <= vs[i] <= hi
    ensures |vs| * lo <= Sum(vs) <= |vs| * hi
  {
    if |vs| > 0 {
      SumBounds(vs[..|vs| - 1], lo, hi);
      assert |vs| * lo == (|vs| - 1) * lo + lo;
      assert |vs| * hi == (|vs| - 1) * hi + hi;
    }
  }

  /** When the sum does not overflow, the average lies between min and max. */
  lemma AverageBetweenMinAndMax(vs: seq<int64>)
    requires |vs| > 0
    requires LONG_MIN <= Sum(vs) <= LONG_MAX
    ensures var s := Summarize(vs);
      s.min as real <= Average(s) <= s.max as real
  {
    var s := Summarize(vs);
    SumBounds(vs, s.min, s.max);
    DivBetween(Sum(vs), |vs|, s.min, s.max);
  }

  lemma DivBetween(x: int, n: int, lo: int, hi: int)
    requires n > 0 && n * lo <= x <= n * hi
    ensures lo as real <= x as real / n as real <= hi as real
  {
    var rn := n as real;
    assert (n * lo) as real == rn * lo as real;
    assert (n * hi) as real == rn * hi as real;
    RealDivBetween(x as real, rn, lo as real, hi as real);
  }

  lemma RealDivBetween(x: real, n: real, lo: real, hi: real)
    requires n > 0.0 && n * lo <= x <= n * hi
    ensures lo <= x / n <= hi
  {
  }
}

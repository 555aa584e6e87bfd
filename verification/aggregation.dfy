/** The aggregation topology: every reading is fanned out to the groups its
    sensor belongs to, and each group keeps the last value of every sensor
    whose readings reached it. */
module Aggregation {
  import opened Primitives
  import opened SensorHistory
  import opened ReadingCodec

  /** The part of the sensor registry the topology consults: the identifiers of
      a sensor's parent groups, or None for a sensor the registry does not know. */
  type Registry = Key -> Option<seq<Key>>

  /** The parent groups of a reading's sensor; none for an unknown sensor. */
  function Parents(registry: Registry, r: PowerReading): (parents: seq<Key>) {
    match registry(r.identifier)
    case None => []
    case Some(parents) => parents
  }

  /** Whether the fan-out sends reading `r` to group `g`. */
  predicate Routed(registry: Registry, r: PowerReading, g: Key) {
    registry(r.identifier).Some? && g in registry(r.identifier).value
  }

  /** The flatMap step: the reading re-keyed by each parent group of its sensor,
      in the order the registry lists the parents. */
  function FlatMap(registry: Registry, r: PowerReading): (out: seq<(Key, PowerReading)>)
    ensures registry(r.identifier).None? ==> out == []
    ensures |out| == |Parents(registry, r)|
    ensures forall i :: 0 <= i < |out| ==> out[i].1 == r
    ensures forall i :: 0 <= i < |out| ==> out[i].0 == Parents(registry, r)[i]
    ensures forall g :: (g, r) in out <==> Routed(registry, r, g)
  {
    var parents := Parents(registry, r);
    var out := seq(|parents|, i requires 0 <= i < |parents| => (parents[i], r));
    assert forall g :: (g, r) in out ==> g in parents by {
      forall g | (g, r) in out ensures g in parents {
        var i :| 0 <= i < |out| && out[i] == (g, r);
      }
    }
    assert forall g :: g in parents ==> (g, r) in out by {
      forall g | g in parents ensures (g, r) in out {
        var i :| 0 <= i < |parents| && parents[i] == g;
        assert out[i] == (g, r);
      }
    }
    out
  }

  /** The aggregator lambda as the topology states it: the reading is recorded
      under the group's own key. */
  function AggregateAsWritten(groupKey: Key, r: PowerReading, agg: History): (h: History)
    ensures h.lastValues.Keys == agg.lastValues.Keys + {groupKey}
    ensures h.lastValues[groupKey] == r.powerInWh
    ensures forall k :: k in agg.lastValues && k != groupKey ==> h.lastValues[k] == agg.lastValues[k]
  {
    Update(agg, groupKey, r.powerInWh)
  }

  /** The corrected aggregator: `lastValues` holds one entry per child of the
      group, so the reading is recorded under its sensor's identifier and each
      child keeps its last value. */
  function Aggregate(groupKey: Key, r: PowerReading, agg: History): (h: History)
    ensures h.lastValues.Keys == agg.lastValues.Keys + {r.identifier}
    ensures h.lastValues[r.identifier] == r.powerInWh
    ensures forall k :: k in agg.lastValues && k != r.identifier ==> h.lastValues[k] == agg.lastValues[k]
  {
    Update(agg, r.identifier, r.powerInWh)
  }

  /** Which of the two aggregators a run uses. */
  datatype Aggregator = AsWritten | Corrected

  /** The key an aggregator records reading `r` under in group `g`. */
  function KeyFor(agg: Aggregator, g: Key, r: PowerReading): (k: Key) {
    match agg
    case AsWritten => g
    case Corrected => r.identifier
  }

  function Apply(agg: Aggregator, g: Key, r: PowerReading, h: History): (h': History)
    ensures h' == Update(h, KeyFor(agg, g, r), r.powerInWh)
  {
    match agg
    case AsWritten => AggregateAsWritten(g, r, h)
    case Corrected => Aggregate(g, r, h)
  }

  /** The aggregated table: one history per group key. */
  type Tables = map<Key, History>

  /** A group's current history; the initializer's empty history for a group
      that has received nothing yet. */
  function Lookup(t: Tables, g: Key): (h: History) {
    if g in t then t[g] else EmptyHistory()
  }

  /** Feeds re-keyed readings, in order, to the grouped aggregation. */
  function Dispatch(agg: Aggregator, pairs: seq<(Key, PowerReading)>, t: Tables): (t': Tables)
    ensures t.Keys <= t'.Keys
    decreases |pairs|
  {
    if |pairs| == 0 then t
    else
      var g := pairs[0].0;
      Dispatch(agg, pairs[1..], t[g := Apply(agg, g, pairs[0].1, Lookup(t, g))])
  }

  /** The whole topology over a stream of readings, starting from an empty table. */
  function Run(agg: Aggregator, registry: Registry, records: seq<PowerReading>): (t: Tables)
  {
    if |records| == 0 then map[]
    else
      var n := |records|;
      Dispatch(agg, FlatMap(registry, records[n - 1]), Run(agg, registry, records[..n - 1]))
  }

  /** Feeding one reading's fan-out changes exactly the groups it is routed to,
      each by one update; a group listed twice gets the same update twice,
      which is the same as once. */
  lemma {:induction false} DispatchGroup(agg: Aggregator, pairs: seq<(Key, PowerReading)>, r: PowerReading,
                                         t: Tables, g: Key)
    requires forall i :: 0 <= i < |pairs| ==> pairs[i].1 == r
    ensures g in Dispatch(agg, pairs, t) <==> g in t || (g, r) in pairs
    ensures Lookup(Dispatch(agg, pairs, t), g)
         == if (g, r) in pairs then Update(Lookup(t, g), KeyFor(agg, g, r), r.powerInWh) else Lookup(t, g)
    decreases |pairs|
  {
    if |pairs| > 0 {
      var g0 := pairs[0].0;
      assert pairs[0] == (g0, r);
      var t1 := t[g0 := Apply(agg, g0, r, Lookup(t, g0))];
      DispatchGroup(agg, pairs[1..], r, t1, g);
      assert (g, r) in pairs <==> g == g0 || (g, r) in pairs[1..] by {
        assert pairs == [pairs[0]] + pairs[1..];
      }
      if g == g0 && (g, r) in pairs[1..] {
        UpdateIdempotent(Lookup(t, g), KeyFor(agg, g, r), r.powerInWh);
      }
    }
  }

  /** One reading moves a group only if the fan-out routes it there. */
  lemma StepGroup(agg: Aggregator, registry: Registry, records: seq<PowerReading>, g: Key)
    requires |records| > 0
    ensures var n := |records|; var r := records[n - 1];
      var before := Run(agg, registry, records[..n - 1]);
      var after := Run(agg, registry, records);
      && (g in after <==> g in before || Routed(registry, r, g))
      && Lookup(after, g)
         == if Routed(registry, r, g) then Update(Lookup(before, g), KeyFor(agg, g, r), r.powerInWh)
            else Lookup(before, g)
  {
    var n := |records|;
    var r := records[n - 1];
    DispatchGroup(agg, FlatMap(registry, r), r, Run(agg, registry, records[..n - 1]), g);
  }

  /** The groups of the table are exactly those some reading was routed to. */
  lemma {:induction false} RunGroups(agg: Aggregator, registry: Registry, records: seq<PowerReading>, g: Key)
    ensures g in Run(agg, registry, records) <==>
      exists i :: 0 <= i < |records| && Routed(registry, records[i], g)
  {
    if |records| > 0 {
      var n := |records|;
      var init := records[..n - 1];
      RunGroups(agg, registry, init, g);
      StepGroup(agg, registry, records, g);
      if g in Run(agg, registry, records) && !Routed(registry, records[n - 1], g) {
        var i :| 0 <= i < |init| && Routed(registry, init[i], g);
        assert records[i] == init[i];
      }
      if exists i :: 0 <= i < |records| && Routed(registry, records[i], g) {
        var i :| 0 <= i < |records| && Routed(registry, records[i], g);
        if i < n - 1 {
          assert init[i] == records[i];
        }
      }
    }
  }

  /** Whether aggregator `agg` records reading `r` under key `k` of group `g`. */
  predicate Records(agg: Aggregator, registry: Registry, r: PowerReading, g: Key, k: Key) {
    Routed(registry, r, g) && KeyFor(agg, g, r) == k
  }

  /** Reference definition: the value of the last reading that aggregator `agg`
      records under key `k` of group `g`, if any. */
  function LastReading(agg: Aggregator, registry: Registry, records: seq<PowerReading>, g: Key, k: Key)
    : (v: Option<int32>)
    ensures v.None? <==> forall i :: 0 <= i < |records| ==> !Records(agg, registry, records[i], g, k)
    ensures v.Some? ==> exists i :: (0 <= i < |records|
      && Records(agg, registry, records[i], g, k) && records[i].powerInWh == v.value
      && forall j :: i < j < |records| ==> !Records(agg, registry, records[j], g, k))
  {
    if |records| == 0 then None
    else
      var n := |records|;
      var r := records[n - 1];
      if Records(agg, registry, r, g, k) then Some(r.powerInWh)
      else
        var v := LastReading(agg, registry, records[..n - 1], g, k);
        assert forall i :: 0 <= i < n - 1 ==> records[..n - 1][i] == records[i];
        v
  }

  /** A group's history maps each key to the value of the last reading recorded
      under it, and holds nothing else. With the corrected aggregator the keys
      are the sensors that reached the group; as written, the only possible
      key is the group's own. */
  lemma {:induction false} RunLastValues(agg: Aggregator, registry: Registry, records: seq<PowerReading>,
                                         g: Key, k: Key)
    ensures var h := Lookup(Run(agg, registry, records), g);
      && (k in h.lastValues <==> LastReading(agg, registry, records, g, k).Some?)
      && (k in h.lastValues ==> h.lastValues[k] == LastReading(agg, registry, records, g, k).value)
  {
    if |records| > 0 {
      RunLastValues(agg, registry, records[..|records| - 1], g, k);
      StepGroup(agg, registry, records, g);
    }
  }

  /** As written, every group's history holds at most its own key, mapped to
      the last value routed to the group from any of its sensors. */
  lemma AsWrittenKeys(registry: Registry, records: seq<PowerReading>, g: Key)
    ensures Lookup(Run(AsWritten, registry, records), g).lastValues.Keys <= {g}
  {
    forall k | k in Lookup(Run(AsWritten, registry, records), g).lastValues
      ensures k == g
    {
      RunLastValues(AsWritten, registry, records, g, k);
    }
  }

  /** As written, a group's statistics count at most one value, however many
      sensors feed it. */
  lemma AsWrittenCountsOne(registry: Registry, records: seq<PowerReading>, g: Key, order: seq<Key>)
    requires IsEnumeration(order, Lookup(Run(AsWritten, registry, records), g).lastValues.Keys)
    ensures SummaryStatistics(Lookup(Run(AsWritten, registry, records), g), order).count <= 1
  {
    var h := Lookup(Run(AsWritten, registry, records), g);
    AsWrittenKeys(registry, records, g);
    assert |h.lastValues.Keys| <= |{g}| by {
      SubsetCardinality(h.lastValues.Keys, {g});
    }
  }

  lemma SubsetCardinality(a: set<Key>, b: set<Key>)
    requires a <= b
    ensures |a| <= |b|
  {
    assert b == a + (b - a);
  }

  /** ASCII bytes of "dev1", "dev2" and "room1". */
  const DEV1: Key := [100, 101, 118, 49]
  const DEV2: Key := [100, 101, 118, 50]
  const ROOM1: Key := [114, 111, 111, 109, 49]

  /** A registry in which both sensors belong to one room. */
  function ExampleRegistry(id: Key): (parents: Option<seq<Key>>) {
    if id == DEV1 || id == DEV2 then Some([ROOM1]) else None
  }

  /** One reading of 10 Wh from dev1, then one of 20 Wh from dev2. */
  function ExampleRecords(): (records: seq<PowerReading>) {
    [PowerReading(DEV1, 1000, 10), PowerReading(DEV2, 1001, 20)]
  }

  /** As written, the room's history is the single entry room1 -> 20: the
      first reading is overwritten by the second and the statistics see one
      value. */
  lemma AsWrittenExample()
    ensures Lookup(Run(AsWritten, ExampleRegistry, ExampleRecords()), ROOM1) == History(map[ROOM1 := 20])
    ensures SummaryStatistics(History(map[ROOM1 := 20]), [ROOM1]) == Summary(1, 20, 20, 20)
  {
    var records := ExampleRecords();
    StepGroup(AsWritten, ExampleRegistry, records, ROOM1);
    StepGroup(AsWritten, ExampleRegistry, records[..1], ROOM1);
    assert records[..1][..0] == [];
    assert map[ROOM1 := 10][ROOM1 := 20] == map[ROOM1 := 20];
    SingleStatistics(ROOM1, 20);
  }

  /** Corrected, the room keeps both sensors: sum 30, count 2, min 10, max 20. */
  lemma CorrectedExample()
    ensures Lookup(Run(Corrected, ExampleRegistry, ExampleRecords()), ROOM1)
         == History(map[DEV1 := 10, DEV2 := 20])
    ensures SummaryStatistics(History(map[DEV1 := 10, DEV2 := 20]), [DEV1, DEV2]) == Summary(2, 30, 10, 20)
  {
    var records := ExampleRecords();
    StepGroup(Corrected, ExampleRegistry, records, ROOM1);
    StepGroup(Corrected, ExampleRegistry, records[..1], ROOM1);
    assert records[..1][..0] == [];
    TwoStatistics(DEV1, 10, DEV2, 20);
  }

  /** The statistics of two distinct sensors' values. */
  lemma TwoStatistics(k1: Key, v1: int64, k2: Key, v2: int64)
    requires k1 != k2 && v1 <= v2
    ensures IsEnumeration([k1, k2], map[k1 := v1, k2 := v2].Keys)
    ensures SummaryStatistics(History(map[k1 := v1, k2 := v2]), [k1, k2]) == Summary(2, Wrap64(v1 + v2), v1, v2)
  {
    var m := map[k1 := v1, k2 := v2];
    TwoEnumeration(k1, v1, k2, v2);
    var s := SummaryStatistics(History(m), [k1, k2]);
    assert s.sum == Wrap64(v1 + v2) by {
      var vs := ValuesIn(m, [k1, k2]);
      assert vs[0] == v1 && vs[1] == v2;
      assert vs == [v1, v2];
      SumTwo(v1, v2);
    }
    assert s.min == v1 && s.max == v2 by {
      TwoExtremes(m, k1, v1, k2, v2, s);
    }
  }

  lemma TwoEnumeration(k1: Key, v1: int64, k2: Key, v2: int64)
    requires k1 != k2
    ensures map[k1 := v1, k2 := v2].Keys == {k1, k2}
    ensures IsEnumeration([k1, k2], map[k1 := v1, k2 := v2].Keys)
    ensures |map[k1 := v1, k2 := v2]| == 2
  {
    var m := map[k1 := v1, k2 := v2];
    assert |m.Keys| == |{k1, k2}|;
    assert {k1, k2} == {k1} + {k2};
  }

  lemma TwoExtremes(m: map<Key, int64>, k1: Key, v1: int64, k2: Key, v2: int64, s: Summary)
    requires m == map[k1 := v1, k2 := v2] && k1 != k2 && v1 <= v2
    requires forall k :: k in m ==> s.min <= m[k] <= s.max
    requires exists k :: k in m && m[k] == s.min
    requires exists k :: k in m && m[k] == s.max
    ensures s.min == v1 && s.max == v2
  {
    assert k1 in m && k2 in m;
    assert forall k :: k in m ==> m[k] == v1 || m[k] == v2;
  }

  lemma SumOne(a: int)
    ensures Sum([a]) == a
  {
    assert [a][..0] == [];
  }

  lemma SumTwo(a: int, b: int)
    ensures Sum([a, b]) == a + b
  {
    var one, two := [a], [a, b];
    assert one[..0] == [];
    assert Sum(one) == Sum(one[..0]) + a;
    assert two[..1] == one;
    assert Sum(two) == Sum(one) + b;
  }

  lemma SingleStatistics(k: Key, v: int64)
    ensures SummaryStatistics(History(map[k := v]), [k]) == Summary(1, v, v, v)
  {
    var m := map[k := v];
    SingleEnumeration(k, v);
    var s := SummaryStatistics(History(m), [k]);
    assert s.sum == v by {
      var vs := ValuesIn(m, [k]);
      assert vs == [v];
      SumOne(v);
    }
    SingleExtremes(m, k, v, s);
  }

  lemma SingleEnumeration(k: Key, v: int64)
    ensures map[k := v].Keys == {k}
    ensures IsEnumeration([k], map[k := v].Keys)
    ensures |map[k := v]| == 1
  {
  }

  lemma SingleExtremes(m: map<Key, int64>, k: Key, v: int64, s: Summary)
    requires m == map[k := v]
    requires forall j :: j in m ==> s.min <= m[j] <= s.max
    requires exists j :: j in m && m[j] == s.min
    requires exists j :: j in m && m[j] == s.max
    ensures s.min == v && s.max == v
  {
    assert forall j :: j in m ==> m[j] == v;
  }
}

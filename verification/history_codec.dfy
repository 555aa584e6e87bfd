/** The byte format of a group's aggregation-state snapshot in the state store:
    a 4-byte entry count, then per entry a 4-byte key length, the key's UTF-8
    bytes and the 8-byte value, all big-endian. */
module HistoryCodec {
  import opened Primitives
  import opened BigEndian
  import opened SensorHistory

  /** Capacity of the direct buffer the serializer writes into. */
  const BUFFER_CAPACITY: int := 65536

  /** Bytes one entry occupies: length, key, value. */
  function EntrySize(k: Key): (n: nat) {
    4 + |k| + 8
  }

  function EntriesSize(order: seq<Key>): (n: nat)
    ensures n >= 12 * |order|
  {
    if |order| == 0 then 0 else EntrySize(order[0]) + EntriesSize(order[1..])
  }

  /** Every entry fits within the whole. */
  lemma {:induction false} EntriesSizeBound(order: seq<Key>)
    ensures forall k :: k in order ==> EntriesSize(order) >= EntrySize(k)
  {
    if |order| > 0 {
      EntriesSizeBound(order[1..]);
      assert forall k :: k in order ==> k == order[0] || k in order[1..];
    }
  }

  /** One entry: key length, key bytes, value. */
  function EncodeEntry(k: Key, v: int64): (b: seq<byte>)
    requires |k| <= INT32_MAX
    ensures |b| == EntrySize(k)
  {
    PutInt(|k|) + (k + PutLong(v))
  }

  /** The entries of `m` in the order the keys are listed. */
  function EncodeEntries(m: map<Key, int64>, order: seq<Key>): (b: seq<byte>)
    requires forall k :: k in order ==> k in m && |k| <= INT32_MAX
    ensures |b| == EntriesSize(order)
  {
    if |order| == 0 then [] else EncodeEntry(order[0], m[order[0]]) + EncodeEntries(m, order[1..])
  }

  /** The bytes the serializer writes: the entry count, then the entries in
      the map's iteration order `order`. */
  function Snapshot(h: History, order: seq<Key>): (b: seq<byte>)
    requires IsEnumeration(order, h.lastValues.Keys)
    requires 4 + EntriesSize(order) <= BUFFER_CAPACITY
    ensures |b| == 4 + EntriesSize(order)
  {
    EnumerationLength(order, h.lastValues.Keys);
    EntriesSizeBound(order);
    PutInt(|h.lastValues|) + EncodeEntries(h.lastValues, order)
  }

  /** The serializer: a snapshot larger than the buffer overflows it. */
  function Serialize(h: History, order: seq<Key>): (res: Result<seq<byte>, CodecError>)
    requires IsEnumeration(order, h.lastValues.Keys)
    ensures res.Ok? <==> 4 + EntriesSize(order) <= BUFFER_CAPACITY
    ensures res.Err? ==> res.error == BufferOverflow
    ensures res.Ok? ==> res.value == Snapshot(h, order)
  {
    if 4 + EntriesSize(order) > BUFFER_CAPACITY then Err(BufferOverflow) else Ok(Snapshot(h, order))
  }

  /** A snapshot starts with the number of entries as a big-endian int,
      followed by exactly that many (length, key, value) records. */
  lemma SerializeLayout(h: History, order: seq<Key>)
    requires IsEnumeration(order, h.lastValues.Keys)
    requires Serialize(h, order).Ok?
    ensures var b := Serialize(h, order).value;
      && |b| == 4 + EntriesSize(order)
      && FromBytes(b[..4]) == |h.lastValues| == |order|
      && (forall k :: k in order ==> |k| <= INT32_MAX)
      && b[4..] == EncodeEntries(h.lastValues, order)
  {
    EnumerationLength(order, h.lastValues.Keys);
    EntriesSizeBound(order);
    var size := |h.lastValues|;
    FromToBytes(size, 4);
    var b := PutInt(size) + EncodeEntries(h.lastValues, order);
    assert Serialize(h, order).value == b;
    assert b[..4] == PutInt(size);
  }

  /** The deserializer's loop: `remaining` more entries, each put into `acc`; a
      key seen twice keeps its later value. */
  function DecodeEntries(buf: seq<byte>, remaining: int, acc: map<Key, int64>)
    : (res: Result<map<Key, int64>, CodecError>)
    ensures remaining <= 0 ==> res == Ok(acc)
    ensures res.Ok? ==> acc.Keys <= res.value.Keys
    ensures res.Ok? && remaining >= 0 ==> |res.value| <= |acc| + remaining
    decreases remaining
  {
    if remaining <= 0 then Ok(acc)
    else
      var (len, rest) :- GetInt(buf);
      var (key, rest) :- GetBytes(rest, len);
      var (value, rest) :- GetLong(rest);
      assert |acc[key := value]| <= |acc| + 1 by {
        assert acc[key := value].Keys == acc.Keys + {key};
      }
      DecodeEntries(rest, remaining - 1, acc[key := value])
  }

  /** The deserializer. A negative count reads as no entries; bytes after the
      last entry are not looked at. */
  function Deserialize(buf: seq<byte>): (res: Result<History, CodecError>)
    ensures |buf| < 4 ==> res == Err(BufferUnderflow)
    ensures |buf| >= 4 && IntOf(buf[..4]) <= 0 ==> res == Ok(EmptyHistory())
    ensures |buf| >= 4 && res.Ok? ==> |res.value.lastValues| <= IntOf(buf[..4]) || IntOf(buf[..4]) <= 0
  {
    var (size, rest) :- GetInt(buf);
    var m :- DecodeEntries(rest, size, map[]);
    Ok(History(m))
  }

  /** The map the deserializer builds from the entries of `m` listed in
      `order`, starting from `acc`. */
  function PutAll(acc: map<Key, int64>, m: map<Key, int64>, order: seq<Key>): (r: map<Key, int64>)
    requires forall k :: k in order ==> k in m
    ensures forall x :: x in r <==> x in acc || x in order
    ensures forall x :: x in order ==> r[x] == m[x]
    ensures forall x :: x in acc && x !in order ==> r[x] == acc[x]
    decreases |order|
  {
    if |order| == 0 then acc else PutAll(acc[order[0] := m[order[0]]], m, order[1..])
  }

  lemma PutAllEnumeration(m: map<Key, int64>, order: seq<Key>)
    requires forall k :: k in order <==> k in m
    ensures PutAll(map[], m, order) == m
  {
  }

  lemma DecodeEntry(k: Key, v: int64, rest: seq<byte>)
    requires |k| <= INT32_MAX
    ensures GetInt(EncodeEntry(k, v) + rest).Ok?
    ensures var (len, r1) := GetInt(EncodeEntry(k, v) + rest).value;
      && len == |k|
      && GetBytes(r1, len) == Ok((k, PutLong(v) + rest))
      && GetLong(PutLong(v) + rest) == Ok((v, rest))
  {
    assert EncodeEntry(k, v) + rest == PutInt(|k|) + (k + (PutLong(v) + rest));
    GetIntPut(|k|, k + (PutLong(v) + rest));
    GetBytesPut(k, PutLong(v) + rest);
    GetLongPut(v, rest);
  }

  lemma {:induction false} DecodeEncodedEntries(m: map<Key, int64>, order: seq<Key>, rest: seq<byte>,
                                                acc: map<Key, int64>)
    requires forall k :: k in order ==> k in m && |k| <= INT32_MAX
    ensures DecodeEntries(EncodeEntries(m, order) + rest, |order|, acc) == Ok(PutAll(acc, m, order))
    decreases |order|
  {
    if |order| == 0 {
      assert EncodeEntries(m, order) == [];
    } else {
      var k := order[0];
      var v := m[k];
      var tail := EncodeEntries(m, order[1..]) + rest;
      var acc' := acc[k := v];
      assert DecodeEntries(EncodeEntries(m, order) + rest, |order|, acc)
          == DecodeEntries(tail, |order| - 1, acc') by {
        assert EncodeEntries(m, order) + rest == EncodeEntry(k, v) + tail;
        DecodeEntry(k, v, tail);
      }
      DecodeEncodedEntries(m, order[1..], rest, acc');
    }
  }

  /** Decoding a serialized snapshot gives back the same map, whatever order
      the entries were written in and whatever follows them. */
  lemma RoundTrip(h: History, order: seq<Key>, trailing: seq<byte>)
    requires IsEnumeration(order, h.lastValues.Keys)
    requires Serialize(h, order).Ok?
    ensures Deserialize(Serialize(h, order).value + trailing) == Ok(h)
  {
    var m := h.lastValues;
    EntriesSizeBound(order);
    assert forall k :: k in order ==> |k| <= INT32_MAX;
    var count, body := PutInt(|order|), EncodeEntries(m, order);
    var entries := body + trailing;
    var buf := count + entries;
    assert Serialize(h, order).value + trailing == buf by {
      assert Serialize(h, order).value == count + body by {
        EnumerationLength(order, m.Keys);
      }
      ConcatAssoc(count, body, trailing);
    }
    assert Deserialize(buf) == Ok(History(PutAll(map[], m, order))) by {
      GetIntPut(|order|, entries);
      DecodeEncodedEntries(m, order, trailing, map[]);
    }
    assert History(PutAll(map[], m, order)) == h by {
      PutAllEnumeration(m, order);
    }
  }

  lemma ConcatAssoc<T>(a: seq<T>, b: seq<T>, c: seq<T>)
    ensures (a + b) + c == a + (b + c)
  {
  }

  /** Snapshots of one map written in two iteration orders decode alike. */
  lemma OrderDoesNotMatter(h: History, o1: seq<Key>, o2: seq<Key>)
    requires IsEnumeration(o1, h.lastValues.Keys) && IsEnumeration(o2, h.lastValues.Keys)
    requires Serialize(h, o1).Ok?
    ensures Serialize(h, o2).Ok?
    ensures Deserialize(Serialize(h, o1).value) == Deserialize(Serialize(h, o2).value)
  {
    EntriesSizeOrderIndependent(o1, o2);
    RoundTrip(h, o1, []);
    RoundTrip(h, o2, []);
    assert Serialize(h, o1).value + [] == Serialize(h, o1).value;
    assert Serialize(h, o2).value + [] == Serialize(h, o2).value;
  }

  lemma {:induction false} EntriesSizeConcat(a: seq<Key>, b: seq<Key>)
    ensures EntriesSize(a + b) == EntriesSize(a) + EntriesSize(b)
    decreases |a|
  {
    if |a| > 0 {
      assert (a + b)[1..] == a[1..] + b;
      EntriesSizeConcat(a[1..], b);
    } else {
      assert a + b == b;
    }
  }

  /** Whether a snapshot fits the buffer does not depend on the entry order. */
  lemma {:induction false} EntriesSizeOrderIndependent(o1: seq<Key>, o2: seq<Key>)
    requires Distinct(o1) && Distinct(o2)
    requires forall k :: k in o1 <==> k in o2
    ensures EntriesSize(o1) == EntriesSize(o2)
    decreases |o1|
  {
    assert |o1| == |o2| by {
      DistinctCardinality(o1);
      DistinctCardinality(o2);
      assert (set k | k in o1) == (set k | k in o2);
    }
    if |o1| > 0 {
      var n := |o1|;
      var x := o1[n - 1];
      assert x in o2;
      var j :| 0 <= j < |o2| && o2[j] == x;
      var o1', o2' := o1[..n - 1], o2[..j] + o2[j + 1..];
      assert EntriesSize(o1') == EntriesSize(o2') by {
        RemoveFromBoth(o1, o2, j, o1', o2');
        EntriesSizeOrderIndependent(o1', o2');
      }
      assert EntriesSize(o2) == EntriesSize(o2') + EntrySize(x) by {
        assert o2 == (o2[..j] + [x]) + o2[j + 1..];
        EntriesSizeConcat(o2[..j] + [x], o2[j + 1..]);
        EntriesSizeConcat(o2[..j], [x]);
        EntriesSizeConcat(o2[..j], o2[j + 1..]);
      }
      assert EntriesSize(o1) == EntriesSize(o1') + EntrySize(x) by {
        assert o1 == o1' + [x];
        EntriesSizeConcat(o1', [x]);
      }
    }
  }
}

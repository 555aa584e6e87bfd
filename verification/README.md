# Power-consumption history: a Dafny model

This project models the core of a service that ingests power-consumption readings and answers time-series queries over them.

**Aggregation topology.** Readings arrive on a stream as bytes. Each reading is decoded and fanned out to the parent groups of its sensor, using the sensor registry. Each group then folds the reading into a per-group history: the last value per key, with Java's `LongSummaryStatistics` over those values. The history is written to the state store in a small binary format.

**History repository.** It selects the rows of one identifier within a time restriction and decodes each row into a record. A row that does not decode is skipped. On top of that selection it answers:
- the newest or oldest `count` records;
- a trend: the average of the newest records over the average of the oldest;
- an equal-width histogram of the record values.

**Aggregation service's repository.** It runs the same kind of query with a strict lower bound on the timestamp, or for the newest records. A row that does not decode ends the whole query with the factory's exception. `ActivePowerRepository`'s private `get` does not catch it, unlike the history repository, and the model follows that code.

## Modules

The model is split into one module per file. Everything is a pure function over immutable values. Java exceptions become `Err` values of a `Result`, and Java's fixed-width integers are subset types of `int`.

| module | file | what it covers |
|---|---|---|
| `Primitives` | `primitives.dfy` | `int32`/`int64`/`byte`; `Option` and `Result`; `Wrap64`, Java's wrap-around `long` addition |
| `BigEndian` | `big_endian.dfy` | `ByteBuffer.putInt`/`putLong`/`getInt`/`getLong`/`get(byte[])` in big-endian two's complement; underflow and negative array sizes |
| `ReadingCodec` | `reading_codec.dfy` | the reading serializer and deserializer |
| `SensorHistory` | `sensor_history.dfy` | `AggregatedSensorHistory.update` and `getSummaryStatistics` |
| `HistoryCodec` | `history_codec.dfy` | the history serializer and deserializer |
| `Aggregation` | `aggregation.dfy` | the flatMap fan-out, the aggregator lambda and the grouped fold over a stream of readings |
| `TimeRestrictions` | `time_restrictions.dfy` | the lower and upper timestamp clauses |
| `Store` | `store.dfy` | the store as a sequence of rows: WHERE, ORDER BY, LIMIT, and the lenient and strict decode loops |
| `Histogram` | `histogram.dfy` | the bucket algorithm both repositories share, as a functional definition and as the two loops of the source |
| `CassandraRepository` | `cassandra_repository.dfy` | `get`, `getLatest`, `getEarliest`, `getTrend`, `getDistribution` |
| `ActivePowerRepository` | `active_power_repository.dfy` | `get(identifier, after)`, `getLatest`, `getDistribution` |

### Modelling choices

- **Hash-map iteration order.** A `HashMap`'s iteration order is unspecified. Every operation that walks the entries takes an explicit `order`: a duplicate-free listing of the keys. Lemmas then show that the results do not depend on it.
- **Integer arithmetic.**
  - A `long` sum wraps modulo 2^64, as `LongSummaryStatistics` does.
  - The `(int)` cast of a double truncates toward zero and saturates at the bounds of `int`.
- **Floating point.**
  - Doubles are reals.
  - A zero slice width is modelled as Java evaluates it. The minimum's index is `(int)NaN == 0`, and a larger value's is `(int)+Infinity == Integer.MAX_VALUE`, which the clamp brings back into range.
  - A bucket count of zero sends the first value to index `-1`, which is an `IndexOutOfBounds` error.
  - A negative bucket count fails when the counter array is allocated, which is a `NegativeArraySize` error.
- **Query building.**
  - The query builder refuses a `LIMIT` that is not positive. That becomes `Err(InvalidLimit)`.
  - The trend is computed only after both ordered queries return, so a refused count fails it too.
- **Histogram bounds.** The bucket loop's `i < bucketsCount ? lower + sliceSize : max` always takes its first branch. `Histogram.BuildBuckets` keeps that expression as written. In exact arithmetic the last upper bound equals the maximum anyway (`Histogram.BucketBounds`).
- **Serializer buffer.** The serializers write into a 65536-byte direct buffer. A frame that does not fit overflows it, which becomes `Err(BufferOverflow)`. The round-trip lemmas allow arbitrary bytes after the frame, because the buffer handed on may be longer than what was written.

## Model

Paths are relative to the repository root.

| member | source | states |
|---|---|---|
| `BigEndian.IntRoundTrip` | src/main/java/titan/ccp/aggregation/experimental/kafkastreams/KafkaStreamsFactory.java:152 | the four bytes `putInt` writes read back, through `getInt`, as the same `int` |
| `BigEndian.LongRoundTrip` | src/main/java/titan/ccp/aggregation/experimental/kafkastreams/KafkaStreamsFactory.java:154 | the eight bytes `putLong` writes read back as the same `long` |
| `BigEndian.GetInt` | src/main/java/titan/ccp/aggregation/experimental/kafkastreams/KafkaStreamsFactory.java:115 | `getInt` underflows exactly when fewer than four bytes remain; otherwise the bytes consumed are the encoding of the int returned, followed by the rest |
| `BigEndian.GetLong` | src/main/java/titan/ccp/aggregation/experimental/kafkastreams/KafkaStreamsFactory.java:119 | `getLong` underflows exactly when fewer than eight bytes remain; otherwise the bytes consumed are the encoding of the long returned, followed by the rest |
| `BigEndian.GetBytes` | src/main/java/titan/ccp/aggregation/experimental/kafkastreams/KafkaStreamsFactory.java:116-117 | `new byte[n]` then `get(bytes)`: a negative length fails on the allocation, a length beyond the remaining bytes underflows, and otherwise the n bytes returned followed by the rest are the input |
| `ReadingCodec.Serialize` | src/main/java/titan/ccp/aggregation/experimental/kafkastreams/KafkaStreamsFactory.java:147-158 | serializing fails with a buffer overflow exactly when 16 plus the identifier length exceeds the 65536-byte buffer |
| `ReadingCodec.SerializeLayout` | src/main/java/titan/ccp/aggregation/experimental/kafkastreams/KafkaStreamsFactory.java:150-155 | an encoded reading is 16 + n bytes: the identifier length n, the identifier bytes, the timestamp and the value, all big-endian |
| `ReadingCodec.Deserialize` | src/main/java/titan/ccp/aggregation/experimental/kafkastreams/KafkaStreamsFactory.java:112-125 | fewer than 4 bytes underflow; a negative length fails on the array allocation; otherwise decoding succeeds exactly when 16 + length bytes are present, and the identifier is the bytes after the length |
| `ReadingCodec.RoundTrip` | src/main/java/titan/ccp/aggregation/experimental/kafkastreams/KafkaStreamsFactory.java:112-158 | deserializing a serialized reading gives back the reading, whatever bytes follow the frame |
| `ReadingCodec.SerializeInjective` | src/main/java/titan/ccp/aggregation/experimental/kafkastreams/KafkaStreamsFactory.java:147-158 | two readings with the same encoding are equal |
| `SensorHistory.Update` | src/main/java/titan/ccp/aggregation/experimental/kafkastreams/KafkaStreamsFactory.java:180-182 | `update` maps the key to the new value, adds it to the key set, and leaves every other key's value unchanged |
| `SensorHistory.Summarize` | src/main/java/titan/ccp/aggregation/experimental/kafkastreams/KafkaStreamsFactory.java:190 | the statistics of a stream of longs: count is the length, sum is the wrapped mathematical sum, min and max bound every value and are attained; no values give count 0, sum 0, min `Long.MAX_VALUE`, max `Long.MIN_VALUE` |
| `SensorHistory.SummaryStatistics` | src/main/java/titan/ccp/aggregation/experimental/kafkastreams/KafkaStreamsFactory.java:189-191 | over the map's values: count is the map's size, min and max bound every value and are values of the map, sum wraps; the empty map gives the empty statistics |
| `SensorHistory.SumOrderIndependent` | src/main/java/titan/ccp/aggregation/experimental/kafkastreams/KafkaStreamsFactory.java:190 | the sum over a map's values is the same for every iteration order |
| `SensorHistory.SummaryOrderIndependent` | src/main/java/titan/ccp/aggregation/experimental/kafkastreams/KafkaStreamsFactory.java:189-191 | the whole statistics object does not depend on the hash map's iteration order |
| `SensorHistory.AverageBetweenMinAndMax` | src/main/java/titan/ccp/aggregation/experimental/kafkastreams/KafkaStreamsFactory.java:190 | when the sum does not overflow, the statistics' average lies between min and max |
| `HistoryCodec.Serialize` | src/main/java/titan/ccp/aggregation/experimental/kafkastreams/KafkaStreamsFactory.java:214-226 | serializing a history fails with a buffer overflow exactly when the entry count plus all (length, key, value) entries exceed the 65536-byte buffer |
| `HistoryCodec.SerializeLayout` | src/main/java/titan/ccp/aggregation/experimental/kafkastreams/KafkaStreamsFactory.java:217-223 | a snapshot starts with the map's size as a big-endian int, followed by exactly that many entries in iteration order |
| `HistoryCodec.DecodeEntries` | src/main/java/titan/ccp/aggregation/experimental/kafkastreams/KafkaStreamsFactory.java:252-261 | the read loop keeps every key already read and adds at most one key per remaining entry; a count that is not positive reads nothing |
| `HistoryCodec.Deserialize` | src/main/java/titan/ccp/aggregation/experimental/kafkastreams/KafkaStreamsFactory.java:247-264 | fewer than 4 bytes underflow; a count that is not positive gives the empty history; otherwise the map has at most as many keys as the count says |
| `HistoryCodec.DecodeEncodedEntries` | src/main/java/titan/ccp/aggregation/experimental/kafkastreams/KafkaStreamsFactory.java:252-261 | reading back the encoded entries of any key listing puts each key's value into the accumulating map, later keys last |
| `HistoryCodec.RoundTrip` | src/main/java/titan/ccp/aggregation/experimental/kafkastreams/KafkaStreamsFactory.java:214-264 | deserializing a serialized history gives back the same map, for every iteration order and whatever follows the snapshot |
| `HistoryCodec.EntriesSizeOrderIndependent` | src/main/java/titan/ccp/aggregation/experimental/kafkastreams/KafkaStreamsFactory.java:218-223 | the size of the entries, and so whether a snapshot overflows, does not depend on the iteration order |
| `HistoryCodec.OrderDoesNotMatter` | src/main/java/titan/ccp/aggregation/experimental/kafkastreams/KafkaStreamsFactory.java:214-264 | snapshots of one map written in two iteration orders both fit or both overflow, and decode alike |
| `Aggregation.FlatMap` | src/main/java/titan/ccp/aggregation/experimental/kafkastreams/KafkaStreamsFactory.java:87-93 | the reading is re-keyed once per parent group of its sensor, in the order the registry lists the parents, and sent to a group exactly when the registry lists that group as a parent; an unknown sensor gives nothing |
| `Aggregation.AggregateAsWritten` | src/main/java/titan/ccp/aggregation/experimental/kafkastreams/KafkaStreamsFactory.java:51-56 | the lambda as written puts the reading's value under the group key `aggKey`, and every other key keeps its value |
| `Aggregation.Aggregate` | src/main/java/titan/ccp/aggregation/experimental/kafkastreams/KafkaStreamsFactory.java:51-56 | the corrected lambda puts the reading's value under its sensor's identifier and leaves the other children's values unchanged |
| `Aggregation.LastReading` | src/main/java/titan/ccp/aggregation/experimental/kafkastreams/KafkaStreamsFactory.java:44-56 | the reference definition: absent exactly when no reading is recorded under the key of the group, otherwise the value of the last one that is |
| `Aggregation.DispatchGroup` | src/main/java/titan/ccp/aggregation/experimental/kafkastreams/KafkaStreamsFactory.java:44-56 | feeding one reading's fan-out through the grouped aggregation changes exactly the groups it is routed to, each by one update |
| `Aggregation.RunGroups` | src/main/java/titan/ccp/aggregation/experimental/kafkastreams/KafkaStreamsFactory.java:44-64 | the aggregated table has a row for a group exactly when some reading was routed to it |
| `Aggregation.RunLastValues` | src/main/java/titan/ccp/aggregation/experimental/kafkastreams/KafkaStreamsFactory.java:44-64 | each group's history maps a key to the value of the last reading recorded under it, and holds no other key |
| `Aggregation.AsWrittenKeys` | src/main/java/titan/ccp/aggregation/experimental/kafkastreams/KafkaStreamsFactory.java:54 | as written, a group's history holds no key but the group's own |
| `Aggregation.AsWrittenCountsOne` | src/main/java/titan/ccp/aggregation/experimental/kafkastreams/KafkaStreamsFactory.java:54 | as written, a group's statistics count at most one value however many sensors feed it |
| `Aggregation.AsWrittenExample` | src/main/java/titan/ccp/aggregation/experimental/kafkastreams/KafkaStreamsFactory.java:49-56 | as written, two sensors of one room give the room the single entry room1 -> 20, with statistics (1, 20, 20, 20) |
| `Aggregation.CorrectedExample` | src/main/java/titan/ccp/aggregation/experimental/kafkastreams/KafkaStreamsFactory.java:49-56 | corrected, the room keeps dev1 -> 10 and dev2 -> 20, with statistics (2, 30, 10, 20) |
| `TimeRestrictions.LowerClause` | src/main/java/titan/ccp/history/api/CassandraRepository.java:184-197 | the lower clause is `>` or `>=`, and a timestamp satisfies it exactly when it satisfies every lower bound the restriction gives |
| `TimeRestrictions.UpperClause` | src/main/java/titan/ccp/history/api/CassandraRepository.java:199-201 | the upper clause is `<=`, and a timestamp satisfies it exactly when it is within the `to` bound, if any |
| `Store.Where` | src/main/java/titan/ccp/history/api/CassandraRepository.java:177-181 | the WHERE clause selects exactly the rows of the identifier satisfying every clause, each as often as it is stored |
| `Store.OrderBy` | src/main/java/titan/ccp/history/api/CassandraRepository.java:70 | ORDER BY returns a sorted permutation of the rows |
| `Store.Limit` | src/main/java/titan/ccp/history/api/CassandraRepository.java:71 | LIMIT refuses a count that is not positive, and otherwise keeps the first min(count, rows) rows |
| `Store.TopRows` | src/main/java/titan/ccp/history/api/CassandraRepository.java:68-71 | after sorting and cutting, kept and dropped rows together are the input, and no dropped row may precede a kept one |
| `Store.Execute` | src/main/java/titan/ccp/history/api/CassandraRepository.java:206-221 | the lenient loop returns no more records than rows; every record comes from a row that decodes to it, and every row that decodes contributes its record |
| `Store.ExecuteCounts` | src/main/java/titan/ccp/history/api/CassandraRepository.java:206-221 | each record occurs in the lenient loop's output once per row decoding to it, and the records plus the skipped rows number exactly the rows |
| `Store.ExecuteSingle` | src/main/java/titan/ccp/history/api/CassandraRepository.java:208-218 | one row gives its record, or nothing when the factory fails on it; with `Store.ExecuteConcat` this fixes the output in row order |
| `Store.ExecuteComplete` | src/main/java/titan/ccp/history/api/CassandraRepository.java:206-221 | the lenient loop returns as many records as rows exactly when every row decodes |
| `Store.ExecuteConcat` | src/main/java/titan/ccp/history/api/CassandraRepository.java:210-218 | rows before and after any cut are decoded independently |
| `CassandraRepository.Selected` | src/main/java/titan/ccp/history/api/CassandraRepository.java:174-182 | the restricted select returns exactly the stored rows of the identifier whose timestamp the restriction admits, each as often as it is stored |
| `CassandraRepository.Get` | src/main/java/titan/ccp/history/api/CassandraRepository.java:58-63 | every record comes from an admitted row of the identifier; each record occurs once per admitted row decoding to it, and the records plus the skipped rows number exactly the admitted rows |
| `CassandraRepository.Ordered` | src/main/java/titan/ccp/history/api/CassandraRepository.java:68-71 | the ordered, limited query refuses a count that is not positive; otherwise it returns min(count, admitted) admitted rows in timestamp order |
| `CassandraRepository.GetLatest` | src/main/java/titan/ccp/history/api/CassandraRepository.java:65-74 | `getLatest` fails exactly for a count that is not positive, and otherwise returns at most `count` records of admitted rows |
| `CassandraRepository.GetEarliest` | src/main/java/titan/ccp/history/api/CassandraRepository.java:76-85 | the same for `getEarliest` |
| `CassandraRepository.NewestRowsKept` | src/main/java/titan/ccp/history/api/CassandraRepository.java:65-74 | the rows behind the latest records number min(count, admitted), and no admitted row left out is newer than one kept |
| `CassandraRepository.OldestRowsKept` | src/main/java/titan/ccp/history/api/CassandraRepository.java:76-85 | the rows behind the earliest records number min(count, admitted), and no admitted row left out is older than one kept |
| `CassandraRepository.Average` | src/main/java/titan/ccp/history/api/CassandraRepository.java:96-97 | the average is absent exactly when there are no values, and otherwise lies between the least and the greatest value |
| `CassandraRepository.MeanTimesCount` | src/main/java/titan/ccp/history/api/CassandraRepository.java:96-97 | the average, taken once for every value, gives the total of the values |
| `CassandraRepository.GetTrend` | src/main/java/titan/ccp/history/api/CassandraRepository.java:87-108 | the trend fails exactly for a points count that is not positive; otherwise it is -1 when the earliest or the latest records are empty, 1 when their start average is not positive, and else the factor that takes the start average to the end average |
| `CassandraRepository.TrendWithoutData` | src/main/java/titan/ccp/history/api/CassandraRepository.java:99-106 | with no record in the restriction, the trend is the sentinel -1 |
| `CassandraRepository.SteadyTrend` | src/main/java/titan/ccp/history/api/CassandraRepository.java:99-100 | when every admitted row decodes to the same positive value, the trend is 1 |
| `CassandraRepository.GetDistribution` | src/main/java/titan/ccp/history/api/CassandraRepository.java:110-140 | no records give no buckets; with records, a negative count fails on the array allocation, a zero count fails on the index, and a positive count gives that many buckets |
| `CassandraRepository.DistributionCountsRecords` | src/main/java/titan/ccp/history/api/CassandraRepository.java:114-130 | the bucket counts add up to the number of records of the restriction |
| `Histogram.Values` | src/main/java/titan/ccp/history/api/CassandraRepository.java:127 | the value accessor is applied to every record, in order |
| `Histogram.MinOf` | src/main/java/titan/ccp/history/api/CassandraRepository.java:120 | the minimum is one of the values and at most each of them |
| `Histogram.MaxOf` | src/main/java/titan/ccp/history/api/CassandraRepository.java:121 | the maximum is one of the values and at least each of them |
| `Histogram.IntCast` | src/main/java/titan/ccp/history/api/CassandraRepository.java:128 | the `(int)` cast rounds toward zero: within one of the argument and not beyond it, except where it saturates at the bounds of `int` |
| `Histogram.Index` | src/main/java/titan/ccp/history/api/CassandraRepository.java:128 | the clamped index is at most the last bucket, and not negative for a value at or above the minimum |
| `Histogram.Distribution` | src/main/java/titan/ccp/history/api/CassandraRepository.java:116-140 | no values give no buckets; otherwise a negative count fails on the allocation, a zero count on the index, and a positive count gives that many buckets |
| `Histogram.ComputeDistribution` | src/main/java/titan/ccp/history/api/CassandraRepository.java:116-139 | the two loops compute exactly the functional distribution, exceptions included |
| `Histogram.CountIndices` | src/main/java/titan/ccp/history/api/CassandraRepository.java:125-130 | after the counting loop, each counter holds the number of values whose index is that bucket |
| `Histogram.BuildBuckets` | src/main/java/titan/ccp/history/api/CassandraRepository.java:132-137 | the bucket loop builds the chained buckets: bucket i runs from the i-th to the (i+1)-th bound and holds the i-th count |
| `Histogram.CountsSumToValues` | src/main/java/titan/ccp/history/api/CassandraRepository.java:125-130 | every value is counted once: the counts add up to the number of values |
| `Histogram.BucketBounds` | src/main/java/titan/ccp/history/api/CassandraRepository.java:132-137 | the first bucket starts at the minimum, each is one slice wide and starts where the previous one ends, and the last ends at the maximum |
| `Histogram.ValueInItsBucket` | src/main/java/titan/ccp/history/api/CassandraRepository.java:126-129 | every value lies within the bounds of the bucket it is counted in, strictly below its upper bound unless it is in the last bucket or all values are equal |
| `Histogram.IndexBounds` | src/main/java/titan/ccp/history/api/CassandraRepository.java:128 | the value lies between the closed-form bounds of its index |
| `Histogram.MaxInLastBucket` | src/main/java/titan/ccp/history/api/CassandraRepository.java:128 | when the values are not all equal, the maximum is counted in the last bucket |
| `Histogram.SingleValueDistribution` | src/main/java/titan/ccp/history/api/CassandraRepository.java:123-136 | when all values are equal, the first bucket holds them all and has no width, and every other bucket is empty |
| `Store.StrictExecute` | src/main/java/titan/ccp/aggregation/api/ActivePowerRepository.java:52-62 | the strict loop fails exactly when some row does not decode; otherwise it returns one record per row, each decoded from the row at the same position |
| `Store.StrictIsLenientWhenAllDecode` | src/main/java/titan/ccp/aggregation/api/ActivePowerRepository.java:52-62 | when every row decodes, the strict and the lenient loop return the same records |
| `ActivePowerRepository.After` | src/main/java/titan/ccp/aggregation/api/ActivePowerRepository.java:46-47 | the query selects exactly the stored rows of the identifier with a timestamp strictly after `after` |
| `ActivePowerRepository.GetAfter` | src/main/java/titan/ccp/aggregation/api/ActivePowerRepository.java:44-62 | `get(identifier, after)` fails exactly when a selected row does not decode; otherwise record i is the decoding of selected row i, so there is one record per row, in row order |
| `ActivePowerRepository.GetLatest` | src/main/java/titan/ccp/aggregation/api/ActivePowerRepository.java:52-69 | `getLatest` refuses a count that is not positive; otherwise it fails exactly when one of the newest min(count, rows of the identifier) rows does not decode, and else returns those rows' records, newest first |
| `ActivePowerRepository.GetDistribution` | src/main/java/titan/ccp/aggregation/api/ActivePowerRepository.java:71-98 | a decode failure ends the query; otherwise the histogram's empty, negative, zero and positive cases as in the history repository |
| `ActivePowerRepository.DistributionCountsRecords` | src/main/java/titan/ccp/aggregation/api/ActivePowerRepository.java:71-88 | the bucket counts add up to the number of rows after `after` |
| `ActivePowerRepository.AfterAgreesWithHistory` | src/main/java/titan/ccp/aggregation/api/ActivePowerRepository.java:45-50 | when every row after `after` decodes, the strict query returns what the history repository returns for the restriction "after `after`" |
| `ActivePowerRepository.LatestAgreesWithHistory` | src/main/java/titan/ccp/aggregation/api/ActivePowerRepository.java:64-69 | when every row of the identifier decodes, the strict `getLatest` equals the history repository's `getLatest` without a time restriction |

## Left out

- **Kafka Streams wiring.** This covers the topology builder, the serde factories, the streams configuration, and `configure`/`close`. It is I/O and framework setup with no logic beyond the two lambdas modelled here.
- **`ByteBufferSerializer` and `ByteBufferDeserializer`.** They are not part of this model. The serializers are modelled as the bytes they write into the direct buffer. The deserializers read from the front of the given bytes and ignore any that follow the frame.
- **Charset conversion is not modelled.** Identifiers and map keys are modelled as the byte sequences on the wire. This leaves out:
  - the UTF-8 encoding and decoding, and the replacement of malformed input;
  - the default-charset `getBytes()` of `KafkaStreamsFactory.java:122`;
  - the `toString()` of the record identifier at lines 89 and 148.
- **A likely defect at `KafkaStreamsFactory.java:89` and `:148` is not modelled.** The deserializer builds the record from `identifier.getBytes()`, a `byte[]`, at line 122, and line 148 carries a note that the identifier is still to become a `String`. If the record's `getIdentifier()` returns that array, then its `toString()` is the array's identity string (`[B@` and a hash code), not the sensor identifier. The serializer at line 148 would then write that string, and the registry lookup at line 89 would search for it, so no sensor would be found. The record class is not part of this model, and the identity string depends on the JVM's hash codes. The model therefore takes both calls to yield the identifier's own bytes. This is an unexecuted reading of the code, not a confirmed fault.
- **The sensor registry.** At line 88 the registry is a `null` placeholder. It is modelled as a parameter that maps a sensor to its parent groups, or to nothing for an unknown sensor.
- **The record factories.** This covers the Avro mapper and the Kieker record factory with its field list. They are abstracted as a `decode` parameter, and `None` stands for the factory's `DecodeException`. Other runtime exceptions are not modelled.
- **The Cassandra session.** The store is a sequence of rows. Without ORDER BY, rows come back in store order, which stands for the cluster's order. Connection failures are not modelled.
- **IEEE-754 doubles.**
  - Values, averages and bucket bounds are reals, so rounding is not modelled. In particular, `Histogram.BucketBounds` proves that the last upper bound equals the maximum exactly. With doubles, the repeated additions may round it away from the maximum.
  - NaN and infinity appear only where the source can produce them from finite values: the zero-width slice and the zero bucket count.
- **The bucket counters are `nat`.** The source's `int` counters would overflow only beyond 2^31 records.
- **Logging is not modelled.** This covers the decode-failure and missing-trend warnings.
- **Three queries of `CassandraRepository`.** `getTotalCount`, `getCount` and `getIdentifiers` are not modelled. They forward a count or distinct-identifier query to the cluster, with no logic beyond the time clauses modelled here.
- **Constructors and factory methods.** This covers `forNormal`, `forAggregated` and `forWindowed`. They only choose a table name, a timestamp column, a factory and a value accessor. These become the `decode` and `value` parameters.
- **`CassandraRepository.Get`.** Its contract gives how often each record occurs and how many rows were skipped, not the order of the records. Without ORDER BY, that order is the cluster's, for which the model uses store order. Within that, `Store.ExecuteConcat` and `Store.ExecuteSingle` fix the output record by record.
- **`CassandraRepository.GetLatest` and `CassandraRepository.GetEarliest`.** Their contracts bound the number of records and tie each record to an admitted row. Which rows are kept is stated for the rows by `CassandraRepository.NewestRowsKept` and `CassandraRepository.OldestRowsKept`.

## Findings

| source | as written | input that shows it | evidently intended | confidence | as-written member | corrected member |
|---|---|---|---|---|---|---|
| src/main/java/titan/ccp/aggregation/experimental/kafkastreams/KafkaStreamsFactory.java:54 | the aggregator puts every reading under the group key `aggKey`, so each group's history holds one entry and its statistics see only the last value routed to it | sensors dev1 and dev2 both in room1; readings dev1 = 10 Wh, then dev2 = 20 Wh: the room's history is {room1: 20} with count 1, sum 20 | the reading's own sensor identifier is the key, so the room keeps {dev1: 10, dev2: 20} with count 2, sum 30, min 10, max 20 | high; not executed | `Aggregation.AggregateAsWritten`, `Aggregation.AsWrittenExample`, `Aggregation.AsWrittenCountsOne` | `Aggregation.Aggregate`, `Aggregation.CorrectedExample`, `Aggregation.RunLastValues` |

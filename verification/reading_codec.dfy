/** The byte format of a power-consumption reading on the ingest topic:
    a 4-byte identifier length, the identifier's UTF-8 bytes, an 8-byte
    timestamp and a 4-byte value in watt-hours, all big-endian. */
module ReadingCodec {
  import opened Primitives
  import opened BigEndian

  /** Capacity of the direct buffer the serializer writes into. */
  const BUFFER_CAPACITY: int := 65536

  /** A reading as it crosses the wire: the identifier is carried as the UTF-8
      bytes the serializer writes. */
  datatype PowerReading = PowerReading(identifier: seq<byte>, timestamp: int64, powerInWh: int32)

  /** Bytes a reading occupies in the buffer. */
  function FrameSize(r: PowerReading): (n: nat) {
    4 + |r.identifier| + 8 + 4
  }

  /** The bytes the serializer writes for a reading: length, identifier bytes,
      timestamp, value. */
  function Frame(r: PowerReading): (b: seq<byte>)
    requires |r.identifier| <= INT32_MAX
    ensures |b| == FrameSize(r)
  {
    PutInt(|r.identifier|) + (r.identifier + (PutLong(r.timestamp) + PutInt(r.powerInWh)))
  }

  /** An encoded reading starts with the identifier's length as a big-endian
      int, then the identifier bytes, then the timestamp and the value. */
  lemma SerializeLayout(r: PowerReading)
    requires Serialize(r).Ok?
    ensures var b := Serialize(r).value; var n := |r.identifier|;
      && |b| == 16 + n
      && FromBytes(b[..4]) == n
      && b[4..4 + n] == r.identifier
      && LongOf(b[4 + n..12 + n]) == r.timestamp
      && IntOf(b[12 + n..]) == r.powerInWh
  {
    var id := r.identifier;
    var len := |id|;
    var ts, power := PutLong(r.timestamp), PutInt(r.powerInWh);
    var b := PutInt(len) + (id + (ts + power));
    assert Serialize(r).value == b;
    FromToBytes(len, 4);
    assert b[..4] == PutInt(len);
    assert b[4..4 + len] == id;
    assert b[4 + len..12 + len] == ts;
    assert b[12 + len..] == power;
    LongRoundTrip(r.timestamp);
    IntRoundTrip(r.powerInWh);
  }

  /** The serializer: a frame larger than the buffer overflows it. */
  function Serialize(r: PowerReading): (res: Result<seq<byte>, CodecError>)
    ensures res.Ok? <==> 16 + |r.identifier| <= BUFFER_CAPACITY
    ensures res.Err? ==> res.error == BufferOverflow
    ensures res.Ok? ==> res.value == Frame(r)
  {
    if FrameSize(r) > BUFFER_CAPACITY then Err(BufferOverflow) else Ok(Frame(r))
  }

  /** The deserializer: reads the frame from the front of the buffer; any bytes
      after it are not looked at. */
  function Deserialize(buf: seq<byte>): (res: Result<PowerReading, CodecError>)
    ensures |buf| < 4 ==> res == Err(BufferUnderflow)
    ensures |buf| >= 4 && IntOf(buf[..4]) < 0 ==> res == Err(NegativeArraySize)
    ensures |buf| >= 4 && IntOf(buf[..4]) >= 0 ==>
      (res.Ok? <==> |buf| >= 16 + IntOf(buf[..4]))
    ensures res.Err? && |buf| >= 4 && IntOf(buf[..4]) >= 0 ==> res.error == BufferUnderflow
    ensures res.Ok? ==>
      |buf| >= 16 + |res.value.identifier| && res.value.identifier == buf[4..4 + |res.value.identifier|]
  {
    var (len, rest) :- GetInt(buf);
    var (id, rest) :- GetBytes(rest, len);
    var (timestamp, rest) :- GetLong(rest);
    var (power, _) :- GetInt(rest);
    Ok(PowerReading(id, timestamp, power))
  }

  /** Decoding an encoded reading gives it back, whatever follows the frame. */
  lemma RoundTrip(r: PowerReading, trailing: seq<byte>)
    requires Serialize(r).Ok?
    ensures Deserialize(Serialize(r).value + trailing) == Ok(r)
  {
    FrameThenTrailing(r, trailing);
    DeserializeFrame(|r.identifier|, r.identifier, r.timestamp, r.powerInWh, trailing);
  }

  lemma FrameThenTrailing(r: PowerReading, trailing: seq<byte>)
    requires |r.identifier| <= INT32_MAX
    ensures Frame(r) + trailing
         == PutInt(|r.identifier|) + (r.identifier + (PutLong(r.timestamp) + (PutInt(r.powerInWh) + trailing)))
  {
  }

  lemma DeserializeFrame(len: int32, id: seq<byte>, timestamp: int64, power: int32, trailing: seq<byte>)
    requires len == |id|
    ensures Deserialize(PutInt(len) + (id + (PutLong(timestamp) + (PutInt(power) + trailing))))
         == Ok(PowerReading(id, timestamp, power))
  {
    var tail := PutInt(power) + trailing;
    var mid := PutLong(timestamp) + tail;
    var afterLen := id + mid;
    GetIntPut(len, afterLen);
    GetBytesPut(id, mid);
    GetLongPut(timestamp, tail);
    GetIntPut(power, trailing);
  }

  /** Two readings with the same encoding are the same reading. */
  lemma SerializeInjective(r1: PowerReading, r2: PowerReading)
    requires Serialize(r1).Ok? && Serialize(r2).Ok?
    requires Serialize(r1).value == Serialize(r2).value
    ensures r1 == r2
  {
    RoundTrip(r1, []);
    RoundTrip(r2, []);
  }
}

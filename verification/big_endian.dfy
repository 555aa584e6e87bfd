/** The integer layout of a `java.nio.ByteBuffer` in its default byte order:
    big-endian (most significant byte first), two's complement for signed values.
    Reading works on the unread suffix of the buffer and fails with a buffer
    underflow when fewer bytes remain than the value needs. */
module BigEndian {
  import opened Primitives

  /** 256^n, the number of distinct n-byte values. */
  function Pow256(n: nat): (p: nat)
    ensures p >= 1
  {
    if n == 0 then 1 else 256 * Pow256(n - 1)
  }

  /** The n bytes of an unsigned value, most significant first. */
  function ToBytes(u: nat, n: nat): (b: seq<byte>)
    requires u < Pow256(n)
    ensures |b| == n
    decreases n
  {
    if n == 0 then [] else ToBytes(u / 256, n - 1) + [u % 256]
  }

  /** The unsigned value of a big-endian byte sequence. */
  function FromBytes(b: seq<byte>): (u: nat)
    ensures u < Pow256(|b|)
  {
    if |b| == 0 then 0 else FromBytes(b[..|b| - 1]) * 256 + b[|b| - 1]
  }

  lemma {:induction false} FromToBytes(u: nat, n: nat)
    requires u < Pow256(n)
    ensures FromBytes(ToBytes(u, n)) == u
    decreases n
  {
    if n > 0 {
      var b := ToBytes(u, n);
      assert b[..n - 1] == ToBytes(u / 256, n - 1);
      FromToBytes(u / 256, n - 1);
    }
  }

  lemma {:induction false} ToFromBytes(b: seq<byte>)
    ensures ToBytes(FromBytes(b), |b|) == b
  {
    if |b| > 0 {
      var init := b[..|b| - 1];
      ToFromBytes(init);
      var u := FromBytes(b);
      assert u / 256 == FromBytes(init);
      assert u % 256 == b[|b| - 1];
      assert b == init + [b[|b| - 1]];
    }
  }

  /** The unsigned n-byte pattern of a signed value (two's complement). */
  function Unsigned(x: int, n: nat): (u: nat)
    requires n >= 1
    requires -Half(n) <= x < Half(n)
    ensures u < Pow256(n)
  {
    if x < 0 then x + Pow256(n) else x
  }

  /** The signed value of an n-byte two's complement pattern. */
  function Signed(u: nat, n: nat): (x: int)
    requires n >= 1 && u < Pow256(n)
    ensures -Half(n) <= x < Half(n)
  {
    if u >= Half(n) then u - Pow256(n) else u
  }

  /** Half the range of an n-byte value: the first negative two's complement pattern. */
  function Half(n: nat): (h: int)
    requires n >= 1
    ensures 2 * h == Pow256(n)
  {
    128 * Pow256(n - 1)
  }

  /** `ByteBuffer.putInt`: four bytes. */
  function PutInt(x: int32): (b: seq<byte>)
    ensures |b| == 4
  {
    ToBytes(Unsigned(x, 4), 4)
  }

  /** `ByteBuffer.putLong`: eight bytes. */
  function PutLong(x: int64): (b: seq<byte>)
    ensures |b| == 8
  {
    ToBytes(Unsigned(x, 8), 8)
  }

  /** The int held by four bytes. */
  function IntOf(b: seq<byte>): (x: int32)
    requires |b| == 4
  {
    Signed(FromBytes(b), 4)
  }

  /** The long held by eight bytes. */
  function LongOf(b: seq<byte>): (x: int64)
    requires |b| == 8
  {
    Signed(FromBytes(b), 8)
  }

  lemma IntRoundTrip(x: int32)
    ensures IntOf(PutInt(x)) == x
  {
    FromToBytes(Unsigned(x, 4), 4);
  }

  lemma LongRoundTrip(x: int64)
    ensures LongOf(PutLong(x)) == x
  {
    FromToBytes(Unsigned(x, 8), 8);
  }

  /** Every four bytes are the encoding of the int they hold. */
  lemma IntOfInverse(b: seq<byte>)
    requires |b| == 4
    ensures PutInt(IntOf(b)) == b
  {
    ToFromBytes(b);
  }

  /** Every eight bytes are the encoding of the long they hold. */
  lemma LongOfInverse(b: seq<byte>)
    requires |b| == 8
    ensures PutLong(LongOf(b)) == b
  {
    ToFromBytes(b);
  }

  datatype CodecError = BufferUnderflow | BufferOverflow | NegativeArraySize

  /** `ByteBuffer.getInt` on the unread bytes: the int and what remains after it. */
  function GetInt(buf: seq<byte>): (r: Result<(int32, seq<byte>), CodecError>)
    ensures r.Err? <==> |buf| < 4
    ensures r.Err? ==> r.error == BufferUnderflow
    ensures r.Ok? ==> PutInt(r.value.0) + r.value.1 == buf
  {
    if |buf| < 4 then Err(BufferUnderflow)
    else
      IntOfInverse(buf[..4]);
      Ok((IntOf(buf[..4]), buf[4..]))
  }

  /** `ByteBuffer.getLong` on the unread bytes. */
  function GetLong(buf: seq<byte>): (r: Result<(int64, seq<byte>), CodecError>)
    ensures r.Err? <==> |buf| < 8
    ensures r.Err? ==> r.error == BufferUnderflow
    ensures r.Ok? ==> PutLong(r.value.0) + r.value.1 == buf
  {
    if |buf| < 8 then Err(BufferUnderflow)
    else
      LongOfInverse(buf[..8]);
      Ok((LongOf(buf[..8]), buf[8..]))
  }

  /** `ByteBuffer.get(new byte[n])`: a negative length fails when the array is
      allocated, a length beyond the remaining bytes underflows. */
  function GetBytes(buf: seq<byte>, n: int): (r: Result<(seq<byte>, seq<byte>), CodecError>)
    ensures r.Ok? <==> 0 <= n <= |buf|
    ensures n < 0 ==> r == Err(NegativeArraySize)
    ensures n > |buf| ==> r == Err(BufferUnderflow)
    ensures r.Ok? ==> |r.value.0| == n && r.value.0 + r.value.1 == buf
  {
    if n < 0 then Err(NegativeArraySize)
    else if n > |buf| then Err(BufferUnderflow)
    else Ok((buf[..n], buf[n..]))
  }

  lemma GetIntPut(x: int32, rest: seq<byte>)
    ensures GetInt(PutInt(x) + rest) == Ok((x, rest))
  {
    var buf := PutInt(x) + rest;
    assert buf[..4] == PutInt(x);
    assert buf[4..] == rest;
    IntRoundTrip(x);
  }

  lemma GetLongPut(x: int64, rest: seq<byte>)
    ensures GetLong(PutLong(x) + rest) == Ok((x, rest))
  {
    var buf := PutLong(x) + rest;
    assert buf[..8] == PutLong(x);
    assert buf[8..] == rest;
    LongRoundTrip(x);
  }

  lemma GetBytesPut(b: seq<byte>, rest: seq<byte>)
    ensures GetBytes(b + rest, |b|) == Ok((b, rest))
  {
    assert (b + rest)[..|b|] == b;
    assert (b + rest)[|b|..] == rest;
  }
}

/**
 * The three-part wire message a generator builds from a clock reading and a
 * line, and the consumer takes apart again in the same order.
 *
 * A message is a sequence of frames (message parts). The two clock fields are
 * 64-bit signed integers, each carried in its own frame of eight bytes; the
 * payload is carried as the raw bytes of the line in a frame of its own, so its
 * length is explicit and no byte of it acts as a delimiter.
 */
module Wire {
  import opened Results

  newtype byte = b: int | 0 <= b < 256

  const TWO_63: int := 0x8000_0000_0000_0000
  const TWO_64: int := 0x1_0000_0000_0000_0000

  /** The range of `time_t` and `suseconds_t` on the platforms the program targets. */
  newtype int64 = x: int | -0x8000_0000_0000_0000 <= x < 0x8000_0000_0000_0000

  /** One part of a message. */
  type Frame = seq<byte>

  /** A `struct timeval`: seconds and microseconds since the epoch. */
  datatype TimeVal = TimeVal(sec: int64, usec: int64)

  /** What `gettimeofday` guarantees of a reading. */
  predicate ValidTime(tv: TimeVal)
  {
    0 <= tv.usec < 1_000_000
  }

  /** The decoded content of a message: send time and payload. */
  datatype Msg = Msg(sec: int64, usec: int64, payload: seq<byte>)

  /** Why a received message could not be taken apart. */
  datatype DecodeError =
    | MissingPart(parts: nat)      // fewer than three parts
    | BadIntegerPart(index: nat)   // a clock part is not eight bytes wide

  // ---------------------------------------------------------------------------
  // Unsigned big-endian digits

  function Pow256(n: nat): (p: nat)
    ensures p > 0
  {
    if n == 0 then 1 else 256 * Pow256(n - 1)
  }

  lemma Pow256Eight()
    ensures Pow256(8) == TWO_64
  {
  }

  /** The `n` base-256 digits of `u`, most significant first. */
  function BigEndian(u: nat, n: nat): (bs: seq<byte>)
    requires u < Pow256(n)
    ensures |bs| == n
  {
    if n == 0 then []
    else
      assert u / 256 < Pow256(n - 1);
      BigEndian(u / 256, n - 1) + [(u % 256) as byte]
  }

  /** The number whose base-256 digits, most significant first, are `bs`. */
  function FromBigEndian(bs: seq<byte>): (u: nat)
    ensures u < Pow256(|bs|)
  {
    if bs == [] then 0
    else
      var hi := FromBigEndian(bs[..|bs| - 1]);
      assert hi * 256 <= (Pow256(|bs| - 1) - 1) * 256;
      hi * 256 + bs[|bs| - 1] as nat
  }

  lemma {:induction false} FromBigEndianInverse(u: nat, n: nat)
    requires u < Pow256(n)
    ensures FromBigEndian(BigEndian(u, n)) == u
  {
    if n > 0 {
      var bs := BigEndian(u, n);
      assert u / 256 < Pow256(n - 1);
      assert bs[..n - 1] == BigEndian(u / 256, n - 1);
      FromBigEndianInverse(u / 256, n - 1);
    }
  }

  lemma {:induction false} BigEndianInverse(bs: seq<byte>)
    ensures BigEndian(FromBigEndian(bs), |bs|) == bs
  {
    if bs != [] {
      var n := |bs|;
      var hi := FromBigEndian(bs[..n - 1]);
      var u := FromBigEndian(bs);
      assert u / 256 == hi && u % 256 == bs[n - 1] as int;
      BigEndianInverse(bs[..n - 1]);
      assert bs == bs[..n - 1] + [bs[n - 1]];
    }
  }

  // ---------------------------------------------------------------------------
  // 64-bit integers as eight-byte frames (two's complement)

  function Unsigned(v: int64): (u: nat)
    ensures u < Pow256(8)
  {
    Pow256Eight();
    if v < 0 then v as int + TWO_64 else v as int
  }

  function Signed(u: nat): (v: int64)
    requires u < TWO_64
  {
    if u >= TWO_63 then (u - TWO_64) as int64 else u as int64
  }

  function EncodeInt64(v: int64): (f: Frame)
    ensures |f| == 8
  {
    BigEndian(Unsigned(v), 8)
  }

  function DecodeInt64(f: Frame): (v: int64)
    requires |f| == 8
  {
    Pow256Eight();
    Signed(FromBigEndian(f))
  }

  lemma Int64RoundTrip(v: int64)
    ensures DecodeInt64(EncodeInt64(v)) == v
  {
    FromBigEndianInverse(Unsigned(v), 8);
  }

  lemma Int64FrameRoundTrip(f: Frame)
    requires |f| == 8
    ensures EncodeInt64(DecodeInt64(f)) == f
  {
    Pow256Eight();
    BigEndianInverse(f);
  }

  // ---------------------------------------------------------------------------
  // Messages

  /** `message << tv.tv_sec << tv.tv_usec << line`. */
  function Encode(m: Msg): (frames: seq<Frame>)
    ensures |frames| == 3 && |frames[0]| == 8 && |frames[1]| == 8
    ensures frames[2] == m.payload
  {
    [EncodeInt64(m.sec), EncodeInt64(m.usec), m.payload]
  }

  /**
   * `message >> tv1.tv_sec >> tv1.tv_usec >> line`: the first three parts, in
   * the order they were written; parts after the third are not looked at.
   */
  function Decode(frames: seq<Frame>): (r: Result<Msg, DecodeError>)
    ensures r.Err? <==> |frames| < 3 || |frames[0]| != 8 || |frames[1]| != 8
    ensures r.Err? && |frames| < 3 ==> r.error == MissingPart(|frames|)
    ensures r.Ok? ==> r.value.payload == frames[2]
  {
    if |frames| < 3 then Err(MissingPart(|frames|))
    else if |frames[0]| != 8 then Err(BadIntegerPart(0))
    else if |frames[1]| != 8 then Err(BadIntegerPart(1))
    else Ok(Msg(DecodeInt64(frames[0]), DecodeInt64(frames[1]), frames[2]))
  }

  /** Parts after the third make no difference to what is decoded. */
  lemma DecodeIgnoresTrailingParts(frames: seq<Frame>)
    requires |frames| >= 3
    ensures Decode(frames) == Decode(frames[..3])
  {
  }

  /** The consumer recovers exactly the triple the generator encoded. */
  lemma DecodeEncode(m: Msg)
    ensures Decode(Encode(m)) == Ok(m)
  {
    Int64RoundTrip(m.sec);
    Int64RoundTrip(m.usec);
  }

  /** A three-part message that decodes is the encoding of what it decodes to. */
  lemma EncodeDecode(frames: seq<Frame>)
    requires |frames| == 3 && Decode(frames).Ok?
    ensures Encode(Decode(frames).value) == frames
  {
    Int64FrameRoundTrip(frames[0]);
    Int64FrameRoundTrip(frames[1]);
  }

  /** Encoding loses nothing: different triples give different messages. */
  lemma EncodeInjective(m1: Msg, m2: Msg)
    requires Encode(m1) == Encode(m2)
    ensures m1 == m2
  {
    DecodeEncode(m1);
    DecodeEncode(m2);
  }
}

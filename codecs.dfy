/**
  Concrete sound codecs: the SCALE shapes of `u8`, `u32` (four bytes, least
  significant first), `Vec<u8>` and of the record used by the map's unit
  test. They show that the soundness assumption of the generic laws can be met.
 */
module Codecs {
  import opened Wrappers
  import opened Bytes
  import opened Codec

  /** `u8`: the byte itself. */
  function U8Codec(): Codec<byte>
  {
    Codec((b: byte) => [b], s => if |s| == 0 then None else Some((s[0], s[1..])))
  }

  lemma U8Sound()
    ensures Sound(U8Codec())
  {
    var c := U8Codec();
    forall b: byte, rest: seq<byte>
      ensures c.dec(c.enc(b) + rest) == Some((b, rest))
    {
      assert ([b] + rest)[1..] == rest;
    }
  }

  function EncodeU32(x: u32): (r: seq<byte>)
    ensures |r| == 4
  {
    [x % 256, x / 256 % 256, x / 256 / 256 % 256, x / 256 / 256 / 256]
  }

  function DecodeU32(s: seq<byte>): Option<(u32, seq<byte>)>
  {
    if |s| < 4 then None
    else
      var x: int := s[0] as int + 256 * (s[1] as int + 256 * (s[2] as int + 256 * s[3] as int));
      Some((x, s[4..]))
  }

  /** `u32`: four bytes, least significant first. */
  function U32Codec(): Codec<u32>
  {
    Codec(EncodeU32, DecodeU32)
  }

  /** Four little-endian base-256 digits read back as the number they came from. */
  lemma U32RoundTrip(x: u32, rest: seq<byte>)
    ensures DecodeU32(EncodeU32(x) + rest) == Some((x, rest))
  {
    var b := EncodeU32(x);
    var s := b + rest;
    assert s[0] == b[0] && s[1] == b[1] && s[2] == b[2] && s[3] == b[3];
    assert s[4..] == rest;
    var q1 := x / 256;
    var q2 := q1 / 256;
    assert x == x % 256 + 256 * q1;
    assert q1 == q1 % 256 + 256 * q2;
    assert q2 == q2 % 256 + 256 * (q2 / 256);
  }

  lemma U32Sound()
    ensures Sound(U32Codec())
  {
    var c := U32Codec();
    forall x: u32, rest: seq<byte>
      ensures c.dec(c.enc(x) + rest) == Some((x, rest))
    {
      U32RoundTrip(x, rest);
    }
  }

  /** `Vec<u8>`: a count followed by the raw bytes. */
  function BytesCodec(): Codec<seq<byte>>
  {
    VecCodec(U8Codec())
  }

  lemma BytesSound()
    ensures Sound(BytesCodec())
  {
    U8Sound();
    VecSound(U8Codec());
  }

  /** The value type of the map's unit test: a `u32` field and a `Vec<u8>` field. */
  datatype MockValue = MockValue(field1: u32, field2: seq<byte>)

  /** A derived struct encoding: its fields in declaration order. */
  function MockValueCodec(): Codec<MockValue>
  {
    var fields := PairCodec(U32Codec(), BytesCodec());
    Codec(
      (m: MockValue) => fields.enc((m.field1, m.field2)),
      s => match fields.dec(s)
           case None => None
           case Some((p, rest)) => Some((MockValue(p.0, p.1), rest)))
  }

  lemma MockValueSound()
    ensures Sound(MockValueCodec())
  {
    U32Sound();
    BytesSound();
    var fields := PairCodec(U32Codec(), BytesCodec());
    PairSound(U32Codec(), BytesCodec());
    var c := MockValueCodec();
    forall m: MockValue, rest: seq<byte>
      ensures c.dec(c.enc(m) + rest) == Some((m, rest))
    {
      assert c.enc(m) == fields.enc((m.field1, m.field2));
      assert fields.dec(fields.enc((m.field1, m.field2)) + rest) == Some(((m.field1, m.field2), rest));
    }
  }
}

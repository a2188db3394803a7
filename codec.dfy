/**
  A stand-in for the parity_codec (SCALE) encoding the SDK relies on.

  A `Codec<T>` pairs an encoder with a decoder. The decoder reads one value
  from the front of its input and hands back the unread rest, as
  `Decode::decode(&mut &buf[..])` advances its input slice; `None` means the
  bytes do not decode. Element codecs are parameters: the map-level laws are
  proved for every codec that is `Sound`, and concrete sound codecs live in
  module `Codecs`.

  Composite encodings follow SCALE's shape: a pair is its first component
  followed by its second, and a vector is an element count followed by the
  elements in order. The count prefix here is a base-128 varint (low seven
  bits first, high bit set on every byte but the last), an unbounded prefix
  standing in for SCALE's compact integers.
 */
module Codec {
  import opened Wrappers
  import opened Bytes

  datatype Codec<!T> = Codec(enc: T -> seq<byte>, dec: seq<byte> -> Option<(T, seq<byte>)>)

  /** Decoding reads back exactly what encoding wrote, whatever follows it. */
  ghost predicate Sound<T(!new)>(c: Codec<T>)
  {
    forall x, rest :: c.dec(c.enc(x) + rest) == Some((x, rest))
  }

  /** `Decode::decode` on a whole buffer: the first value, trailing bytes ignored. */
  function DecodeValue<T>(c: Codec<T>, s: seq<byte>): Option<T>
  {
    match c.dec(s)
    case None => None
    case Some((x, _)) => Some(x)
  }

  lemma DecodeValueOfEncode<T(!new)>(c: Codec<T>, x: T, rest: seq<byte>)
    requires Sound(c)
    ensures DecodeValue(c, c.enc(x) + rest) == Some(x)
  {
  }

  /** The count prefix of a vector. */
  function EncodeCount(n: nat): (r: seq<byte>)
    ensures |r| > 0
    decreases n
  {
    if n < 128 then [n] else [128 + n % 128] + EncodeCount(n / 128)
  }

  function DecodeCount(s: seq<byte>): Option<(nat, seq<byte>)>
    decreases |s|
  {
    if |s| == 0 then None
    else if s[0] < 128 then Some((s[0], s[1..]))
    else match DecodeCount(s[1..])
      case None => None
      case Some((m, rest)) => Some((128 * m + (s[0] - 128), rest))
  }

  /** Every count reads back from its prefix. */
  lemma {:induction false} CountRoundTrip(n: nat, rest: seq<byte>)
    ensures DecodeCount(EncodeCount(n) + rest) == Some((n, rest))
    decreases n
  {
    if n >= 128 {
      var s := EncodeCount(n) + rest;
      assert s[1..] == EncodeCount(n / 128) + rest;
      CountRoundTrip(n / 128, rest);
    }
  }

  /** A pair `(x, y)` is `x`'s encoding followed by `y`'s. */
  function PairCodec<A, B>(a: Codec<A>, b: Codec<B>): Codec<(A, B)>
  {
    Codec(
      (p: (A, B)) => a.enc(p.0) + b.enc(p.1),
      s => match a.dec(s)
           case None => None
           case Some((x, s1)) =>
             match b.dec(s1)
             case None => None
             case Some((y, s2)) => Some(((x, y), s2)))
  }

  lemma PairSound<A(!new), B(!new)>(a: Codec<A>, b: Codec<B>)
    requires Sound(a) && Sound(b)
    ensures Sound(PairCodec(a, b))
  {
    var c := PairCodec(a, b);
    forall p: (A, B), rest: seq<byte>
      ensures c.dec(c.enc(p) + rest) == Some((p, rest))
    {
      assert c.enc(p) + rest == a.enc(p.0) + (b.enc(p.1) + rest);
    }
  }

  /** The elements of a vector, back to back, without the count. */
  function EncodeElems<T>(c: Codec<T>, xs: seq<T>): seq<byte>
  {
    if xs == [] then [] else c.enc(xs[0]) + EncodeElems(c, xs[1..])
  }

  /** Reads `n` elements, failing if any of them does not decode. */
  function DecodeElems<T>(c: Codec<T>, n: nat, s: seq<byte>): (r: Option<(seq<T>, seq<byte>)>)
    ensures r.Some? ==> |r.value.0| == n
  {
    if n == 0 then Some(([], s))
    else match c.dec(s)
      case None => None
      case Some((x, s1)) =>
        match DecodeElems(c, n - 1, s1)
        case None => None
        case Some((xs, s2)) => Some(([x] + xs, s2))
  }

  lemma {:induction false} ElemsRoundTrip<T(!new)>(c: Codec<T>, xs: seq<T>, rest: seq<byte>)
    requires Sound(c)
    ensures DecodeElems(c, |xs|, EncodeElems(c, xs) + rest) == Some((xs, rest))
  {
    if xs != [] {
      var tail := EncodeElems(c, xs[1..]) + rest;
      assert EncodeElems(c, xs) + rest == c.enc(xs[0]) + tail;
      assert c.dec(c.enc(xs[0]) + tail) == Some((xs[0], tail));
      ElemsRoundTrip(c, xs[1..], rest);
      assert DecodeElems(c, |xs| - 1, tail) == Some((xs[1..], rest));
      assert [xs[0]] + xs[1..] == xs;
    } else {
      assert EncodeElems(c, xs) + rest == rest;
    }
  }

  /** A vector (`Vec<T>`) is its length followed by its elements in order. */
  function VecCodec<T>(c: Codec<T>): Codec<seq<T>>
  {
    Codec(
      (xs: seq<T>) => EncodeCount(|xs|) + EncodeElems(c, xs),
      s => match DecodeCount(s)
           case None => None
           case Some((n, s1)) => DecodeElems(c, n, s1))
  }

  /** After a count prefix, the vector decoder reads exactly that many elements. */
  lemma VecDecodeAt<T>(c: Codec<T>, n: nat, tail: seq<byte>)
    ensures VecCodec(c).dec(EncodeCount(n) + tail) == DecodeElems(c, n, tail)
  {
    CountRoundTrip(n, tail);
  }

  /** Decoding an encoded vector reduces to decoding its elements. */
  lemma VecDecodeOfEncode<T>(c: Codec<T>, xs: seq<T>, rest: seq<byte>)
    ensures VecCodec(c).dec(VecCodec(c).enc(xs) + rest) == DecodeElems(c, |xs|, EncodeElems(c, xs) + rest)
  {
    var tail := EncodeElems(c, xs) + rest;
    assert VecCodec(c).enc(xs) + rest == EncodeCount(|xs|) + tail;
    VecDecodeAt(c, |xs|, tail);
  }

  /** A vector of soundly encoded elements reads back element by element, in order. */
  lemma VecSound<T(!new)>(c: Codec<T>)
    requires Sound(c)
    ensures Sound(VecCodec(c))
  {
    var v := VecCodec(c);
    forall xs: seq<T>, rest: seq<byte>
      ensures v.dec(v.enc(xs) + rest) == Some((xs, rest))
    {
      ElemsRoundTrip(c, xs, rest);
      VecDecodeOfEncode(c, xs, rest);
    }
  }

  /** The encoding of a map's entry list, `Vec<(K, V)>`. */
  function EntriesCodec<K, V>(kc: Codec<K>, vc: Codec<V>): Codec<seq<(K, V)>>
  {
    VecCodec(PairCodec(kc, vc))
  }

  lemma EntriesSound<K(!new), V(!new)>(kc: Codec<K>, vc: Codec<V>)
    requires Sound(kc) && Sound(vc)
    ensures Sound(EntriesCodec(kc, vc))
  {
    PairSound(kc, vc);
    VecSound(PairCodec(kc, vc));
  }
}

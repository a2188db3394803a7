/**
  The integer-to-bytes helpers of the contract SDK. Both fill a zeroed
  fixed-size buffer from the least significant byte of the input up, writing
  byte `i` (counted from the low end) to position `len - 1 - i`, so the result
  is big-endian.
 */
module Util {
  import opened Bytes

  /** 256 to the power n, the weight of the byte n places above the lowest one. */
  function Pow256(n: nat): (r: nat)
    ensures r > 0
  {
    if n == 0 then 1 else 256 * Pow256(n - 1)
  }

  /** `(x >> 8 * i) & 0xFF` for a non-negative `x`: byte `i` of `x`, counted from the low end. */
  function ByteAt(x: nat, i: nat): byte
  {
    (x / Pow256(i)) % 256
  }

  /** The `n` low-order bytes of `x`, most significant first. */
  function BigEndian(x: nat, n: nat): (r: seq<byte>)
    ensures |r| == n
  {
    if n == 0 then [] else BigEndian(x / 256, n - 1) + [x % 256]
  }

  /** The number a big-endian byte string denotes: the sum of `s[j] * 256^(|s| - 1 - j)`. */
  function FromBigEndian(s: seq<byte>): nat
  {
    if s == [] then 0 else FromBigEndian(s[..|s| - 1]) * 256 + s[|s| - 1]
  }

  /** Multiplying by a non-negative factor keeps order. */
  lemma MulMono(a: nat, b: nat, d: nat)
    requires a <= b
    ensures a * d <= b * d
  {
  }

  /** Euclidean division has one quotient: a decomposition `q * d + r` with `r < d` names it. */
  lemma DivUnique(x: nat, d: nat, q: nat, r: nat)
    requires 0 < d && r < d && x == q * d + r
    ensures x / d == q
  {
    var q' := x / d;
    if q' < q {
      MulMono(q' + 1, q, d);
    } else if q < q' {
      MulMono(q + 1, q', d);
    }
  }

  /** Shifting right by 8 and then by `8 * i` more bits is shifting by `8 * (i + 1)`. */
  lemma DivDiv(x: nat, p: nat)
    requires 0 < p
    ensures x / 256 / p == x / (256 * p)
  {
    var q := x / 256;
    var hi, lo := q / p, 256 * (q % p) + x % 256;
    assert q == hi * p + q % p;
    assert x == 256 * q + x % 256;
    assert x == hi * (256 * p) + lo;
    assert lo < 256 * p by {
      assert q % p <= p - 1;
      assert 256 * (q % p) <= 256 * (p - 1);
    }
    DivUnique(x, 256 * p, hi, lo);
  }

  /** Position `n - 1 - i` of the big-endian form holds byte `i` of `x`. */
  lemma {:induction false} BigEndianAt(x: nat, n: nat, i: nat)
    requires i < n
    ensures BigEndian(x, n)[n - 1 - i] == ByteAt(x, i)
  {
    if i > 0 {
      BigEndianAt(x / 256, n - 1, i - 1);
      DivDiv(x, Pow256(i - 1));
    }
  }

  /** The big-endian bytes of a number below `256^n` add back up to that number. */
  lemma {:induction false} BigEndianRoundTrip(x: nat, n: nat)
    requires x < Pow256(n)
    ensures FromBigEndian(BigEndian(x, n)) == x
  {
    if n > 0 {
      var s := BigEndian(x, n);
      assert s[..n - 1] == BigEndian(x / 256, n - 1);
      assert x / 256 < Pow256(n - 1);
      BigEndianRoundTrip(x / 256, n - 1);
    }
  }

  /** Two numbers below `256^n` with the same big-endian bytes are equal. */
  lemma BigEndianInjective(x: nat, y: nat, n: nat)
    requires x < Pow256(n) && y < Pow256(n)
    requires BigEndian(x, n) == BigEndian(y, n)
    ensures x == y
  {
    BigEndianRoundTrip(x, n);
    BigEndianRoundTrip(y, n);
  }

  /** A sequence whose position `n - 1 - i` holds byte `i` of `x`, for every `i < n`, is `BigEndian(x, n)`. */
  lemma BigEndianFromBytes(x: nat, n: nat, s: seq<byte>)
    requires |s| == n
    requires forall i :: 0 <= i < n ==> s[n - 1 - i] == ByteAt(x, i)
    ensures s == BigEndian(x, n)
  {
    forall j | 0 <= j < n
      ensures s[j] == BigEndian(x, n)[j]
    {
      BigEndianAt(x, n, n - 1 - j);
    }
  }

  /** `u32_to_bytes`: the four bytes of `x`, most significant first. */
  method U32ToBytes(x: u32) returns (r: seq<byte>)
    ensures |r| == 4
    ensures forall i :: 0 <= i < 4 ==> r[3 - i] == ByteAt(x, i)
    ensures r == BigEndian(x, 4)
    ensures FromBigEndian(r) == x
  {
    var buf := new byte[4](_ => 0);
    for i := 0 to 4
      invariant forall j :: 0 <= j < i ==> buf[3 - j] == ByteAt(x, j)
      invariant forall k :: 0 <= k < 4 - i ==> buf[k] == 0
    {
      buf[3 - i] := (x / Pow256(i)) % 256;
    }
    r := buf[..];
    BigEndianFromBytes(x, 4, r);
    BigEndianRoundTrip(x, 4);
  }

  /** `u64_to_bytes`: the eight bytes of `x`, most significant first. */
  method U64ToBytes(x: u64) returns (r: seq<byte>)
    ensures |r| == 8
    ensures forall i :: 0 <= i < 8 ==> r[7 - i] == ByteAt(x, i)
    ensures r == BigEndian(x, 8)
    ensures FromBigEndian(r) == x
  {
    var buf := new byte[8](_ => 0);
    for i := 0 to 8
      invariant forall j :: 0 <= j < i ==> buf[7 - j] == ByteAt(x, j)
      invariant forall k :: 0 <= k < 8 - i ==> buf[k] == 0
    {
      buf[7 - i] := (x / Pow256(i)) % 256;
    }
    r := buf[..];
    BigEndianFromBytes(x, 8, r);
    BigEndianRoundTrip(x, 8);
  }
}

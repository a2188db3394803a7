/**
  The storage API of the contract SDK: fixed-size storage keys derived from
  arbitrary byte strings, the two-primitive key-value interface of the host
  (`get_kv`, `put_kv`), and the typed `put` / `get` / `remove` built on it.

  The host's storage is modelled as an in-memory store: a `Store` object whose
  field `kv` is the content of contract storage. The SDK's `Storage` is a
  unit struct whose associated functions act on that one global store; here
  they are methods of `Store`.
 */
module Storage {
  import opened Wrappers
  import opened Bytes
  import opened Codec
  import opened Codecs

  /** The 32 bytes of an `H256`. */
  type H256 = s: seq<byte> | |s| == 32 witness Zeros(32)

  /** A key of contract storage. */
  datatype StorageKey = StorageKey(bytes: H256)
  {
    /** `as_bytes`: the key's 32 bytes. */
    function AsBytes(): (r: seq<byte>)
      ensures |r| == 32
    {
      bytes
    }
  }

  /** `StorageKey::zero`: the all-zero key. */
  function Zero(): (z: StorageKey)
    ensures forall i :: 0 <= i < 32 ==> z.bytes[i] == 0
  {
    StorageKey(Zeros(32))
  }

  /**
    `StorageKey::from`: inputs of 32 bytes or more are cut to their first 32
    bytes; shorter ones are copied to the front of a zeroed 32-byte buffer.
   */
  function KeyFrom(k: seq<byte>): (r: StorageKey)
    ensures |k| >= 32 ==> r.bytes == k[..32]
    ensures |k| < 32 ==> r.bytes[..|k|] == k
    ensures |k| < 32 ==> forall i :: |k| <= i < 32 ==> r.bytes[i] == 0
  {
    if |k| >= 32 then StorageKey(k[..32])
    else StorageKey(k + Zeros(32 - |k|))
  }

  /** Trailing zero bytes are invisible to key derivation, up to the 32-byte limit. */
  lemma KeyFromPadding(b: seq<byte>, z: seq<byte>)
    requires |b| + |z| <= 32
    requires forall i :: 0 <= i < |z| ==> z[i] == 0
    ensures KeyFrom(b + z) == KeyFrom(b)
  {
    var l, r := KeyFrom(b + z).bytes, KeyFrom(b).bytes;
    forall i | 0 <= i < 32
      ensures l[i] == r[i]
    {
      if i < |b| {
        assert l[i] == (b + z)[i];
      } else if i < |b| + |z| {
        assert l[i] == z[i - |b|];
      }
    }
  }

  /** Bytes past the 32nd are invisible to key derivation. */
  lemma KeyFromTruncation(b: seq<byte>, t: seq<byte>)
    requires |b| >= 32
    ensures KeyFrom(b + t) == KeyFrom(b)
  {
    assert (b + t)[..32] == b[..32];
  }

  /** The empty name derives the zero key, the same key `remove` writes as its value. */
  lemma KeyFromEmpty()
    ensures KeyFrom([]) == Zero()
  {
  }

  /** Names of one length up to 32 bytes never collide. */
  lemma KeyFromInjective(a: seq<byte>, b: seq<byte>)
    requires |a| == |b| <= 32
    requires KeyFrom(a) == KeyFrom(b)
    ensures a == b
  {
    if |a| == 32 {
      assert a == a[..32] && b == b[..32];
    } else {
      assert a == KeyFrom(a).bytes[..|a|];
    }
  }

  /** The part of a name that key derivation looks at: its first 32 bytes. */
  function Clip(k: seq<byte>): (r: seq<byte>)
    ensures |r| <= 32 && |r| <= |k| && r == k[..|r|]
    ensures |k| <= 32 ==> r == k
  {
    if |k| >= 32 then k[..32] else k
  }

  /** The derived key is the clipped name followed by zeros. */
  lemma KeyFromClip(k: seq<byte>)
    ensures KeyFrom(k).bytes == Clip(k) + Zeros(32 - |Clip(k)|)
  {
    if |k| >= 32 {
      assert k[..32] + Zeros(0) == k[..32];
    }
  }

  /**
   * Every collision comes from zero padding and truncation: two names, the
   * shorter first, derive one key exactly when the clipped longer name is the
   * clipped shorter one followed by zeros.
   */
  lemma KeyFromCollision(a: seq<byte>, b: seq<byte>)
    requires |a| <= |b|
    ensures KeyFrom(a) == KeyFrom(b) <==> Clip(b) == Clip(a) + Zeros(|Clip(b)| - |Clip(a)|)
  {
    var ca, cb := Clip(a), Clip(b);
    var ka, kb := KeyFrom(a).bytes, KeyFrom(b).bytes;
    KeyFromClip(a);
    KeyFromClip(b);
    var padded := ca + Zeros(|cb| - |ca|);
    if ka == kb {
      forall i | 0 <= i < |cb|
        ensures cb[i] == padded[i]
      {
        assert cb[i] == kb[i];
        assert padded[i] == ka[i];
      }
    }
    if cb == padded {
      forall i | 0 <= i < 32
        ensures ka[i] == kb[i]
      {
        if i < |cb| {
          assert kb[i] == cb[i];
          assert ka[i] == padded[i];
        }
      }
      assert ka == kb;
    }
  }

  /** The unit test `from_short_storage_key_is_padded`: "my key" and its zero-padded 32-byte form derive one key. */
  lemma ShortKeyIsPadded()
    ensures KeyFrom([109, 121, 32, 107, 101, 121]) == KeyFrom([109, 121, 32, 107, 101, 121] + Zeros(26))
  {
    KeyFromPadding([109, 121, 32, 107, 101, 121], Zeros(26));
  }

  /** What `Storage::get` yields from the store content `kv`. */
  function Fetch<V>(kv: map<StorageKey, seq<byte>>, vc: Codec<V>, key: seq<byte>): Option<V>
  {
    var k := KeyFrom(key);
    if k in kv then DecodeValue(vc, kv[k]) else None
  }

  /** Contract storage, as the host keeps it. */
  class Store {
    var kv: map<StorageKey, seq<byte>>

    constructor ()
      ensures kv == map[]
    {
      kv := map[];
    }

    /** `get_kv`: the bytes last written under `k`, `None` if `k` was never written. */
    method GetKv(k: StorageKey) returns (r: Option<seq<byte>>)
      ensures r.Some? <==> k in kv
      ensures r.Some? ==> r.value == kv[k]
    {
      if k in kv {
        r := Some(kv[k]);
      } else {
        r := None;
      }
    }

    /** `put_kv(k, Some(v))`: the last write under a key wins; no other key changes. */
    method PutKv(k: StorageKey, v: seq<byte>)
      modifies this
      ensures kv == old(kv)[k := v]
    {
      kv := kv[k := v];
    }

    /** `Storage::put`: store the encoding of `value` under the key derived from `key`. */
    method Put<V>(vc: Codec<V>, key: seq<byte>, value: V)
      modifies this
      ensures kv == old(kv)[KeyFrom(key) := vc.enc(value)]
      ensures forall k :: k != KeyFrom(key) ==> (k in kv <==> k in old(kv))
      ensures forall k :: k != KeyFrom(key) && k in kv ==> kv[k] == old(kv)[k]
    {
      var k := KeyFrom(key);
      var v := vc.enc(value);
      PutKv(k, v);
    }

    /** `Storage::get`: `None` if nothing is stored under the derived key, else the decoding of what is (itself `None` when it does not decode). */
    method Get<V>(vc: Codec<V>, key: seq<byte>) returns (r: Option<V>)
      ensures KeyFrom(key) !in kv ==> r == None
      ensures KeyFrom(key) in kv ==> r == DecodeValue(vc, kv[KeyFrom(key)])
      ensures r == Fetch(kv, vc, key)
    {
      var k := KeyFrom(key);
      var v := GetKv(k);
      if v.Some? {
        return DecodeValue(vc, v.value);
      }
      return None;
    }

    /** `Storage::remove`: there is no delete, so the 32 zero bytes of the zero key are written instead. */
    method Remove(key: seq<byte>)
      modifies this
      ensures kv == old(kv)[KeyFrom(key) := Zeros(32)]
      ensures KeyFrom(key) in kv
    {
      var k := KeyFrom(key);
      PutKv(k, Zero().AsBytes());
    }
  }

  /** A value put under a key is got back from that key, for a sound codec. */
  lemma GetAfterPut<V(!new)>(kv: map<StorageKey, seq<byte>>, vc: Codec<V>, key: seq<byte>, value: V)
    requires Sound(vc)
    ensures Fetch(kv[KeyFrom(key) := vc.enc(value)], vc, key) == Some(value)
  {
    assert vc.enc(value) == vc.enc(value) + [];
    DecodeValueOfEncode(vc, value, []);
  }

  /** A put leaves every name that derives a different key as it was. */
  lemma GetAfterPutElsewhere<V>(kv: map<StorageKey, seq<byte>>, vc: Codec<V>, key: seq<byte>, other: seq<byte>, bytes: seq<byte>)
    requires KeyFrom(other) != KeyFrom(key)
    ensures Fetch(kv[KeyFrom(key) := bytes], vc, other) == Fetch(kv, vc, other)
  {
  }

  /** After `remove`, a typed read does not report absence: a `u32` read of the 32 zero bytes decodes to 0. */
  lemma GetU32AfterRemove(kv: map<StorageKey, seq<byte>>, key: seq<byte>)
    ensures Fetch(kv[KeyFrom(key) := Zeros(32)], U32Codec(), key) == Some(0)
  {
    var z := Zeros(32);
    assert z[0] == 0 && z[1] == 0 && z[2] == 0 && z[3] == 0;
  }
}

/**
  The persistent `Map<K, V>` of the contract SDK: an in-memory hash map that
  is loaded from one storage key as a single encoded entry list and flushed
  back to it the same way. The map does not remember its key: loading and
  flushing both take it as an argument. Mutations touch memory only.

  The wrapped hash map is the field `entries`; its iteration order is not
  modelled, so draining picks the entries in an arbitrary order.
 */
module StorageMap {
  import opened Wrappers
  import opened Bytes
  import opened Codec
  import opened Storage

  /** The SDK's error type; this layer raises only decoding failures. */
  datatype SDKError = Decode(msg: string)

  /** The message `load_or_default` attaches to a decoding failure. */
  const DecodeFailure: string := "Failed decoding got invalid data"

  /** The map obtained by inserting the pairs of `data` in order into an empty map. */
  function Rebuild<K, V>(data: seq<(K, V)>): map<K, V>
  {
    if data == [] then map[]
    else Rebuild(data[..|data| - 1])[data[|data| - 1].0 := data[|data| - 1].1]
  }

  /** No key occurs twice in `data`. */
  ghost predicate DistinctKeys<K, V>(data: seq<(K, V)>)
  {
    forall i, j :: 0 <= i < j < |data| ==> data[i].0 != data[j].0
  }

  /** `data` lists every entry of `m` exactly once, in some order. */
  ghost predicate IsEnumeration<K, V>(data: seq<(K, V)>, m: map<K, V>)
  {
    && DistinctKeys(data)
    && (forall i :: 0 <= i < |data| ==> data[i].0 in m && m[data[i].0] == data[i].1)
    && (forall k :: k in m ==> exists i :: 0 <= i < |data| && data[i].0 == k)
  }

  /** The keys of a rebuilt map are the keys the list mentions. */
  lemma {:induction false} RebuildKeys<K, V>(data: seq<(K, V)>, k: K)
    ensures k in Rebuild(data) <==> exists i :: 0 <= i < |data| && data[i].0 == k
  {
    if data != [] {
      var n := |data|;
      RebuildKeys(data[..n - 1], k);
      if k in Rebuild(data[..n - 1]) {
        var i :| 0 <= i < n - 1 && data[..n - 1][i].0 == k;
        assert data[i].0 == k;
      }
      if exists i :: 0 <= i < n && data[i].0 == k {
        var i :| 0 <= i < n && data[i].0 == k;
        if i < n - 1 {
          assert data[..n - 1][i].0 == k;
        }
      }
    }
  }

  /** Rebuilding keeps, for each key, the value of its last pair. */
  lemma {:induction false} RebuildLastWins<K, V>(data: seq<(K, V)>, j: nat)
    requires j < |data|
    requires forall i :: j < i < |data| ==> data[i].0 != data[j].0
    ensures data[j].0 in Rebuild(data) && Rebuild(data)[data[j].0] == data[j].1
  {
    var n := |data|;
    if j < n - 1 {
      var prefix := data[..n - 1];
      assert forall i :: j < i < |prefix| ==> prefix[i] == data[i];
      RebuildLastWins(prefix, j);
    }
  }

  /** Rebuilding an enumeration of a map gives back that map, whatever the order. */
  lemma RebuildEnumeration<K, V>(data: seq<(K, V)>, m: map<K, V>)
    requires IsEnumeration(data, m)
    ensures Rebuild(data) == m
  {
    forall k | k in m
      ensures k in Rebuild(data) && Rebuild(data)[k] == m[k]
    {
      var i :| 0 <= i < |data| && data[i].0 == k;
      RebuildLastWins(data, i);
    }
    forall k | k in Rebuild(data)
      ensures k in m
    {
      RebuildKeys(data, k);
    }
  }

  /** Appending an entry for a new key extends an enumeration. */
  lemma EnumerationAppend<K, V>(data: seq<(K, V)>, m: map<K, V>, k: K, v: V)
    requires IsEnumeration(data, m) && k !in m
    ensures IsEnumeration(data + [(k, v)], m[k := v])
  {
    var data', m' := data + [(k, v)], m[k := v];
    forall k' | k' in m'
      ensures exists i :: 0 <= i < |data'| && data'[i].0 == k'
    {
      if k' == k {
        assert data'[|data|].0 == k';
      } else {
        var i :| 0 <= i < |data| && data[i].0 == k';
        assert data'[i].0 == k';
      }
    }
  }

  /** Moving one entry from `e` to a disjoint `d` keeps their union and their disjointness. */
  lemma MoveEntry<K, V>(d: map<K, V>, e: map<K, V>, k: K)
    requires d.Keys !! e.Keys && k in e
    ensures d[k := e[k]].Keys !! (e - {k}).Keys
    ensures d[k := e[k]] + (e - {k}) == d + e
    ensures |e - {k}| < |e|
  {
    var l, r := d[k := e[k]] + (e - {k}), d + e;
    assert l.Keys == r.Keys;
    forall x | x in l
      ensures l[x] == r[x]
    {
      if x == k {
        assert l[x] == e[k];
      }
    }
    assert (e - {k}).Keys == e.Keys - {k};
  }

  /** The map the bytes `buf` decode to: the entry list they hold, rebuilt. */
  function DecodeMap<K, V>(kc: Codec<K>, vc: Codec<V>, buf: seq<byte>): Option<map<K, V>>
  {
    match DecodeValue(EntriesCodec(kc, vc), buf)
    case None => None
    case Some(data) => Some(Rebuild(data))
  }

  /** Encoded entry lists decode to the map their pairs rebuild, for sound element codecs. */
  lemma DecodeEncodedEntries<K(!new), V(!new)>(kc: Codec<K>, vc: Codec<V>, data: seq<(K, V)>)
    requires Sound(kc) && Sound(vc)
    ensures DecodeMap(kc, vc, EntriesCodec(kc, vc).enc(data)) == Some(Rebuild(data))
  {
    EntriesSound(kc, vc);
    var c := EntriesCodec(kc, vc);
    assert c.dec(c.enc(data) + []) == Some((data, []));
    assert c.enc(data) + [] == c.enc(data);
  }

  /** Decoding the encoding of any enumeration of `m` gives back `m`, for sound element codecs. */
  lemma MapRoundTrip<K(!new), V(!new)>(kc: Codec<K>, vc: Codec<V>, data: seq<(K, V)>, m: map<K, V>)
    requires Sound(kc) && Sound(vc)
    requires IsEnumeration(data, m)
    ensures DecodeMap(kc, vc, EntriesCodec(kc, vc).enc(data)) == Some(m)
  {
    DecodeEncodedEntries(kc, vc, data);
    RebuildEnumeration(data, m);
  }

  /**
    Decoding inserts the pairs in list order: when a key occurs more than once
    in an encoded list, the decoded map holds the value of its last pair.
   */
  lemma DecodeLastWins<K(!new), V(!new)>(kc: Codec<K>, vc: Codec<V>, data: seq<(K, V)>, j: nat)
    requires Sound(kc) && Sound(vc)
    requires j < |data|
    requires forall i :: j < i < |data| ==> data[i].0 != data[j].0
    ensures DecodeMap(kc, vc, EntriesCodec(kc, vc).enc(data)).Some?
    ensures data[j].0 in DecodeMap(kc, vc, EntriesCodec(kc, vc).enc(data)).value
    ensures DecodeMap(kc, vc, EntriesCodec(kc, vc).enc(data)).value[data[j].0] == data[j].1
  {
    DecodeEncodedEntries(kc, vc, data);
    RebuildLastWins(data, j);
  }

  class Map<K(==, !new), V> {
    var entries: map<K, V>

    /** `Map::new`: an empty map. */
    constructor ()
      ensures entries == map[]
      ensures Len() == 0
      ensures forall k :: Get(k) == None
    {
      entries := map[];
    }

    /** `len`: the number of entries. */
    function Len(): (n: nat)
      reads this
      ensures n == 0 <==> entries == map[]
    {
      |entries|
    }

    /** `get`: the value under `k`, `None` if there is none. */
    function Get(k: K): (r: Option<V>)
      reads this
      ensures r.Some? <==> k in entries
      ensures r.Some? ==> r.value == entries[k]
    {
      if k in entries then Some(entries[k]) else None
    }

    /** `contains_key`: whether `get` finds a value. */
    function ContainsKey(k: K): (b: bool)
      reads this
      ensures b <==> Get(k).Some?
    {
      k in entries
    }

    /** `map[&k]`: the value under `k`; indexing an absent key panics. */
    function Index(k: K): (v: V)
      reads this
      requires ContainsKey(k)
      ensures Get(k) == Some(v)
    {
      entries[k]
    }

    /** `insert`: `k` now maps to `v`; every other key keeps its value. */
    method Insert(k: K, v: V)
      modifies this
      ensures entries == old(entries)[k := v]
      ensures Get(k) == Some(v)
      ensures forall k' :: k' != k ==> Get(k') == old(Get(k'))
      ensures Len() == if k in old(entries) then old(Len()) else old(Len()) + 1
    {
      entries := entries[k := v];
    }

    /** `remove`: `k` no longer has a value; every other key keeps its value. */
    method Remove(k: K)
      modifies this
      ensures entries == old(entries) - {k}
      ensures Get(k) == None
      ensures forall k' :: k' != k ==> Get(k') == old(Get(k'))
      ensures k !in old(entries) ==> entries == old(entries)
      ensures Len() == if k in old(entries) then old(Len()) - 1 else old(Len())
    {
      entries := entries - {k};
    }

    /**
      `encode`: drains every entry, in some order, into a list and encodes
      the list. The map is left empty; `data` is the list that was encoded.
     */
    method Encode(kc: Codec<K>, vc: Codec<V>) returns (bytes: seq<byte>, ghost data: seq<(K, V)>)
      modifies this
      ensures entries == map[]
      ensures IsEnumeration(data, old(entries))
      ensures bytes == EntriesCodec(kc, vc).enc(data)
    {
      var list: seq<(K, V)> := [];
      ghost var drained: map<K, V> := map[];
      while entries != map[]
        invariant drained.Keys !! entries.Keys
        invariant drained + entries == old(entries)
        invariant IsEnumeration(list, drained)
        decreases |entries|
      {
        var k :| k in entries;
        EnumerationAppend(list, drained, k, entries[k]);
        MoveEntry(drained, entries, k);
        list := list + [(k, entries[k])];
        drained := drained[k := entries[k]];
        entries := entries - {k};
      }
      assert drained + entries == drained;
      bytes := EntriesCodec(kc, vc).enc(list);
      data := list;
    }

    /** `decode`: decodes an entry list and inserts its pairs in order into a new map. */
    static method Decode(kc: Codec<K>, vc: Codec<V>, buf: seq<byte>) returns (r: Result<Map<K, V>, ()>)
      ensures r.Err? <==> DecodeMap(kc, vc, buf).None?
      ensures r.Ok? ==> fresh(r.value) && r.value.entries == DecodeMap(kc, vc, buf).value
    {
      var decoded := DecodeValue(EntriesCodec(kc, vc), buf);
      if decoded.None? {
        return Err(());
      }
      var data := decoded.value;
      var m := new Map();
      for i := 0 to |data|
        invariant m.entries == Rebuild(data[..i])
      {
        assert data[..i + 1][..i] == data[..i];
        m.Insert(data[i].0, data[i].1);
      }
      assert data[..|data|] == data;
      return Ok(m);
    }

    /**
      `load_or_default`: an empty map if nothing is stored under `key`, a
      decoding error if the stored bytes do not decode, and the decoded map
      otherwise. The store is only read.
     */
    static method LoadOrDefault(store: Store, key: StorageKey, kc: Codec<K>, vc: Codec<V>)
      returns (r: Result<Map<K, V>, SDKError>)
      ensures key !in store.kv ==> r.Ok? && fresh(r.value) && r.value.entries == map[]
      ensures key in store.kv && DecodeMap(kc, vc, store.kv[key]).None? ==>
                r == Err(SDKError.Decode(DecodeFailure))
      ensures key in store.kv && DecodeMap(kc, vc, store.kv[key]).Some? ==>
                r.Ok? && fresh(r.value) && r.value.entries == DecodeMap(kc, vc, store.kv[key]).value
    {
      var data := store.GetKv(key);
      if data.Some? {
        var decoded := Decode(kc, vc, data.value);
        if decoded.Ok? {
          r := Ok(decoded.value);
        } else {
          r := Err(SDKError.Decode(DecodeFailure));
        }
      } else {
        var m := new Map();
        r := Ok(m);
      }
    }

    /**
      `flush`: writes the encoding of all entries under `key`, touching no
      other key, and leaves the map empty; `data` is the list that was written.
     */
    method Flush(store: Store, key: StorageKey, kc: Codec<K>, vc: Codec<V>) returns (ghost data: seq<(K, V)>)
      modifies this, store
      ensures entries == map[]
      ensures IsEnumeration(data, old(entries))
      ensures store.kv == old(store.kv)[key := EntriesCodec(kc, vc).enc(data)]
    {
      var bytes;
      bytes, data := Encode(kc, vc);
      store.PutKv(key, bytes);
    }
  }

  /** Flushing a map and loading it back from the same key gives back its entries. */
  method FlushThenLoad<K(==, !new), V(!new)>(m: Map<K, V>, store: Store, key: StorageKey, kc: Codec<K>, vc: Codec<V>)
    returns (r: Result<Map<K, V>, SDKError>)
    requires Sound(kc) && Sound(vc)
    modifies m, store
    ensures m.entries == map[]
    ensures r.Ok? && r.value.entries == old(m.entries)
  {
    ghost var before := m.entries;
    ghost var data := m.Flush(store, key, kc, vc);
    MapRoundTrip(kc, vc, data, before);
    r := Map<K, V>.LoadOrDefault(store, key, kc, vc);
  }
}

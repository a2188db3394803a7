/** The persistent map's unit test and its load, mutate, flush and reload cycle, on concrete codecs. */
module MapTests {
  import opened Wrappers
  import opened Bytes
  import opened Codec
  import opened Codecs
  import opened Storage
  import opened StorageMap

  /** The unit test `it_encodes_and_decodes_the_same`: both entries survive an encode and a decode. */
  method EncodesAndDecodesTheSame() returns (one: MockValue, two: MockValue)
    ensures one == MockValue(2, [1, 2, 3, 4])
    ensures two == MockValue(3, [5, 6, 7, 8])
  {
    var m := new Map<u32, MockValue>();
    m.Insert(1, MockValue(2, [1, 2, 3, 4]));
    m.Insert(2, MockValue(3, [5, 6, 7, 8]));
    ghost var original := m.entries;
    var buf;
    ghost var data;
    buf, data := m.Encode(U32Codec(), MockValueCodec());
    U32Sound();
    MockValueSound();
    MapRoundTrip(U32Codec(), MockValueCodec(), data, original);
    var decoded := Map<u32, MockValue>.Decode(U32Codec(), MockValueCodec(), buf);
    var d := decoded.value;
    one := d.Index(1);
    two := d.Index(2);
  }

  /**
    A map loaded from a key nothing was written to starts empty; after two
    inserts and a flush, loading from the same key finds both entries, and a
    removal on the loaded copy is seen by its lookups.
   */
  method LoadMutateFlushReload(store: Store) returns (initial: nat, one: Option<MockValue>, two: Option<MockValue>, gone: Option<MockValue>)
    requires store.kv == map[]
    modifies store
    ensures initial == 0
    ensures one == Some(MockValue(2, [1, 2, 3, 4]))
    ensures two == Some(MockValue(3, [5, 6, 7, 8]))
    ensures gone == None
  {
    var key := KeyFrom([109, 121, 32, 109, 97, 112]);  // "my map"
    var kc, vc := U32Codec(), MockValueCodec();
    U32Sound();
    MockValueSound();
    var created := Map<u32, MockValue>.LoadOrDefault(store, key, kc, vc);
    var m := created.value;
    initial := m.Len();
    m.Insert(1, MockValue(2, [1, 2, 3, 4]));
    m.Insert(2, MockValue(3, [5, 6, 7, 8]));
    ghost var before := m.entries;
    ghost var data := m.Flush(store, key, kc, vc);
    MapRoundTrip(kc, vc, data, before);
    var loaded := Map<u32, MockValue>.LoadOrDefault(store, key, kc, vc);
    var l := loaded.value;
    one := l.Get(1);
    two := l.Get(2);
    l.Remove(1);
    gone := l.Get(1);
  }
}

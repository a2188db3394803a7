# Contract storage of the CENNZnet contract SDK, in Dafny

This project models the storage layer of the CENNZnet contract SDK (Rust).
Contract code sees the host's storage through two primitives: `get_kv` reads
the bytes under a 32-byte key, and `put_kv` writes them. On top of these the
SDK offers:

- `StorageKey::from`, which turns any byte string into a 32-byte key. Longer
  inputs are truncated and shorter ones are zero-padded.
- A typed `Storage::put` / `get` / `remove`. There is no delete: `remove`
  writes the 32 zero bytes of `StorageKey::zero()`.
- A persistent `Map<K, V>`. It is a hash map in memory. `load_or_default(key)`
  loads it from one storage key as a single encoded list of pairs, and
  `flush(key)` writes it back the same way, which drains the map.
- Two helpers that write a `u32` or `u64` as big-endian bytes.

Modules, one per component:

- `Util` (`util.dfy`) has the integer-to-bytes helpers. They are methods
  that fill a zeroed array in a loop, as the source does. They are specified
  by `BigEndian` and `ByteAt`, and proved to round-trip through
  `FromBigEndian`.
- `Storage` (`storage.dfy`) has the key derivation and the store.
  - Key derivation is a pure function with lemmas about padding, truncation
    and collisions.
  - The host store is a `Store` object. Its field `kv` maps keys to bytes.
    The SDK's static `Storage` functions act on one global host store; here
    they are methods of that object.
- `StorageMap` (`map.dfy`) has the persistent `Map`. It is a class whose
  field `entries` is the wrapped hash map. `insert` and `remove` update it
  in place, `encode` drains it in a loop, and `decode` rebuilds a map by
  inserting the decoded pairs in order.
  - `Rebuild` gives the map a list of pairs rebuilds to.
  - `IsEnumeration` says that a list holds each entry of a map exactly once.
  - With these two, the model proves that decoding gives back what was
    encoded at the level of content, whatever order the drain chose.
- `Codec` (`codec.dfy`) and `Codecs` (`codecs.dfy`) stand in for the
  parity_codec (SCALE) library, which is not part of this model.
  - A `Codec<T>` pairs an encoder with a decoder. The decoder reads one value
    off the front of its input and returns the unread rest.
  - `Sound(c)` says that decoding reads back exactly what encoding wrote.
  - Pairs and vectors are built from element codecs as SCALE builds them:
    the components in order, and a count followed by the elements.
  - The count is a base-128 varint, standing in for SCALE's compact integers.
  - `Codecs` gives concrete sound codecs for `u8`, `u32` (little-endian, as
    in SCALE), `Vec<u8>` and the record used by the map's unit test.
- `MapTests` (`map_tests.dfy`) replays the map's unit test. It also states
  and verifies a load, insert, flush and reload cycle on a fresh store.

Behaviour of the source worth noting:

- There is no strict `load` that fails on absence. The only loader is
  `load_or_default`.
- The map is not bound to a key. Both `load_or_default` and `flush` take the
  key as an argument.
- `Map::decode` and `Storage::get` ignore bytes left over after the value.
  parity's `Decode::decode` on a slice does not demand that the whole input
  be consumed.
- `Storage::get` after `Storage::remove` does not report absence. It decodes
  the 32 zero bytes, which for a `u32` give `Some(0)` (`GetU32AfterRemove`).

## Model

| member | source | states |
|---|---|---|
| `Util.U32ToBytes` | src/util.rs:6-13 | Returns 4 bytes with `r[3 - i] == (x / 256^i) % 256` for i in 0..4, so `r[0]` is the most significant byte. The result equals `BigEndian(x, 4)` and its bytes add back up to `x`. The loop keeps positions `4 - i..3` final and `0..3 - i` zero. |
| `Util.U64ToBytes` | src/util.rs:16-23 | Returns 8 bytes with `r[7 - i] == (x / 256^i) % 256` for i in 0..8. The result equals `BigEndian(x, 8)` and its bytes add back up to `x`. |
| `Util.BigEndianAt` | src/util.rs:9 | Position `n - 1 - i` of the n-byte big-endian form holds byte i of `x`, which is `(x >> 8i) & 0xFF`. |
| `Util.BigEndianFromBytes` | src/util.rs:7-10 | A buffer whose position `n - 1 - i` holds byte i of `x`, for every i < n, is the big-endian form of `x`. |
| `Util.BigEndianRoundTrip` | src/util.rs:6-23 | For `x < 256^n`, the sum of `b[j] * 256^(n-1-j)` over the big-endian bytes equals `x`. |
| `Util.BigEndianInjective` | src/util.rs:6-23 | Two numbers below `256^n` with the same big-endian bytes are equal, so `u32_to_bytes` and `u64_to_bytes` are injective. |
| `Storage.StorageKey.AsBytes` | src/storage.rs:43-45 | A key's bytes are exactly 32 long. |
| `Storage.Zero` | src/storage.rs:39-41 | All 32 bytes of the zero key are 0. |
| `Storage.KeyFrom` | src/storage.rs:66-77 | An input of 32 bytes or more gives its first 32 bytes. A shorter input of length n gives a key whose first n bytes are the input and whose other 32 - n bytes are 0. |
| `Storage.KeyFromPadding` | src/storage.rs:74-76 | Appending zero bytes, up to 32 bytes in all, does not change the derived key. |
| `Storage.KeyFromTruncation` | src/storage.rs:69-72 | Bytes after the 32nd do not change the derived key. |
| `Storage.KeyFromEmpty` | src/storage.rs:66-77 | The empty input derives the zero key. |
| `Storage.KeyFromInjective` | src/storage.rs:66-77 | Two inputs of the same length, at most 32, that derive the same key are equal. |
| `Storage.KeyFromCollision` | src/storage.rs:66-77 | For any two inputs, the shorter first: they derive the same key exactly when the first 32 bytes of the longer are the first 32 bytes of the shorter followed by zeros. So collisions come only from zero padding and truncation. |
| `Storage.ShortKeyIsPadded` | src/storage.rs:152-157 | "my key" and its form padded with zeros to 32 bytes derive the same key. |
| `Storage.Store.GetKv` | src/storage.rs:55-56 | Returns `Some` of the bytes last written under the key, and `None` exactly when the key was never written. |
| `Storage.Store.PutKv` | src/storage.rs:57-58 | Writing `Some(v)` stores `v` under the key. The last write wins and no other key changes. |
| `Storage.Store.Put` | src/storage.rs:83-91 | Stores the encoding of the value under `KeyFrom(key)`. Every other key keeps its presence and its bytes. |
| `Storage.Store.Get` | src/storage.rs:95-105 | Returns `None` when nothing is stored under `KeyFrom(key)`. Otherwise it returns the decoding of the stored bytes, which is itself `None` when they do not decode. |
| `Storage.Store.Remove` | src/storage.rs:107-114 | Writes the 32 zero bytes under `KeyFrom(key)` instead of deleting, so the key is still present afterwards. |
| `Storage.GetAfterPut` | src/storage.rs:83-105 | With a sound codec, `get` after `put` under the same name returns `Some` of the value that was put. |
| `Storage.GetAfterPutElsewhere` | src/storage.rs:83-91 | A `put` does not change what `get` returns for any name that derives a different key. |
| `Storage.GetU32AfterRemove` | src/storage.rs:107-114 | After `remove`, a `u32` `get` of the name returns `Some(0)`, not `None`. |
| `Codec.DecodeValueOfEncode` | src/storage.rs:102 | With a sound codec, decoding a buffer that starts with a value's encoding gives that value, whatever bytes follow. |
| `Codec.CountRoundTrip` | src/map.rs:92 | Every count prefix decodes back to its count and leaves the following bytes unread. |
| `Codec.ElemsRoundTrip` | src/map.rs:92 | With a sound element codec, the concatenated elements of a list decode back to the same list in the same order. |
| `Codec.PairSound` | src/map.rs:92 | A pair codec built from two sound codecs is sound. |
| `Codec.VecSound` | src/map.rs:92 | A vector codec built from a sound element codec is sound. |
| `Codec.EntriesSound` | src/map.rs:75 | The `Vec<(K, V)>` codec is sound when the key and value codecs are. |
| `Codecs.U8Sound` | src/map.rs:138 | The `u8` codec is sound. |
| `Codecs.U32RoundTrip` | src/map.rs:137 | A `u32` written as 4 bytes, least significant first, reads back as the same number, and the bytes after it are left unread. |
| `Codecs.U32Sound` | src/map.rs:137 | The `u32` codec, 4 bytes least significant first, is sound. |
| `Codecs.BytesSound` | src/map.rs:138 | The `Vec<u8>` codec is sound. |
| `Codecs.MockValueSound` | src/map.rs:135-139 | The derived codec of the test record `MockValue` is sound. |
| `StorageMap.RebuildKeys` | src/map.rs:77-79 | A key is in the rebuilt map exactly when some pair of the list has that key. |
| `StorageMap.RebuildLastWins` | src/map.rs:77-79 | For each key, the rebuilt map holds the value of the last pair with that key. |
| `StorageMap.RebuildEnumeration` | src/map.rs:77-79 | Rebuilding any list that holds each entry of `m` exactly once gives back `m`, whatever the list's order. |
| `StorageMap.EnumerationAppend` | src/map.rs:88-91 | Appending an entry for a new key to a list of the entries drained so far keeps it an exact list of the drained entries. |
| `StorageMap.DecodeEncodedEntries` | src/map.rs:71-93 | With sound codecs, the encoding of a pair list decodes to the map those pairs rebuild. |
| `StorageMap.MapRoundTrip` | src/map.rs:141-164 | With sound codecs, decoding the encoding of any enumeration of `m` gives `Some(m)`. Content survives whatever order the drain chose. |
| `StorageMap.DecodeLastWins` | src/map.rs:71-81 | When a key occurs more than once in an encoded list, the decoded map holds the value of the key's last pair. |
| `StorageMap.Map.constructor` | src/map.rs:26-28 | A new map has length 0, and `get` returns `None` for every key. |
| `StorageMap.Map.Len` | src/map.rs:30-33 | The length is 0 exactly when the map is empty. |
| `StorageMap.Map.Get` | src/map.rs:35-42 | Returns `Some(v)` exactly when the key is present, and `v` is the value stored under it. |
| `StorageMap.Map.ContainsKey` | src/map.rs:58-64 | Holds exactly when `get` returns `Some`. |
| `StorageMap.Map.Index` | src/map.rs:115-127 | Only callable for a present key, since an absent key panics. Returns the value `get` returns. |
| `StorageMap.Map.Insert` | src/map.rs:44-47 | Afterwards `get(k) == Some(v)` and every other key keeps its value. The length grows by one exactly when `k` was absent. |
| `StorageMap.Map.Remove` | src/map.rs:49-56 | Afterwards `get(k)` is `None` and every other key keeps its value. Removing an absent key changes nothing. The length drops by one exactly when `k` was present. |
| `StorageMap.Map.Encode` | src/map.rs:83-93 | Leaves the map empty. Returns the encoding of a list that holds each former entry exactly once, in the order of the drain. |
| `StorageMap.Map.Decode` | src/map.rs:71-81 | Returns `Err` exactly when the bytes do not decode as a pair list. Otherwise it returns a new map equal to the pairs inserted in list order. |
| `StorageMap.Map.LoadOrDefault` | src/map.rs:95-105 | Returns an empty map when nothing is stored under the key. Returns `Err(SDKError::Decode(..))` when the stored bytes do not decode, and the decoded map otherwise. |
| `StorageMap.Map.Flush` | src/map.rs:107-112 | Writes the encoding of a list of every former entry under the key and touches no other store key. Leaves the map empty. |
| `StorageMap.FlushThenLoad` | src/map.rs:95-112 | With sound codecs, `load_or_default` after `flush` under the same key returns exactly the entries the map had before the flush. |
| `MapTests.EncodesAndDecodesTheSame` | src/map.rs:141-164 | After encoding a map with entries 1 and 2 and decoding the bytes, indexing 1 and 2 gives the original `MockValue`s. |
| `MapTests.LoadMutateFlushReload` | src/map.rs:95-112 | Loading from an unwritten key gives an empty map (length 0). After two inserts and a flush, reloading finds both entries. A later `remove` makes `get` return `None`. |

## Left out

- `src/runtime.rs`: host calls are not modelled. This covers the `extern "C"` bindings, scratch buffers, gas, caller, timestamp, randomness, events, cross-contract calls and `return_with`. They are foreign calls.
- The `StorageABI for Storage` bodies (src/storage.rs:118-146) are replaced by the in-memory `Store`. They are unsafe calls into the host's `ext_set_storage` and `ext_get_storage`.
- `put_kv(key, None)` is not modelled. Its effect is host-defined and no caller in the SDK passes `None`, so `Store.PutKv` takes the bytes directly.
- `StorageKey::as_ptr` and `Map::iter` are left out. One returns a raw pointer and the other a borrowing iterator, and neither has behaviour beyond the key's bytes or the map's content.
- parity_codec's own encodings are not modelled. It is an external library. A stand-in with the same shape takes its place, with a varint count instead of SCALE's compact integer. The map-level laws assume only that the key and value codecs are `Sound`.
- Nested maps as values are not modelled, because the source cannot express them. `Map` has no `Codec` implementation: its `encode` and `decode` are private inherent functions (src/map.rs:71-93). Since the impl demands `V: Codec` (src/map.rs:21-25), a `Map<_, Map<_, _>>` cannot be constructed or used: `new`, `insert`, `flush` and the rest sit in that impl, and the map's field is private.
- `hashbrown`'s iteration order is not modelled. `Map.Encode` drains the entries in an arbitrary order, and every law is stated for all orders.
- The "2**16 entries / 2GiB" limit in the comment at src/map.rs:12-13 is not modelled, because nothing in the code enforces it.
- `SDKError` comes from `crate::error`, which is not part of this model. Only its `Decode(msg)` case is used by this layer, so the model declares only that case.
- StorageMap.Map.Index: the panic on an absent key (src/map.rs:125) is not modelled as a failure. It becomes the precondition `ContainsKey(k)`, so the model promises nothing for an absent key.
- Machine-width overflow is not modelled. `u32` and `u64` are integer subset types, and `x >> 8i & 0xFF` is written as `(x / 256^i) % 256`, which agrees for unsigned inputs.
- `bootstrap/src/lib.rs`, `src/lib.rs` and `src/index.rs` are not modelled. They hold allocator and panic glue, module wiring, and type aliases with asset constants.

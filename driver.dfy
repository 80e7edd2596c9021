/**
 * The typed storage driver: an ordered, byte-keyed, byte-valued store plus a
 * store-wide id counter, used as a typed record store. Every value goes
 * through a record codec on the way in and out.
 */
module Driver {
  import opened Wrappers
  import opened Ints
  import opened Bincode
  import opened Keys

  /** One element of a scan: the key with its decoded value, or the decode error for this element only. */
  function DecodeItem<T>(codec: Codec<T>, key: Key, bytes: Bytes): Result<(Key, T), CodecError>
  {
    match codec.decode(bytes)
    case Ok(v) => Ok((key, v))
    case Err(e) => Err(e)
  }

  /** With a round-tripping codec, a scan hands back each stored value as it was inserted, under its key. */
  lemma ScanItemRoundTrip<T(!new)>(codec: Codec<T>, key: Key, v: T)
    requires RoundTrips(codec)
    ensures DecodeItem(codec, key, codec.encode(v)) == Ok((key, v))
  {
    assert codec.decode(codec.encode(v)) == Ok(v);
  }

  class Db {
    /** The store's contents. */
    var entries: map<Key, Bytes>
    /** The store's id generator: the next id to hand out. */
    var counter: u64
    /** Every id handed out so far, in order. */
    ghost var issued: seq<u64>

    /** The generator counts up from 0 and wraps at 2^64, like an atomic u64 fetch-add. */
    ghost predicate Valid()
      reads this
    {
      && counter as int == |issued| % U64_LIMIT
      && forall i | 0 <= i < |issued| :: issued[i] as int == i % U64_LIMIT
    }

    /** Opening a fresh store: no entries, counter at 0. */
    constructor ()
      ensures Valid()
      ensures entries == map[] && counter == 0 && issued == []
    {
      entries := map[];
      counter := 0;
      issued := [];
    }

    /** The next id of the store-wide generator. */
    method NextId() returns (id: u64)
      requires Valid()
      modifies this
      ensures Valid()
      ensures id == old(counter) && issued == old(issued) + [id]
      ensures counter as int == (old(counter) as int + 1) % U64_LIMIT
      ensures old(issued) == [] ==> id == 0
      ensures |old(issued)| < U64_LIMIT ==> forall j | j in old(issued) :: j < id
      ensures entries == old(entries)
    {
      id := counter;
      counter := if counter as int == U64_LIMIT - 1 then 0 else counter + 1;
      issued := issued + [id];
      assert |issued| % U64_LIMIT == if old(counter) as int == U64_LIMIT - 1 then 0 else old(counter) as int + 1;
      forall j | j in old(issued) && |old(issued)| < U64_LIMIT ensures j < id {
        var i :| 0 <= i < |old(issued)| && old(issued)[i] == j;
      }
    }

    /** Upsert: the encoded value replaces whatever was stored at `key`. */
    method Insert<T(!new)>(codec: Codec<T>, key: Key, value: T)
      modifies this
      ensures entries == old(entries)[key := codec.encode(value)]
      ensures counter == old(counter) && issued == old(issued)
      ensures old(Valid()) ==> Valid()
      ensures RoundTrips(codec) ==> Get(codec, key) == Ok(Some(value))
    {
      entries := entries[key := codec.encode(value)];
    }

    /**
     * The value at `key`: Ok(None) exactly when the key is absent (nothing is
     * decoded then); otherwise the decoded bytes, or the decode error.
     */
    function Get<T(!new)>(codec: Codec<T>, key: Key): (r: Result<Option<T>, CodecError>)
      reads this
      ensures key !in entries <==> r == Ok(None)
      ensures key in entries ==> (r.Ok? <==> codec.decode(entries[key]).Ok?)
      ensures r.Ok? && r.value.Some? ==> codec.decode(entries[key]) == Ok(r.value.value)
      ensures r.Err? ==> key in entries && codec.decode(entries[key]) == Err(r.error)
    {
      if key !in entries then Ok(None)
      else match codec.decode(entries[key])
        case Ok(v) => Ok(Some(v))
        case Err(e) => Err(e)
    }

    /** Deletes `key`; removing an absent key is not an error and changes nothing. */
    method Remove(key: Key)
      modifies this
      ensures entries == old(entries) - {key}
      ensures key !in old(entries) ==> entries == old(entries)
      ensures counter == old(counter) && issued == old(issued)
      ensures old(Valid()) ==> Valid()
    {
      entries := entries - {key};
    }

    /** Every entry once, in ascending key order, each decoded on its own. */
    method Iter<T>(codec: Codec<T>) returns (items: seq<Result<(Key, T), CodecError>>)
      ensures |items| == |entries|
      ensures forall i | 0 <= i < |items| ::
        var k := Ordered(entries.Keys)[i]; items[i] == DecodeItem(codec, k, entries[k])
    {
      var keys := Scan(entries.Keys);
      items := Decoded(codec, keys);
    }

    /** The entries whose key starts with `prefix`, in ascending key order, each decoded on its own. */
    method IterPrefix<T>(codec: Codec<T>, prefix: Key) returns (items: seq<Result<(Key, T), CodecError>>)
      ensures |items| == |WithPrefix(entries.Keys, prefix)|
      ensures forall i | 0 <= i < |items| ::
        var k := Ordered(WithPrefix(entries.Keys, prefix))[i];
        k in entries && items[i] == DecodeItem(codec, k, entries[k])
    {
      var keys := Scan(WithPrefix(entries.Keys, prefix));
      items := Decoded(codec, keys);
    }

    /** The decoding `map` applied to a key-ordered run of entries. */
    function Decoded<T>(codec: Codec<T>, keys: seq<Key>): (items: seq<Result<(Key, T), CodecError>>)
      reads this
      requires forall k | k in keys :: k in entries
    {
      seq(|keys|, i requires 0 <= i < |keys| && keys[i] in entries reads this => DecodeItem(codec, keys[i], entries[keys[i]]))
    }
  }
}

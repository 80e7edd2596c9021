# Typed record store and todo handlers

This project models the storage core of a small todo web application written in Rust:

- **The typed driver `Db`.** It wraps an ordered, persistent key-value store (sled). Keys are strings. Each value is serialized with bincode: the default options, but big-endian. The driver offers:
  - `next_id`, a store-wide id generator;
  - `insert` (an upsert), `get` and `remove`;
  - `iter`, a full scan in key order;
  - `iter_prefix`, a prefix scan in key order.

  A scan decodes each element separately, so one bad record fails only its own element.
- **The `Todo` record.** Fields `id`, `title` and `completed`, plus `Todo::new`.
- **The four todo handlers.** Each is one atomic step on the shared store:
  - `todos` lists every record under the prefix `"todo"`. The first record that does not decode fails the whole listing. The prefix has no colon, so a key such as `"todos"` would also be listed. The handlers only ever write `"todo:<id>"` keys, so the listing succeeds on every store they maintain.
  - `create_todo` draws an id and stores a new, not-completed todo at `"todo:<id>"`.
  - `toggle_todo` flips `completed` on the stored todo.
  - `remove_todo` deletes the todo's key.

The modules:

- **`Ints` and `Wrappers`.** `u8`, `u64`, byte strings, `Option` and `Result`.
- **`Keys`.** Keys as strings and the lexicographic order on them:
  - `Ordered(ks)` is the key-ordered listing of a key set;
  - `WithPrefix` selects the keys with a given prefix;
  - `Scan` is the loop that produces that listing.
- **`Utf8`.** UTF-8 encoding, and the strict decoder that bincode applies to strings (RFC 3629).
- **`Bincode`.** The value codec:
  - variable-length integers;
  - bools;
  - length-prefixed strings;
  - structs as their fields in order;
  - the rule that rejects trailing bytes.

  `Codec<T>` pairs a serializer with a deserializer. `RoundTrips(c)` says that decoding an encoding gives back the value.
- **`Driver`.** The `Db` class:
  - `entries: map<Key, Bytes>` is the store's contents;
  - `counter: u64` is the id generator;
  - the ghost `issued` is the history of ids handed out.
- **`DriverTests`.** The driver's unit tests, one method each. What each test checks is stated as its postcondition.
- **`Models`.** `Todo` and its derived serde encoding.
- **`App`.** The handlers, and `TodoEntries`, the store invariant they maintain: every key under `"todo"` holds the canonical encoding of a todo whose key is `"todo:" + id` and whose id has already been drawn.

## Model

| member | source | states |
|---|---|---|
| Driver.Db.constructor | src/db/driver.rs:14-23 | a freshly opened store has no entries and its generator is at 0 |
| Driver.Db.NextId | src/db/driver.rs:26-29 | returns the generator's current value and advances it by one modulo 2^64; the first id is 0; before wrap-around each id is greater than every earlier one; entries are untouched |
| Driver.Db.Insert | src/db/driver.rs:30-35 | the key now maps to the value's encoding, replacing any previous value; nothing else changes and the generator invariant is kept; with a round-tripping codec, a get of the key returns the value |
| Driver.Db.Get | src/db/driver.rs:36-45 | Ok(None) exactly when the key is absent; otherwise the decoded value, or the decode error when the bytes do not decode |
| Driver.Db.Remove | src/db/driver.rs:46-50 | the key is gone and every other entry is unchanged; removing an absent key changes nothing; the generator invariant is kept |
| Driver.Db.Iter | src/db/driver.rs:53-63 | one item per entry, in ascending key order; each item is the key with its decoded value, or that entry's own decode error |
| Driver.Db.IterPrefix | src/db/driver.rs:64-75 | one item per key that starts with the prefix, in ascending key order; each item is decoded separately |
| Driver.ScanItemRoundTrip | src/db/driver.rs:56-61 | with a round-tripping codec, a scan element over an inserted value is Ok and carries its key and exactly the inserted value |
| Keys.Scan | src/db/driver.rs:56 | the loop that lists a key set yields exactly `Ordered(ks)`, the strictly ascending listing of the set |
| Keys.Ordered | src/db/driver.rs:56 | the listing is strictly ascending, contains exactly the keys of the set, and has one element per key |
| Keys.OrderedStep | src/db/driver.rs:56 | one step of the scan: moving the least unvisited key to the end of the listing so far leaves the eventual listing unchanged |
| Keys.OrderedUnique | src/db/driver.rs:56 | any strictly ascending listing of a key set is `Ordered` of that set, so the scan order is determined |
| Keys.LessTransitive | src/db/driver.rs:56 | the key order is transitive |
| Keys.LessTotal | src/db/driver.rs:56 | any two distinct keys are ordered one way or the other |
| Keys.LessIrreflexive | src/db/driver.rs:56 | no key is below itself |
| Keys.LeastExists | src/db/driver.rs:56 | every non-empty key set has a least key |
| Keys.ProperPrefixLess | src/db/driver.rs:192-198 | a key comes before every longer key it is a prefix of, so "test" is scanned before "test2" |
| Keys.LessCommonPrefix | src/main.rs:160 | a shared prefix does not change how two keys compare |
| Keys.WithPrefix | src/db/driver.rs:68 | a key is selected exactly when it is in the store and starts with the prefix |
| Keys.PrefixScanIsFilter | src/db/driver.rs:53-75 | a prefix scan lists the same keys, in the same order, as filtering the full scan by the prefix |
| Keys.PrefixScanContiguous | src/db/driver.rs:68 | in key order the keys with a given prefix form one contiguous block, so a scan can stop at the first key without the prefix |
| Keys.FilterSorted | src/db/driver.rs:68 | filtering an ascending listing keeps it ascending |
| Keys.FilterMembers | src/db/driver.rs:68 | filtering keeps exactly the elements that have the prefix |
| Bincode.BigEndianRoundTrip | src/db/driver.rs:16 | a value that fits in `width` big-endian bytes is read back unchanged |
| Bincode.VarintRoundTrip | src/db/driver.rs:32 | decoding an encoded u64 gives back the same integer and leaves the following bytes in place |
| Bincode.BoolRoundTrip | src/models/mod.rs:7 | a bool's one byte is decoded back to the same bool, and the rest is left in place |
| Bincode.StrRoundTrip | src/models/mod.rs:6 | a string's length prefix and UTF-8 bytes are decoded back to the same string, and the rest is left in place |
| Bincode.ValueRoundTrip | src/models/mod.rs:3-8 | every field value is decoded back, at the kind it was written as |
| Bincode.DecodeValue | src/db/driver.rs:43 | a successful decode yields a value of the requested kind |
| Bincode.DecodeTuple | src/db/driver.rs:43 | a successful decode yields exactly the requested field kinds, in order |
| Bincode.TupleRoundTrip | src/models/mod.rs:3-8 | fields written one after another are decoded back in order, and the bytes after them are left in place |
| Bincode.DecodeRecord | src/db/driver.rs:43 | a successful decode yields exactly the requested field kinds, in order |
| Bincode.TrailingRejected | src/db/driver.rs:16 | bytes after a complete record make the decode fail with TrailingBytes, as bincode's default options require |
| Bincode.RecordRoundTrip | src/db/driver.rs:32-43 | a record's encoding decodes back to the same fields with no trailing bytes |
| Utf8.DecodeEncodeChar | src/db/driver.rs:43 | one character's encoding decodes back to that character, with its byte count |
| Utf8.DecodeEncode | src/db/driver.rs:43 | the strict decoder accepts every encoded string and returns it unchanged |
| Utf8.EncodeDecodeChar | src/db/driver.rs:43 | a character the strict decoder accepts was written in its one shortest form |
| Utf8.EncodeDecode | src/db/driver.rs:43 | bytes the strict decoder accepts are exactly the encoding of the string it returns, so a decoded string is canonical |
| Models.NewTodo | src/models/mod.rs:10-16 | a new todo has the given id and title and is not completed |
| Models.TodoFields | src/models/mod.rs:3-8 | the derive serializes id, title and completed in declaration order as u64, string and bool |
| Models.TodoRoundTrip | src/models/mod.rs:3-8 | a todo survives encode then decode unchanged, field by field |
| Models.TodoCodec | src/db/driver.rs:32-43 | the codec the driver uses for todos round-trips every todo |
| DriverTests.TestRecordRoundTrip | src/db/driver.rs:92-96 | the tests' record survives encode then decode |
| DriverTests.TestCodec | src/db/driver.rs:92-96 | the tests' codec round-trips every record |
| DriverTests.TestNextId | src/db/driver.rs:121-128 | the first id a fresh store hands out is 0 |
| DriverTests.TestInsertAndGet | src/db/driver.rs:130-142 | a get returns the record just inserted |
| DriverTests.TestRemove | src/db/driver.rs:144-157 | after a remove, a get of the key returns nothing |
| DriverTests.TestInsertAsUpdate | src/db/driver.rs:159-176 | a second insert at the same key replaces the first record |
| DriverTests.TwoRecords | src/db/driver.rs:178-190 | after the two inserts the store holds exactly "test" and "test2", each decoding to its record |
| DriverTests.TestKeysOrdered | src/db/driver.rs:192-198 | "test" and "test2" are listed in that order |
| DriverTests.TestIter | src/db/driver.rs:178-202 | a full scan yields ("test", first record) and then ("test2", second record), and nothing else |
| DriverTests.TestIterPrefix | src/db/driver.rs:204-225 | a scan for prefix "test" yields both records, "test" first |
| DriverTests.TestIterPrefixExcludes | src/db/driver.rs:227-251 | a scan for prefix "test2" yields only ("test2", second record), then ends |
| App.Decimal | src/main.rs:160 | `format!` of an id prints decimal digits only, and a single digit exactly when the id is below 10 |
| App.DecimalInjective | src/main.rs:160 | different ids print differently |
| App.TodoKey | src/main.rs:160 | every todo key starts with the listing prefix "todo" |
| App.TodoKeyInjective | src/main.rs:160 | two ids that give the same key are equal |
| App.TodoKeysSortAsText | src/main.rs:135-160 | keys compare as text, so the todo with id 10 is listed before the todo with id 2 |
| App.InsertFresh | src/main.rs:158-162 | a freshly drawn id lands on a key that no todo holds, and storing the new todo there keeps the invariant with the counter advanced |
| App.Replace | src/main.rs:176-178 | writing a todo back under its own key keeps the invariant |
| App.CreateTodo | src/main.rs:153-163 | draws the next id, stores a new todo at "todo:<id>" and returns it; a get then returns that todo; on a store that holds the invariant, the key was free before and the invariant still holds after |
| App.ToggleTodo | src/main.rs:169-182 | its reply and the new entries are those given by `Toggle` on the old entries; the generator is untouched |
| App.ToggleKeepsStore | src/main.rs:169-182 | on a store that holds the invariant, toggling succeeds exactly when the todo exists; it replies with that todo with `completed` flipped, stores exactly that, leaves every other entry unchanged and keeps the invariant; an absent todo is an error and changes nothing |
| App.ToggleTwice | src/main.rs:169-182 | toggling the same todo twice gives back the original entries, and the second reply is the todo as it was first stored |
| App.RemoveTodo | src/main.rs:188-196 | only the todo's key is removed; every other todo is unchanged; the invariant is kept |
| App.Collect | src/main.rs:138-145 | the handler's loop succeeds exactly when every item is Ok, and then returns the todos in item order; otherwise it fails with the listing error |
| App.Todos | src/main.rs:135-147 | lists the todos of all keys under "todo" in key order; the listing is Ok exactly when every one of them decodes; on a store that holds the invariant it always succeeds |

## Left out

- **Sled itself.** Persistence, the on-disk format, opening a store at a path, and how often `generate_id` persists its counter are left out. The store is its contents map and its counter.
- **Storage I/O errors.** These come from sled's `?` on `open`, `generate_id`, `insert`, `get`, `remove` and the iterator items. The model has none: every store operation succeeds.
- **Serialization errors.** bincode's `serialize` never fails for these records, because every `Text` string has a UTF-8 length that fits a u64. So `Insert` has no error path.
- **Keys that are not UTF-8.** The scans run `String::from_utf8` on each key. That failure cannot happen here, because every key is written from a Rust `&str`. Keys are modelled as strings.
- **Key byte order.** Keys are ordered by characters, not by their UTF-8 bytes as sled does. The two orders agree for UTF-8. That agreement is stated, not proved.
- **Driver.Db.Iter and Driver.Db.IterPrefix** return the whole sequence of items, not a lazy iterator. Interleaving iteration with writes is not modelled.
- **Application shell.** Locking is left out; each handler is one atomic step, because the application holds the store's lock for the whole handler. Also left out:
  - async execution;
  - the HTTP routing and form decoding;
  - the HTML rendering (`todo_html`, `todos_html`, `root`);
  - the `Debug` implementation;
  - `Db::new` and `Db::new_with_path`, beyond a fresh empty store;
  - test `setup` and `teardown`.
- **App.ToggleTodo** returns the error `MissingTodo` for an absent todo, where the source's `unwrap` panics. In both cases nothing is written.
- **App.CreateTodo** states the invariant and the key's freshness only while the counter is below 2^64 − 1. Past that, the generator wraps around and could reissue an id.
- **DriverTests.** The source tests compare only the `name` field and the keys. The model states the whole record, which is stronger.

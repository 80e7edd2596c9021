/**
 * The driver's own unit tests, each run on a freshly opened store, with what
 * the test checks stated as the method's postcondition.
 */
module DriverTests {
  import opened Wrappers
  import opened Ints
  import opened Bincode
  import opened Keys
  import opened Driver

  /** The record type the tests store. */
  datatype TestRecord = TestRecord(id: u64, name: Text)

  const TEST_FIELDS: seq<Kind> := [U64Kind, StrKind]

  function TestFields(r: TestRecord): (vs: seq<Value>)
    ensures Kinds(vs) == TEST_FIELDS
  {
    [U64(r.id), Str(r.name)]
  }

  function EncodeTest(r: TestRecord): Bytes
  {
    EncodeTuple(TestFields(r))
  }

  function DecodeTest(b: Bytes): Result<TestRecord, CodecError>
  {
    match DecodeRecord(TEST_FIELDS, b)
    case Err(e) => Err(e)
    case Ok(vs) => Ok(TestRecord(vs[0].n, vs[1].s))
  }

  lemma TestRecordRoundTrip(r: TestRecord)
    ensures DecodeTest(EncodeTest(r)) == Ok(r)
  {
    RecordRoundTrip(TestFields(r));
  }

  function TestCodec(): (c: Codec<TestRecord>)
    ensures RoundTrips(c)
  {
    assert forall r :: DecodeTest(EncodeTest(r)) == Ok(r) by {
      forall r ensures DecodeTest(EncodeTest(r)) == Ok(r) {
        TestRecordRoundTrip(r);
      }
    }
    Codec(EncodeTest, DecodeTest)
  }

  const TEST: Text := "test"
  const TEST2: Text := "test2"

  method TestNextId() returns (id: u64)
    ensures id == 0
  {
    var db := new Db();
    id := db.NextId();
  }

  method TestInsertAndGet() returns (got: Result<Option<TestRecord>, CodecError>)
    ensures got == Ok(Some(TestRecord(0, TEST)))
  {
    var db := new Db();
    db.Insert(TestCodec(), "test", TestRecord(0, TEST));
    got := db.Get(TestCodec(), "test");
  }

  method TestRemove() returns (got: Result<Option<TestRecord>, CodecError>)
    ensures got == Ok(None)
  {
    var db := new Db();
    db.Insert(TestCodec(), "test", TestRecord(0, TEST));
    db.Remove("test");
    got := db.Get(TestCodec(), "test");
  }

  method TestInsertAsUpdate() returns (got: Result<Option<TestRecord>, CodecError>)
    ensures got == Ok(Some(TestRecord(0, TEST2)))
  {
    var db := new Db();
    db.Insert(TestCodec(), "test", TestRecord(0, TEST));
    db.Insert(TestCodec(), "test", TestRecord(0, TEST2));
    got := db.Get(TestCodec(), "test");
  }

  /** A store holding the two test records at "test" and "test2". */
  method TwoRecords() returns (db: Db)
    ensures fresh(db)
    ensures db.entries.Keys == {"test", "test2"}
    ensures TestCodec().decode(db.entries["test"]) == Ok(TestRecord(0, TEST))
    ensures TestCodec().decode(db.entries["test2"]) == Ok(TestRecord(1, TEST2))
  {
    db := new Db();
    db.Insert(TestCodec(), "test", TestRecord(0, TEST));
    db.Insert(TestCodec(), "test2", TestRecord(1, TEST2));
  }

  lemma TestKeysOrdered()
    ensures Ordered({"test", "test2"}) == ["test", "test2"]
  {
    ProperPrefixLess("test", "test2");
    OrderedUnique(["test", "test2"], {"test", "test2"});
  }

  method TestIter() returns (items: seq<Result<(Key, TestRecord), CodecError>>)
    ensures items == [Ok(("test", TestRecord(0, TEST))), Ok(("test2", TestRecord(1, TEST2)))]
  {
    var db := TwoRecords();
    items := db.Iter(TestCodec());
    assert db.entries.Keys == {"test", "test2"};
    TestKeysOrdered();
  }

  method TestIterPrefix() returns (items: seq<Result<(Key, TestRecord), CodecError>>)
    ensures items == [Ok(("test", TestRecord(0, TEST))), Ok(("test2", TestRecord(1, TEST2)))]
  {
    var db := TwoRecords();
    items := db.IterPrefix(TestCodec(), "test");
    assert WithPrefix(db.entries.Keys, "test") == {"test", "test2"};
    TestKeysOrdered();
  }

  method TestIterPrefixExcludes() returns (items: seq<Result<(Key, TestRecord), CodecError>>)
    ensures items == [Ok(("test2", TestRecord(1, TEST2)))]
  {
    var db := TwoRecords();
    items := db.IterPrefix(TestCodec(), "test2");
    assert !("test2" <= "test");
    assert WithPrefix(db.entries.Keys, "test2") == {"test2"};
    OrderedUnique(["test2"], {"test2"});
  }
}

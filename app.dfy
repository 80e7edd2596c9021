/**
 * The todo handlers' effect on the store: each handler is one atomic step on
 * the shared driver (the application holds the store's write lock, or read
 * lock for the listing, for the whole handler). Todos live at key
 * "todo:" followed by the id in decimal.
 */
module App {
  import opened Wrappers
  import opened Ints
  import opened Bincode
  import opened Keys
  import opened Driver
  import opened Models

  datatype AppError =
    | Storage(cause: CodecError) // a driver error passed on by `?`
    | MissingTodo                // `unwrap` of an absent todo: the handler panics
    | ListFailed                 // "Error getting todos"

  /** The prefix the listing scans. It is "todo", without the colon. */
  const TODO_PREFIX: Key := "todo"

  function Digit(d: nat): (c: char)
    requires d < 10
    ensures '0' <= c <= '9' && c as int - '0' as int == d
  {
    (48 + d) as char
  }

  /** `format!("{}", n)`: decimal digits, most significant first, no leading zeros. */
  function Decimal(n: nat): (s: string)
    ensures 1 <= |s| && (|s| == 1 <==> n < 10)
    ensures forall i | 0 <= i < |s| :: '0' <= s[i] <= '9'
  {
    if n < 10 then [Digit(n)] else Decimal(n / 10) + [Digit(n % 10)]
  }

  /** Different numbers print differently. */
  lemma {:induction false} DecimalInjective(a: nat, b: nat)
    requires Decimal(a) == Decimal(b)
    ensures a == b
  {
    if a < 10 || b < 10 {
      assert a < 10 && b < 10;
      assert Decimal(a)[0] == Digit(a) && Decimal(b)[0] == Digit(b);
    } else {
      var da, db := Decimal(a), Decimal(b);
      assert da[|da| - 1] == Digit(a % 10) && db[|db| - 1] == Digit(b % 10);
      assert da[..|da| - 1] == Decimal(a / 10) && db[..|db| - 1] == Decimal(b / 10);
      DecimalInjective(a / 10, b / 10);
    }
  }

  /** `format!("todo:{}", id)`. */
  function TodoKey(id: u64): (k: Key)
    ensures TODO_PREFIX <= k
  {
    "todo:" + Decimal(id as nat)
  }

  /** Each id has a key of its own. */
  lemma TodoKeyInjective(a: u64, b: u64)
    requires TodoKey(a) == TodoKey(b)
    ensures a == b
  {
    assert Decimal(a as nat) == TodoKey(a)[5..] && Decimal(b as nat) == TodoKey(b)[5..];
    DecimalInjective(a as nat, b as nat);
  }

  /** Keys compare as text, not as numbers: the todo with id 10 is listed before the todo with id 2. */
  lemma TodoKeysSortAsText()
    ensures Less(TodoKey(10), TodoKey(2))
  {
    assert Decimal(10) == "10" && Decimal(2) == "2";
    LessCommonPrefix("todo:", "10", "2");
  }

  /**
   * What the handlers maintain: every key under the listing prefix holds the
   * encoding of a todo whose key is built from its id, and that id is below
   * the generator's counter, so it has been drawn already.
   */
  ghost predicate TodoEntries(entries: map<Key, Bytes>, counter: u64)
  {
    forall k | k in entries && TODO_PREFIX <= k ::
      && DecodeTodo(entries[k]).Ok?
      && var t := DecodeTodo(entries[k]).value;
         k == TodoKey(t.id) && t.id < counter && entries[k] == EncodeTodo(t)
  }

  ghost predicate TodoStore(db: Db)
    reads db
  {
    TodoEntries(db.entries, db.counter)
  }

  /** A todo with a freshly drawn id lands on a key no todo holds, and the invariant survives. */
  lemma InsertFresh(entries: map<Key, Bytes>, counter: u64, t: Todo)
    requires TodoEntries(entries, counter)
    requires t.id == counter && (counter as int) < U64_LIMIT - 1
    ensures TodoKey(t.id) !in entries
    ensures TodoEntries(entries[TodoKey(t.id) := EncodeTodo(t)], counter + 1)
  {
    var key := TodoKey(t.id);
    if key in entries {
      var held := DecodeTodo(entries[key]).value;
      TodoKeyInjective(held.id, t.id);
      assert false;
    }
    TodoRoundTrip(t);
  }

  /** Storing a todo again under its own key keeps the invariant. */
  lemma Replace(entries: map<Key, Bytes>, counter: u64, t: Todo)
    requires TodoEntries(entries, counter)
    requires t.id < counter
    ensures TodoEntries(entries[TodoKey(t.id) := EncodeTodo(t)], counter)
  {
    TodoRoundTrip(t);
  }

  /** `create_todo`: draw an id, store a new todo under its key, return it. */
  method CreateTodo(db: Db, title: Text) returns (todo: Todo)
    requires db.Valid()
    modifies db
    ensures db.Valid()
    ensures todo == NewTodo(old(db.counter), title)
    ensures db.issued == old(db.issued) + [todo.id]
    ensures db.entries == old(db.entries)[TodoKey(todo.id) := EncodeTodo(todo)]
    ensures db.Get(TodoCodec(), TodoKey(todo.id)) == Ok(Some(todo))
    ensures old(TodoStore(db)) && (old(db.counter) as int) < U64_LIMIT - 1 ==>
      TodoStore(db) && TodoKey(todo.id) !in old(db.entries)
  {
    var id := db.NextId();
    todo := NewTodo(id, title);
    var key := TodoKey(id);
    db.Insert(TodoCodec(), key, todo);
    if old(TodoStore(db)) && (old(db.counter) as int) < U64_LIMIT - 1 {
      assert db.counter as int == id as int + 1;
      assert db.entries == old(db.entries)[key := EncodeTodo(todo)];
      InsertFresh(old(db.entries), id, todo);
      assert TodoEntries(db.entries, db.counter);
    }
  }

  /** What `toggle_todo` replies and what it leaves in the store, given the entries it starts from. */
  function Toggle(entries: map<Key, Bytes>, id: u64): (Result<Todo, AppError>, map<Key, Bytes>)
  {
    var key := TodoKey(id);
    if key !in entries then (Err(MissingTodo), entries)
    else match DecodeTodo(entries[key])
      case Err(e) => (Err(Storage(e)), entries)
      case Ok(t) =>
        var flipped := t.(completed := !t.completed);
        (Ok(flipped), entries[key := EncodeTodo(flipped)])
  }

  /** `toggle_todo`: read the todo, flip `completed`, store it again under the same key. */
  method ToggleTodo(db: Db, id: u64) returns (r: Result<Todo, AppError>)
    modifies db
    ensures (r, db.entries) == Toggle(old(db.entries), id)
    ensures db.counter == old(db.counter) && db.issued == old(db.issued)
  {
    var key := TodoKey(id);
    var found := db.Get(TodoCodec(), key);
    match found {
      case Err(e) =>
        r := Err(Storage(e));
      case Ok(None) =>
        r := Err(MissingTodo);
      case Ok(Some(t)) =>
        var toggled := t.(completed := !t.completed);
        db.Insert(TodoCodec(), key, toggled);
        r := Ok(toggled);
    }
  }

  /**
   * On a store the handlers maintain, toggling succeeds exactly when the todo
   * exists; it returns that todo with `completed` flipped, stores that record,
   * touches no other key, and keeps the invariant.
   */
  lemma ToggleKeepsStore(entries: map<Key, Bytes>, counter: u64, id: u64)
    requires TodoEntries(entries, counter)
    ensures var (r, after) := Toggle(entries, id);
      && TodoEntries(after, counter)
      && (r.Ok? <==> TodoKey(id) in entries)
      && (r.Err? ==> r.error == MissingTodo && after == entries)
      && (r.Ok? ==> var t := DecodeTodo(entries[TodoKey(id)]).value;
            && r.value == Todo(id, t.title, !t.completed)
            && after.Keys == entries.Keys
            && DecodeTodo(after[TodoKey(id)]) == Ok(r.value)
            && forall k | k in entries && k != TodoKey(id) :: after[k] == entries[k])
  {
    var key := TodoKey(id);
    if key in entries {
      var t := DecodeTodo(entries[key]).value;
      var flipped := t.(completed := !t.completed);
      TodoKeyInjective(t.id, id);
      TodoRoundTrip(flipped);
      Replace(entries, counter, flipped);
    }
  }

  /** Toggling the same todo twice puts the store back as it was and replies with the original record. */
  lemma ToggleTwice(entries: map<Key, Bytes>, counter: u64, id: u64)
    requires TodoEntries(entries, counter)
    ensures var (first, once) := Toggle(entries, id);
      var (second, twice) := Toggle(once, id);
      && twice == entries
      && (first.Ok? <==> TodoKey(id) in entries)
      && (first.Ok? ==> second == Ok(DecodeTodo(entries[TodoKey(id)]).value))
  {
    var key := TodoKey(id);
    if key in entries {
      var t := DecodeTodo(entries[key]).value;
      var flipped := t.(completed := !t.completed);
      TodoRoundTrip(flipped);
      var once := entries[key := EncodeTodo(flipped)];
      assert Toggle(entries, id) == (Ok(flipped), once);
      assert flipped.(completed := !flipped.completed) == t;
      assert Toggle(once, id) == (Ok(t), once[key := EncodeTodo(t)]);
      assert entries[key] == EncodeTodo(t);
    }
  }

  /** `remove_todo`: delete the todo's key and nothing else. */
  method RemoveTodo(db: Db, id: u64)
    modifies db
    ensures db.entries == old(db.entries) - {TodoKey(id)}
    ensures TodoKey(id) !in old(db.entries) ==> db.entries == old(db.entries)
    ensures db.counter == old(db.counter) && db.issued == old(db.issued)
    ensures forall other: u64 | other != id && TodoKey(other) in old(db.entries) ::
      TodoKey(other) in db.entries && db.entries[TodoKey(other)] == old(db.entries)[TodoKey(other)]
    ensures old(TodoStore(db)) ==> TodoStore(db)
  {
    db.Remove(TodoKey(id));
    forall other: u64 | other != id && TodoKey(other) in old(db.entries)
      ensures TodoKey(other) != TodoKey(id)
    {
      if TodoKey(other) == TodoKey(id) {
        TodoKeyInjective(other, id);
      }
    }
  }

  /** The handler's loop: keep the todo of each item, or stop at the first item that failed to decode. */
  method Collect(items: seq<Result<(Key, Todo), CodecError>>) returns (r: Result<seq<Todo>, AppError>)
    ensures r.Ok? <==> forall i | 0 <= i < |items| :: items[i].Ok?
    ensures r.Ok? ==> |r.value| == |items| && forall i | 0 <= i < |items| :: items[i].value.1 == r.value[i]
    ensures r.Err? ==> r.error == ListFailed
  {
    var list: seq<Todo> := [];
    for i := 0 to |items|
      invariant |list| == i
      invariant forall j | 0 <= j < i :: items[j].Ok? && items[j].value.1 == list[j]
    {
      match items[i] {
        case Ok((_, t)) =>
          list := list + [t];
        case Err(_) =>
          return Err(ListFailed);
      }
    }
    return Ok(list);
  }

  /**
   * `todos`: the todos under the listing prefix in key order; one record that
   * does not decode fails the whole listing.
   */
  method Todos(db: Db) returns (r: Result<seq<Todo>, AppError>)
    ensures var keys := Ordered(WithPrefix(db.entries.Keys, TODO_PREFIX));
      && (r.Ok? <==> forall i | 0 <= i < |keys| :: DecodeTodo(db.entries[keys[i]]).Ok?)
      && (r.Ok? ==> |r.value| == |keys| && forall i | 0 <= i < |keys| :: DecodeTodo(db.entries[keys[i]]) == Ok(r.value[i]))
      && (r.Err? ==> r.error == ListFailed)
    ensures TodoStore(db) ==> r.Ok?
  {
    var items := db.IterPrefix(TodoCodec(), TODO_PREFIX);
    r := Collect(items);
  }
}

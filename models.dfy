/** The todo record: the payload the application stores through the driver. */
module Models {
  import opened Wrappers
  import opened Ints
  import opened Bincode

  datatype Todo = Todo(id: u64, title: Text, completed: bool)

  /** A new todo carries the given id and title and is not completed. */
  function NewTodo(id: u64, title: Text): (t: Todo)
    ensures t.id == id
    ensures t.title == title
    ensures !t.completed
  {
    Todo(id, title, false)
  }

  /** The fields serde's derive hands to the serializer, in declaration order. */
  const TODO_FIELDS: seq<Kind> := [U64Kind, StrKind, BoolKind]

  function TodoFields(t: Todo): (vs: seq<Value>)
    ensures Kinds(vs) == TODO_FIELDS
  {
    [U64(t.id), Str(t.title), Bool(t.completed)]
  }

  /** The derived serialization: the fields in declaration order. */
  function EncodeTodo(t: Todo): Bytes
  {
    EncodeTuple(TodoFields(t))
  }

  /** The derived deserialization: the three fields in order, then nothing else. */
  function DecodeTodo(b: Bytes): Result<Todo, CodecError>
  {
    match DecodeRecord(TODO_FIELDS, b)
    case Err(e) => Err(e)
    case Ok(vs) => Ok(Todo(vs[0].n, vs[1].s, vs[2].b))
  }

  /** A todo survives encode then decode unchanged, field by field. */
  lemma TodoRoundTrip(t: Todo)
    ensures DecodeTodo(EncodeTodo(t)) == Ok(t)
  {
    RecordRoundTrip(TodoFields(t));
  }

  function TodoCodec(): (c: Codec<Todo>)
    ensures RoundTrips(c)
  {
    assert forall t :: DecodeTodo(EncodeTodo(t)) == Ok(t) by {
      forall t ensures DecodeTodo(EncodeTodo(t)) == Ok(t) {
        TodoRoundTrip(t);
      }
    }
    Codec(EncodeTodo, DecodeTodo)
  }
}

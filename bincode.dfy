/**
 * The value codec the driver uses for every record: bincode 1.x with its
 * default options (variable-length integers, trailing bytes rejected) switched
 * to big-endian byte order. Structs are their fields in declaration order,
 * with no header.
 *
 * An integer up to 250 is one byte; a larger one is a tag byte (251, 252 or
 * 253) followed by the value as a big-endian u16, u32 or u64. A bool is one
 * byte, 0 or 1. A string is its UTF-8 length as such an integer, then the
 * UTF-8 bytes.
 */
module Bincode {
  import opened Wrappers
  import opened Ints
  import Utf8

  datatype CodecError =
    | UnexpectedEnd              // the input stops inside a value
    | InvalidVarintTag(tag: uint8) // 254 (u128 range) or 255 where a u64 is expected
    | InvalidBool(byte: uint8)   // a bool byte other than 0 or 1
    | InvalidUtf8                // string bytes that are not UTF-8
    | TrailingBytes              // bytes left over after the value

  /** Text a Rust `String` can hold and bincode can frame: its UTF-8 length fits a u64. */
  type Text = s: string | |Utf8.Encode(s)| < U64_LIMIT witness ""

  /** What the driver needs of a record type: serialize and deserialize, as serde derives them. */
  datatype Codec<!T> = Codec(encode: T -> Bytes, decode: Bytes -> Result<T, CodecError>)

  /** Every value survives encode then decode unchanged. */
  ghost predicate RoundTrips<T(!new)>(c: Codec<T>)
  {
    forall v {:trigger c.decode(c.encode(v))} :: c.decode(c.encode(v)) == Ok(v)
  }

  const SINGLE_BYTE_MAX: uint8 := 250
  const U16_TAG: uint8 := 251
  const U32_TAG: uint8 := 252
  const U64_TAG: uint8 := 253

  function Pow256(width: nat): (p: nat)
    ensures p > 0
  {
    if width == 0 then 1 else 256 * Pow256(width - 1)
  }

  /** The low `width` bytes of `n`, most significant first. */
  function BigEndian(n: nat, width: nat): (r: Bytes)
    ensures |r| == width
  {
    if width == 0 then [] else BigEndian(n / 256, width - 1) + [(n % 256) as uint8]
  }

  function FromBigEndian(b: Bytes): (n: nat)
    ensures n < Pow256(|b|)
  {
    if b == [] then 0 else FromBigEndian(b[..|b| - 1]) * 256 + b[|b| - 1] as nat
  }

  lemma {:induction false} BigEndianRoundTrip(n: nat, width: nat)
    requires n < Pow256(width)
    ensures FromBigEndian(BigEndian(n, width)) == n
  {
    if width > 0 {
      var hi := BigEndian(n / 256, width - 1);
      BigEndianRoundTrip(n / 256, width - 1);
      assert (hi + [(n % 256) as uint8])[..width - 1] == hi;
    }
  }

  function EncodeVarint(n: u64): (r: Bytes)
  {
    if n <= SINGLE_BYTE_MAX as u64 then [n as uint8]
    else if n < 0x1_0000 then [U16_TAG] + BigEndian(n as nat, 2)
    else if n < 0x1_0000_0000 then [U32_TAG] + BigEndian(n as nat, 4)
    else [U64_TAG] + BigEndian(n as nat, 8)
  }

  /** A big-endian integer of `width` bytes at the front of `b`, and what follows it. */
  function DecodeLiteral(b: Bytes, width: nat): Result<(u64, Bytes), CodecError>
    requires width <= 8
  {
    if |b| < width then Err(UnexpectedEnd)
    else
      assert Pow256(width) <= Pow256(8);
      Ok((FromBigEndian(b[..width]) as u64, b[width..]))
  }

  /** A variable-length u64 at the front of `b`, and what follows it. */
  function DecodeVarint(b: Bytes): Result<(u64, Bytes), CodecError>
  {
    if b == [] then Err(UnexpectedEnd)
    else if b[0] <= SINGLE_BYTE_MAX then Ok((b[0] as u64, b[1..]))
    else if b[0] == U16_TAG then DecodeLiteral(b[1..], 2)
    else if b[0] == U32_TAG then DecodeLiteral(b[1..], 4)
    else if b[0] == U64_TAG then DecodeLiteral(b[1..], 8)
    else Err(InvalidVarintTag(b[0]))
  }

  lemma DecodeLiteralOf(n: u64, width: nat, rest: Bytes)
    requires width <= 8 && (n as nat) < Pow256(width)
    ensures DecodeLiteral(BigEndian(n as nat, width) + rest, width) == Ok((n, rest))
  {
    var e := BigEndian(n as nat, width);
    assert (e + rest)[..width] == e && (e + rest)[width..] == rest;
    BigEndianRoundTrip(n as nat, width);
  }

  /** Round trip of one integer, with anything after it left in place. */
  lemma VarintRoundTrip(n: u64, rest: Bytes)
    ensures DecodeVarint(EncodeVarint(n) + rest) == Ok((n, rest))
  {
    var b := EncodeVarint(n) + rest;
    if n <= SINGLE_BYTE_MAX as u64 {
      assert b[1..] == rest;
    } else {
      var width := if n < 0x1_0000 then 2 else if n < 0x1_0000_0000 then 4 else 8;
      assert b[1..] == BigEndian(n as nat, width) + rest;
      DecodeLiteralOf(n, width, rest);
    }
  }

  function EncodeBool(v: bool): Bytes
  {
    [if v then 1 else 0]
  }

  function DecodeBool(b: Bytes): Result<(bool, Bytes), CodecError>
  {
    if b == [] then Err(UnexpectedEnd)
    else if b[0] == 0 then Ok((false, b[1..]))
    else if b[0] == 1 then Ok((true, b[1..]))
    else Err(InvalidBool(b[0]))
  }

  lemma BoolRoundTrip(v: bool, rest: Bytes)
    ensures DecodeBool(EncodeBool(v) + rest) == Ok((v, rest))
  {
    assert (EncodeBool(v) + rest)[1..] == rest;
  }

  function EncodeStr(s: Text): Bytes
  {
    var u := Utf8.Encode(s);
    EncodeVarint(|u| as u64) + u
  }

  function DecodeStr(b: Bytes): Result<(Text, Bytes), CodecError>
  {
    match DecodeVarint(b)
    case Err(e) => Err(e)
    case Ok((n, rest)) =>
      if |rest| < n as int then Err(UnexpectedEnd)
      else match Utf8.Decode(rest[..n])
        case None => Err(InvalidUtf8)
        case Some(s) =>
          Utf8.EncodeDecode(rest[..n], s);
          var t: Text := s;
          Ok((t, rest[n..]))
  }

  lemma StrRoundTrip(s: Text, rest: Bytes)
    ensures DecodeStr(EncodeStr(s) + rest) == Ok((s, rest))
  {
    var u := Utf8.Encode(s);
    var n := |u| as u64;
    assert EncodeStr(s) + rest == EncodeVarint(n) + (u + rest);
    VarintRoundTrip(n, u + rest);
    assert (u + rest)[..n] == u && (u + rest)[n..] == rest;
    Utf8.DecodeEncode(s);
  }

  /** The serde data-model values the stored records are made of. */
  datatype Value = U64(n: u64) | Str(s: Text) | Bool(b: bool)

  /** What a deserializer is asked for next. */
  datatype Kind = U64Kind | StrKind | BoolKind

  function KindOf(v: Value): Kind
  {
    match v
    case U64(_) => U64Kind
    case Str(_) => StrKind
    case Bool(_) => BoolKind
  }

  function Kinds(vs: seq<Value>): (ks: seq<Kind>)
    ensures |ks| == |vs| && forall i | 0 <= i < |vs| :: ks[i] == KindOf(vs[i])
  {
    if vs == [] then [] else [KindOf(vs[0])] + Kinds(vs[1..])
  }

  function EncodeValue(v: Value): Bytes
  {
    match v
    case U64(n) => EncodeVarint(n)
    case Str(s) => EncodeStr(s)
    case Bool(x) => EncodeBool(x)
  }

  /** A value of kind `k` at the front of `b`, and what follows it. */
  function DecodeValue(k: Kind, b: Bytes): (r: Result<(Value, Bytes), CodecError>)
    ensures r.Ok? ==> KindOf(r.value.0) == k
  {
    match k
    case U64Kind => (match DecodeVarint(b) case Ok((n, rest)) => Ok((U64(n), rest)) case Err(e) => Err(e))
    case StrKind => (match DecodeStr(b) case Ok((s, rest)) => Ok((Str(s), rest)) case Err(e) => Err(e))
    case BoolKind => (match DecodeBool(b) case Ok((x, rest)) => Ok((Bool(x), rest)) case Err(e) => Err(e))
  }

  lemma ValueRoundTrip(v: Value, rest: Bytes)
    ensures DecodeValue(KindOf(v), EncodeValue(v) + rest) == Ok((v, rest))
  {
    match v
    case U64(n) => VarintRoundTrip(n, rest);
    case Str(s) => StrRoundTrip(s, rest);
    case Bool(x) => BoolRoundTrip(x, rest);
  }

  /** A struct or tuple: its fields one after another, with no names, count or padding. */
  function EncodeTuple(vs: seq<Value>): Bytes
  {
    if vs == [] then [] else EncodeValue(vs[0]) + EncodeTuple(vs[1..])
  }

  /** Fields of kinds `ks`, in order, at the front of `b`; the first field that fails stops the decoding. */
  function DecodeTuple(ks: seq<Kind>, b: Bytes): (r: Result<(seq<Value>, Bytes), CodecError>)
    ensures r.Ok? ==> Kinds(r.value.0) == ks
  {
    if ks == [] then Ok(([], b))
    else match DecodeValue(ks[0], b)
      case Err(e) => Err(e)
      case Ok((v, rest)) =>
        match DecodeTuple(ks[1..], rest)
        case Err(e) => Err(e)
        case Ok((vs, tail)) => Ok(([v] + vs, tail))
  }

  /** One field, then the rest of the tuple. */
  lemma DecodeTupleCons(ks: seq<Kind>, b: Bytes, v: Value, mid: Bytes, vs: seq<Value>, rest: Bytes)
    requires ks != [] && DecodeValue(ks[0], b) == Ok((v, mid))
    requires DecodeTuple(ks[1..], mid) == Ok((vs, rest))
    ensures DecodeTuple(ks, b) == Ok(([v] + vs, rest))
  {
  }

  lemma {:induction false} TupleRoundTrip(vs: seq<Value>, rest: Bytes)
    ensures DecodeTuple(Kinds(vs), EncodeTuple(vs) + rest) == Ok((vs, rest))
  {
    var ks := Kinds(vs);
    if vs == [] {
      assert ks == [] && EncodeTuple(vs) + rest == rest;
    } else {
      var tail := EncodeTuple(vs[1..]);
      assert EncodeTuple(vs) + rest == EncodeValue(vs[0]) + (tail + rest);
      ValueRoundTrip(vs[0], tail + rest);
      assert ks[1..] == Kinds(vs[1..]);
      TupleRoundTrip(vs[1..], rest);
      DecodeTupleCons(ks, EncodeTuple(vs) + rest, vs[0], tail + rest, vs[1..], rest);
      assert [vs[0]] + vs[1..] == vs;
    }
  }

  /** A whole record: its fields, with bincode's trailing-bytes rule that the record must use up the input. */
  function DecodeRecord(ks: seq<Kind>, b: Bytes): (r: Result<seq<Value>, CodecError>)
    ensures r.Ok? ==> Kinds(r.value) == ks
  {
    match DecodeTuple(ks, b)
    case Err(e) => Err(e)
    case Ok((vs, rest)) => if rest == [] then Ok(vs) else Err(TrailingBytes)
  }

  /** Bytes after a complete record make the whole decode fail, even though the record itself is intact. */
  lemma TrailingRejected(vs: seq<Value>, rest: Bytes)
    requires rest != []
    ensures DecodeRecord(Kinds(vs), EncodeTuple(vs) + rest) == Err(TrailingBytes)
  {
    TupleRoundTrip(vs, rest);
  }

  /** A record's fields survive encode then decode unchanged. */
  lemma RecordRoundTrip(vs: seq<Value>)
    ensures DecodeRecord(Kinds(vs), EncodeTuple(vs)) == Ok(vs)
  {
    TupleRoundTrip(vs, []);
    assert EncodeTuple(vs) + [] == EncodeTuple(vs);
  }
}

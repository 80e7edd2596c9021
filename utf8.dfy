/**
 * UTF-8, as Rust's `String` stores text (RFC 3629): the encoding of a string,
 * and the strict decoder of `String::from_utf8`, which rejects stray
 * continuation bytes, truncated sequences, overlong forms, surrogates and
 * values above U+10FFFF.
 */
module Utf8 {
  import opened Wrappers
  import opened Ints

  /** The shortest-form bytes of one scalar value. */
  function EncodeChar(c: char): (r: Bytes)
    ensures 1 <= |r| <= 4
  {
    var n := c as int;
    if n < 0x80 then [n as uint8]
    else if n < 0x800 then [(0xC0 + n / 64) as uint8, (0x80 + n % 64) as uint8]
    else if n < 0x1_0000 then
      [(0xE0 + n / 64 / 64) as uint8, (0x80 + n / 64 % 64) as uint8, (0x80 + n % 64) as uint8]
    else
      [(0xF0 + n / 64 / 64 / 64) as uint8, (0x80 + n / 64 / 64 % 64) as uint8,
       (0x80 + n / 64 % 64) as uint8, (0x80 + n % 64) as uint8]
  }

  function Encode(s: string): Bytes
  {
    if s == [] then [] else EncodeChar(s[0]) + Encode(s[1..])
  }

  predicate IsContinuation(b: uint8) { 0x80 <= b < 0xC0 }

  /** The scalar value at the front of `b` and how many bytes it takes, or None if `b` does not start with one. */
  function DecodeChar(b: Bytes): (r: Option<(char, nat)>)
    requires |b| > 0
    ensures r.Some? ==> 1 <= r.value.1 <= |b| && r.value.1 <= 4
  {
    var b0 := b[0] as int;
    if b0 < 0x80 then Some((b0 as char, 1))
    else if b0 < 0xC0 then None
    else if b0 < 0xE0 then
      if |b| < 2 || !IsContinuation(b[1]) then None
      else
        var n := (b0 - 0xC0) * 64 + (b[1] as int - 0x80);
        if n < 0x80 then None else Some((n as char, 2))
    else if b0 < 0xF0 then
      if |b| < 3 || !IsContinuation(b[1]) || !IsContinuation(b[2]) then None
      else
        var n := ((b0 - 0xE0) * 64 + (b[1] as int - 0x80)) * 64 + (b[2] as int - 0x80);
        if n < 0x800 || 0xD800 <= n < 0xE000 then None else Some((n as char, 3))
    else if b0 < 0xF8 then
      if |b| < 4 || !IsContinuation(b[1]) || !IsContinuation(b[2]) || !IsContinuation(b[3]) then None
      else
        var n := (((b0 - 0xF0) * 64 + (b[1] as int - 0x80)) * 64 + (b[2] as int - 0x80)) * 64 + (b[3] as int - 0x80);
        if n < 0x1_0000 || 0x11_0000 <= n then None else Some((n as char, 4))
    else None
  }

  /** `String::from_utf8`: all of `b` as text, or None if any part is malformed. */
  function Decode(b: Bytes): Option<string>
    decreases |b|
  {
    if b == [] then Some([])
    else match DecodeChar(b)
      case None => None
      case Some((c, k)) =>
        match Decode(b[k..])
        case None => None
        case Some(s) => Some([c] + s)
  }

  lemma DecodeEncodeChar(c: char, rest: Bytes)
    ensures DecodeChar(EncodeChar(c) + rest) == Some((c, |EncodeChar(c)|))
  {
    var n := c as int;
    var b := EncodeChar(c) + rest;
    if n < 0x80 {
    } else if n < 0x800 {
      assert (n / 64) * 64 + n % 64 == n;
    } else if n < 0x1_0000 {
      assert (n / 64 / 64) * 64 + n / 64 % 64 == n / 64;
      assert (n / 64) * 64 + n % 64 == n;
    } else {
      assert (n / 64 / 64 / 64) * 64 + n / 64 / 64 % 64 == n / 64 / 64;
      assert (n / 64 / 64) * 64 + n / 64 % 64 == n / 64;
      assert (n / 64) * 64 + n % 64 == n;
    }
  }

  /** Round trip: decoding the encoding of any string gives the string back. */
  lemma {:induction false} DecodeEncode(s: string)
    ensures Decode(Encode(s)) == Some(s)
  {
    if s != [] {
      var e := EncodeChar(s[0]);
      DecodeEncodeChar(s[0], Encode(s[1..]));
      assert (e + Encode(s[1..]))[|e|..] == Encode(s[1..]);
      DecodeEncode(s[1..]);
      assert [s[0]] + s[1..] == s;
    }
  }

  lemma EncodeDecodeChar(b: Bytes)
    requires |b| > 0 && DecodeChar(b).Some?
    ensures EncodeChar(DecodeChar(b).value.0) == b[..DecodeChar(b).value.1]
  {
    var b0 := b[0] as int;
    if b0 < 0x80 {
    } else if b0 < 0xE0 {
      var n := (b0 - 0xC0) * 64 + (b[1] as int - 0x80);
      assert n / 64 == b0 - 0xC0 && n % 64 == b[1] as int - 0x80;
    } else if b0 < 0xF0 {
      var hi := (b0 - 0xE0) * 64 + (b[1] as int - 0x80);
      var n := hi * 64 + (b[2] as int - 0x80);
      assert n / 64 == hi && n % 64 == b[2] as int - 0x80;
      assert hi / 64 == b0 - 0xE0 && hi % 64 == b[1] as int - 0x80;
    } else {
      var h2 := (b0 - 0xF0) * 64 + (b[1] as int - 0x80);
      var h1 := h2 * 64 + (b[2] as int - 0x80);
      var n := h1 * 64 + (b[3] as int - 0x80);
      assert n / 64 == h1 && n % 64 == b[3] as int - 0x80;
      assert h1 / 64 == h2 && h1 % 64 == b[2] as int - 0x80;
      assert h2 / 64 == b0 - 0xF0 && h2 % 64 == b[1] as int - 0x80;
    }
  }

  lemma EncodeCons(c: char, t: string)
    ensures Encode([c] + t) == EncodeChar(c) + Encode(t)
  {
    assert ([c] + t)[0] == c && ([c] + t)[1..] == t;
  }

  /** A successful decode of non-empty bytes: one character, then the decode of the rest. */
  lemma DecodeCons(b: Bytes, s: string) returns (c: char, k: nat, t: string)
    requires b != [] && Decode(b) == Some(s)
    ensures DecodeChar(b) == Some((c, k)) && k <= |b|
    ensures Decode(b[k..]) == Some(t) && s == [c] + t
  {
    c, k := DecodeChar(b).value.0, DecodeChar(b).value.1;
    t := Decode(b[k..]).value;
  }

  /** Decoding is exact: bytes that decode to `s` are the encoding of `s`, byte for byte. */
  lemma {:induction false} EncodeDecode(b: Bytes, s: string)
    requires Decode(b) == Some(s)
    ensures Encode(s) == b
    decreases |b|
  {
    if b != [] {
      var c, k, t := DecodeCons(b, s);
      EncodeDecodeChar(b);
      EncodeDecode(b[k..], t);
      EncodeCons(c, t);
      assert b == b[..k] + b[k..];
    }
  }
}

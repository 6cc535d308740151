/**
 * Strict UTF-8 decoding of a notification payload, as `bytes.decode('utf-8')`
 * performs it at app.py:116: every well-formed sequence becomes one Unicode
 * scalar value; overlong forms, encoded surrogates, values above U+10FFFF,
 * stray continuation bytes and truncated sequences make the whole payload fail.
 */
module Utf8 {
  import opened Options

  newtype byte = x: int | 0 <= x < 256

  predicate IsContinuation(b: byte) { 0x80 <= b <= 0xBF }

  /** The scalar value that starts at b[0] and the number of bytes it occupies,
      or None when b does not start with a well-formed UTF-8 sequence. */
  function DecodeFirst(b: seq<byte>): (r: Option<(char, nat)>)
    requires b != []
    ensures r.Some? ==> 1 <= r.value.1 <= |b| && r.value.1 <= 4
    ensures r.Some? ==> (r.value.1 == 1 <==> b[0] < 0x80)
  {
    var b0 := b[0] as int;
    if b0 < 0x80 then
      Some((b0 as char, 1))
    else if 0xC2 <= b0 <= 0xDF then
      if |b| >= 2 && IsContinuation(b[1]) then
        Some((((b0 - 0xC0) * 64 + (b[1] as int - 0x80)) as char, 2))
      else None
    else if 0xE0 <= b0 <= 0xEF then
      if |b| >= 3 && IsContinuation(b[1]) && IsContinuation(b[2])
         && (b0 != 0xE0 || b[1] >= 0xA0)   // no overlong form
         && (b0 != 0xED || b[1] <= 0x9F)   // no surrogate
      then
        Some((((b0 - 0xE0) * 4096 + (b[1] as int - 0x80) * 64 + (b[2] as int - 0x80)) as char, 3))
      else None
    else if 0xF0 <= b0 <= 0xF4 then
      if |b| >= 4 && IsContinuation(b[1]) && IsContinuation(b[2]) && IsContinuation(b[3])
         && (b0 != 0xF0 || b[1] >= 0x90)   // no overlong form
         && (b0 != 0xF4 || b[1] <= 0x8F)   // nothing above U+10FFFF
      then
        Some((((b0 - 0xF0) * 262144 + (b[1] as int - 0x80) * 4096
               + (b[2] as int - 0x80) * 64 + (b[3] as int - 0x80)) as char, 4))
      else None
    else None
  }

  /** The text a payload decodes to, or None when any part of it is ill-formed. */
  function Decode(b: seq<byte>): (r: Option<string>)
    ensures r.Some? ==> |r.value| <= |b|   // every character takes at least one byte
    decreases |b|
  {
    if b == [] then Some([])
    else match DecodeFirst(b)
      case None => None
      case Some((c, n)) =>
        match Decode(b[n..])
        case None => None
        case Some(rest) => Some([c] + rest)
  }

  /** The UTF-8 encoding of one scalar value (the inverse of DecodeFirst). */
  function EncodeChar(c: char): (bs: seq<byte>)
    ensures 1 <= |bs| <= 4
  {
    var cp := c as int;
    if cp < 0x80 then [cp as byte]
    else if cp < 0x800 then
      [(0xC0 + cp / 64) as byte, (0x80 + cp % 64) as byte]
    else if cp < 0x10000 then
      [(0xE0 + cp / 4096) as byte, (0x80 + (cp / 64) % 64) as byte, (0x80 + cp % 64) as byte]
    else
      [(0xF0 + cp / 262144) as byte, (0x80 + (cp / 4096) % 64) as byte,
       (0x80 + (cp / 64) % 64) as byte, (0x80 + cp % 64) as byte]
  }

  /** The UTF-8 encoding of a text, as a peripheral would send it. */
  function Encode(s: string): (b: seq<byte>)
    ensures |b| >= |s|
  {
    if s == [] then [] else EncodeChar(s[0]) + Encode(s[1..])
  }

  /** Decoding reads back exactly the scalar value its encoding starts with. */
  lemma DecodeFirstOfEncodeChar(c: char, rest: seq<byte>)
    ensures DecodeFirst(EncodeChar(c) + rest) == Some((c, |EncodeChar(c)|))
  {
    var cp := c as int;
    var b := EncodeChar(c) + rest;
    if cp < 0x80 {
    } else if cp < 0x800 {
      assert cp == (cp / 64) * 64 + cp % 64;
    } else if cp < 0x10000 {
      var q := cp / 64;
      assert cp == q * 64 + cp % 64;
      assert q == (q / 64) * 64 + q % 64;
      assert q / 64 == cp / 4096;
      assert cp == (cp / 4096) * 4096 + (q % 64) * 64 + cp % 64;
    } else {
      var q := cp / 64;
      var q2 := q / 64;
      assert cp == q * 64 + cp % 64;
      assert q == q2 * 64 + q % 64;
      assert q2 == (q2 / 64) * 64 + q2 % 64;
      assert q2 == cp / 4096;
      assert q2 / 64 == cp / 262144;
      assert cp == (cp / 262144) * 262144 + (q2 % 64) * 4096 + (q % 64) * 64 + cp % 64;
    }
  }

  /** Round trip: every text survives encoding and strict decoding. */
  lemma {:induction false} DecodeEncode(s: string)
    ensures Decode(Encode(s)) == Some(s)
  {
    if s != [] {
      var e, tail := EncodeChar(s[0]), Encode(s[1..]);
      assert Encode(s) == e + tail;
      DecodeFirstOfEncodeChar(s[0], tail);
      assert (e + tail)[|e|..] == tail;
      DecodeEncode(s[1..]);
      assert [s[0]] + s[1..] == s;
    }
  }

  lemma DivMod64(q: nat, r: nat)
    requires r < 64
    ensures (q * 64 + r) / 64 == q && (q * 64 + r) % 64 == r
  {
  }

  lemma EncodeTwo(c: char, b0: byte, b1: byte)
    requires 0xC2 <= b0 <= 0xDF && IsContinuation(b1)
    requires c as int == (b0 as int - 0xC0) * 64 + (b1 as int - 0x80)
    ensures EncodeChar(c) == [b0, b1]
  {
    DivMod64(b0 as int - 0xC0, b1 as int - 0x80);
  }

  lemma EncodeThree(c: char, b0: byte, b1: byte, b2: byte)
    requires 0xE0 <= b0 <= 0xEF && IsContinuation(b1) && IsContinuation(b2)
    requires b0 != 0xE0 || b1 >= 0xA0
    requires c as int == (b0 as int - 0xE0) * 4096 + (b1 as int - 0x80) * 64 + (b2 as int - 0x80)
    ensures EncodeChar(c) == [b0, b1, b2]
  {
    var cp, hi, x1, x2 := c as int, b0 as int - 0xE0, b1 as int - 0x80, b2 as int - 0x80;
    assert cp == (hi * 64 + x1) * 64 + x2;
    DivMod64(hi * 64 + x1, x2);
    DivMod64(hi, x1);
    assert cp / 4096 == (cp / 64) / 64;
  }

  lemma EncodeFour(c: char, b0: byte, b1: byte, b2: byte, b3: byte)
    requires 0xF0 <= b0 <= 0xF4 && IsContinuation(b1) && IsContinuation(b2) && IsContinuation(b3)
    requires b0 != 0xF0 || b1 >= 0x90
    requires c as int == (b0 as int - 0xF0) * 262144 + (b1 as int - 0x80) * 4096
                         + (b2 as int - 0x80) * 64 + (b3 as int - 0x80)
    ensures EncodeChar(c) == [b0, b1, b2, b3]
  {
    var cp, hi := c as int, b0 as int - 0xF0;
    var x1, x2, x3 := b1 as int - 0x80, b2 as int - 0x80, b3 as int - 0x80;
    assert cp == ((hi * 64 + x1) * 64 + x2) * 64 + x3;
    DivMod64((hi * 64 + x1) * 64 + x2, x3);
    DivMod64(hi * 64 + x1, x2);
    DivMod64(hi, x1);
    assert cp / 4096 == (cp / 64) / 64;
    assert cp / 262144 == ((cp / 64) / 64) / 64;
  }

  /** The bytes DecodeFirst consumes are exactly the encoding of the scalar
      value it returns: it accepts no overlong form, no surrogate and nothing
      above U+10FFFF. */
  lemma EncodeCharOfDecodeFirst(b: seq<byte>)
    requires b != [] && DecodeFirst(b).Some?
    ensures EncodeChar(DecodeFirst(b).value.0) == b[..DecodeFirst(b).value.1]
  {
    var c, n := DecodeFirst(b).value.0, DecodeFirst(b).value.1;
    if n == 2 {
      EncodeTwo(c, b[0], b[1]);
      assert b[..2] == [b[0], b[1]];
    } else if n == 3 {
      EncodeThree(c, b[0], b[1], b[2]);
      assert b[..3] == [b[0], b[1], b[2]];
    } else if n == 4 {
      EncodeFour(c, b[0], b[1], b[2], b[3]);
      assert b[..4] == [b[0], b[1], b[2], b[3]];
    }
  }

  /** Decoding accepts only encodings: a payload that decodes is exactly the
      encoding of the text it decodes to. With DecodeEncode, Decode and
      Encode are inverse to each other. */
  lemma {:induction false} EncodeDecode(b: seq<byte>)
    requires Decode(b).Some?
    ensures Encode(Decode(b).value) == b
    decreases |b|
  {
    if b != [] {
      var c, n := DecodeFirst(b).value.0, DecodeFirst(b).value.1;
      EncodeCharOfDecodeFirst(b);
      EncodeDecode(b[n..]);
      var rest := Decode(b[n..]).value;
      assert Decode(b).value == [c] + rest;
      assert ([c] + rest)[1..] == rest;
      assert b == b[..n] + b[n..];
    }
  }

  /** A payload of ASCII bytes always decodes, one character per byte. */
  lemma {:induction false} DecodeAscii(b: seq<byte>)
    requires forall i :: 0 <= i < |b| ==> b[i] < 0x80
    ensures Decode(b).Some? && |Decode(b).value| == |b|
    ensures forall i :: 0 <= i < |b| ==> Decode(b).value[i] as int == b[i] as int
  {
    if b != [] {
      DecodeAscii(b[1..]);
    }
  }

  /** A byte that can never occur in UTF-8 (C0, C1, F5 to FF) anywhere in the
      payload makes decoding fail. */
  lemma {:induction false} DecodeRejectsInvalidByte(b: seq<byte>, i: nat)
    requires i < |b| && (b[i] == 0xC0 || b[i] == 0xC1 || b[i] >= 0xF5)
    ensures Decode(b) == None
    decreases |b|
  {
    match DecodeFirst(b)
    case None =>
    case Some((c, n)) =>
      if n <= i {
        DecodeRejectsInvalidByte(b[n..], i - n);
      }
  }
}

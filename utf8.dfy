/** UTF-8 (RFC 3629), the byte encoding `Buffer.from(string)` and
    `encodeURIComponent` apply to a string before base64 or percent encoding.
    Dafny's `char` is a Unicode scalar value, so every string has an encoding. */
module Utf8 {
  import opened Common

  /** Code points a `char` can hold: everything up to U+10FFFF but the surrogates. */
  predicate IsScalar(cp: int) {
    0 <= cp < 0xD800 || 0xE000 <= cp < 0x11_0000
  }

  /** A continuation byte `10xxxxxx`. */
  predicate IsContinuation(b: Byte) {
    0x80 <= b < 0xC0
  }

  /** The one to four bytes of a single character, shortest form. */
  function EncodeChar(c: char): (r: seq<Byte>)
    ensures 1 <= |r| <= 4
    ensures |r| == 1 <==> (c as int) < 0x80
    ensures |r| == 1 ==> r[0] == c as int
    ensures forall i :: 1 <= i < |r| ==> IsContinuation(r[i])
  {
    var cp := c as int;
    if cp < 0x80 then [cp]
    else if cp < 0x800 then [0xC0 + cp / 64, 0x80 + cp % 64]
    else if cp < 0x1_0000 then [0xE0 + cp / 4096, 0x80 + (cp / 64) % 64, 0x80 + cp % 64]
    else [0xF0 + cp / 262144, 0x80 + (cp / 4096) % 64, 0x80 + (cp / 64) % 64, 0x80 + cp % 64]
  }

  function Encode(s: string): (r: seq<Byte>)
    ensures |r| >= |s|
  {
    if s == [] then [] else EncodeChar(s[0]) + Encode(s[1..])
  }

  /** Decodes the first character of `b`, giving it with the number of bytes it
      took; rejects truncated, overlong and surrogate sequences. */
  function DecodeFirst(b: seq<Byte>): (r: Option<(char, nat)>)
    requires |b| > 0
    ensures r.Some? ==> 1 <= r.value.1 <= |b| && r.value.1 <= 4
  {
    var b0 := b[0] as int;
    if b0 < 0x80 then
      Some((b0 as char, 1))
    else if 0xC2 <= b0 < 0xE0 then
      if |b| >= 2 && IsContinuation(b[1]) then
        Some((((b0 - 0xC0) * 64 + (b[1] as int - 0x80)) as char, 2))
      else None
    else if 0xE0 <= b0 < 0xF0 then
      if |b| >= 3 && IsContinuation(b[1]) && IsContinuation(b[2]) then
        var cp := (b0 - 0xE0) * 4096 + (b[1] as int - 0x80) * 64 + (b[2] as int - 0x80);
        if 0x800 <= cp && IsScalar(cp) then Some((cp as char, 3)) else None
      else None
    else if 0xF0 <= b0 < 0xF5 then
      if |b| >= 4 && IsContinuation(b[1]) && IsContinuation(b[2]) && IsContinuation(b[3]) then
        var cp := (b0 - 0xF0) * 262144 + (b[1] as int - 0x80) * 4096 + (b[2] as int - 0x80) * 64 + (b[3] as int - 0x80);
        if 0x1_0000 <= cp < 0x11_0000 then Some((cp as char, 4)) else None
      else None
    else None
  }

  /** Decodes a whole byte sequence; None when it is not well-formed UTF-8. */
  function Decode(b: seq<Byte>): (r: Option<string>)
    decreases |b|
  {
    if b == [] then Some([])
    else match DecodeFirst(b)
      case None => None
      case Some((c, n)) =>
        match Decode(b[n..])
        case None => None
        case Some(cs) => Some([c] + cs)
  }

  /** `x / 4096` is two successive divisions by 64. */
  lemma DivDiv64(x: nat)
    ensures x / 4096 == (x / 64) / 64
  {
    var a, r := x / 64, x % 64;
    var b, s := a / 64, a % 64;
    assert x == 4096 * b + (64 * s + r);
    assert 0 <= 64 * s + r < 4096;
  }

  /** Reassembling the 6-bit groups of a code point gives the code point. */
  lemma Sextets(cp: nat)
    ensures (cp / 64) * 64 + cp % 64 == cp
    ensures (cp / 4096) * 4096 + ((cp / 64) % 64) * 64 + cp % 64 == cp
    ensures (cp / 262144) * 262144 + ((cp / 4096) % 64) * 4096 + ((cp / 64) % 64) * 64 + cp % 64 == cp
  {
    DivDiv64(cp);
    DivDiv64(cp / 64);
    assert cp / 262144 == (cp / 64) / 4096 by {
      var a, r := cp / 64, cp % 64;
      var b, s := a / 4096, a % 4096;
      assert cp == 262144 * b + (64 * s + r);
    }
  }

  /** Each character's encoding is read back as that character, whatever follows. */
  lemma DecodeFirstEncodeChar(c: char, rest: seq<Byte>)
    ensures DecodeFirst(EncodeChar(c) + rest) == Some((c, |EncodeChar(c)|))
  {
    var cp := c as int;
    var b := EncodeChar(c) + rest;
    Sextets(cp);
    if cp < 0x80 {
    } else if cp < 0x800 {
      assert b[0] as int - 0xC0 == cp / 64 && b[1] as int - 0x80 == cp % 64;
    } else if cp < 0x1_0000 {
      assert b[0] as int - 0xE0 == cp / 4096;
      assert b[1] as int - 0x80 == (cp / 64) % 64 && b[2] as int - 0x80 == cp % 64;
    } else {
      assert b[0] as int - 0xF0 == cp / 262144 && b[1] as int - 0x80 == (cp / 4096) % 64;
      assert b[2] as int - 0x80 == (cp / 64) % 64 && b[3] as int - 0x80 == cp % 64;
    }
  }

  /** Decoding inverts encoding. */
  lemma {:induction false} DecodeEncode(s: string)
    ensures Decode(Encode(s)) == Some(s)
  {
    if s != [] {
      var e := EncodeChar(s[0]);
      var tail := Encode(s[1..]);
      DecodeFirstEncodeChar(s[0], tail);
      assert (e + tail)[|e|..] == tail;
      DecodeEncode(s[1..]);
      assert [s[0]] + s[1..] == s;
    }
  }

  /** Encoding distributes over concatenation. */
  lemma {:induction false} EncodeAppend(a: string, b: string)
    ensures Encode(a + b) == Encode(a) + Encode(b)
  {
    if a != [] {
      calc {
        Encode(a + b);
        { assert (a + b)[0] == a[0] && (a + b)[1..] == a[1..] + b; }
        EncodeChar(a[0]) + Encode(a[1..] + b);
        { EncodeAppend(a[1..], b); }
        EncodeChar(a[0]) + (Encode(a[1..]) + Encode(b));
        (EncodeChar(a[0]) + Encode(a[1..])) + Encode(b);
      }
    } else {
      assert a + b == b;
    }
  }
}

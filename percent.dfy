/** Percent-encoding as the source's two URL builders apply it:
    `encodeURIComponent` (section 19.2.6.5 of ECMA-262) for the redirect URI in
    the authorization URL, and the application/x-www-form-urlencoded serializer
    of the WHATWG URL Standard that `URLSearchParams` uses for token-request
    bodies. Both escape each byte of a character's UTF-8 encoding as "%XY" with
    upper-case hex digits; they differ in the characters they leave alone and in
    the form serializer writing a space as '+'. */
module PercentEncoding {
  import opened Common
  import opened Text
  import Utf8

  predicate IsAlphaNum(c: char) {
    'A' <= c <= 'Z' || 'a' <= c <= 'z' || '0' <= c <= '9'
  }

  /** The characters `encodeURIComponent` copies unchanged (uriUnreserved). */
  predicate IsUriUnreserved(c: char) {
    IsAlphaNum(c) || c in "-_.!~*'()"
  }

  /** The characters the form serializer copies unchanged. */
  predicate IsFormSafe(c: char) {
    IsAlphaNum(c) || c in "*-._"
  }

  function HexDigit(n: int): (c: char)
    requires 0 <= n < 16
    ensures IsAlphaNum(c)
  {
    if n < 10 then ('0' as int + n) as char else ('A' as int + n - 10) as char
  }

  /** The value of a hex digit of either case. */
  function HexValue(c: char): (r: Option<int>)
    ensures r.Some? ==> 0 <= r.value < 16
  {
    if '0' <= c <= '9' then Some(c as int - '0' as int)
    else if 'A' <= c <= 'F' then Some(c as int - 'A' as int + 10)
    else if 'a' <= c <= 'f' then Some(c as int - 'a' as int + 10)
    else None
  }

  lemma HexValueDigit(n: int)
    requires 0 <= n < 16
    ensures HexValue(HexDigit(n)) == Some(n)
  {
  }

  /** "%XY" for each byte. */
  function Escape(b: seq<Byte>): (r: string)
    ensures |r| == 3 * |b|
    ensures forall i :: 0 <= i < |r| ==> r[i] == '%' || IsAlphaNum(r[i])
  {
    if b == [] then [] else ['%', HexDigit(b[0] / 16), HexDigit(b[0] % 16)] + Escape(b[1..])
  }

  /** `encodeURIComponent(s)`: the result holds only unreserved characters and
      escapes, so it cannot end or split a query parameter. */
  function EncodeUriComponent(s: string): (r: string)
    ensures forall i :: 0 <= i < |r| ==> IsUriUnreserved(r[i]) || r[i] == '%'
  {
    if s == [] then []
    else
      var head := if IsUriUnreserved(s[0]) then [s[0]] else Escape(Utf8.EncodeChar(s[0]));
      head + EncodeUriComponent(s[1..])
  }

  /** The form serializer's encoding of one name or value. */
  function FormEncode(s: string): (r: string)
    ensures forall i :: 0 <= i < |r| ==> IsFormSafe(r[i]) || r[i] == '%' || r[i] == '+'
  {
    if s == [] then []
    else
      var head :=
        if IsFormSafe(s[0]) then [s[0]]
        else if s[0] == ' ' then ['+']
        else Escape(Utf8.EncodeChar(s[0]));
      head + FormEncode(s[1..])
  }

  function Prepend(b: seq<Byte>, r: Option<seq<Byte>>): Option<seq<Byte>> {
    match r
    case None => None
    case Some(rest) => Some(b + rest)
  }

  /** Percent-decoding to bytes; with `plusIsSpace`, '+' stands for a space.
      Any other character stands for its own UTF-8 bytes. None on a '%' that is
      not followed by two hex digits. */
  function DecodeBytes(s: string, plusIsSpace: bool): Option<seq<Byte>>
  {
    if s == [] then Some([])
    else if s[0] == '%' then
      if |s| >= 3 && HexValue(s[1]).Some? && HexValue(s[2]).Some? then
        Prepend([HexValue(s[1]).value * 16 + HexValue(s[2]).value], DecodeBytes(s[3..], plusIsSpace))
      else None
    else if s[0] == '+' && plusIsSpace then
      Prepend([0x20], DecodeBytes(s[1..], plusIsSpace))
    else
      Prepend(Utf8.EncodeChar(s[0]), DecodeBytes(s[1..], plusIsSpace))
  }

  /** The inverse of `EncodeUriComponent` (`decodeURIComponent`). */
  function DecodeUriComponent(s: string): Option<string> {
    match DecodeBytes(s, false)
    case None => None
    case Some(b) => Utf8.Decode(b)
  }

  /** The inverse of `FormEncode`. */
  function FormDecode(s: string): Option<string> {
    match DecodeBytes(s, true)
    case None => None
    case Some(b) => Utf8.Decode(b)
  }

  /** One escape "%XY" decodes to its byte, whatever follows. */
  lemma DecodeEscapeByte(x: Byte, more: string, plusIsSpace: bool)
    ensures DecodeBytes(['%', HexDigit(x / 16), HexDigit(x % 16)] + more, plusIsSpace)
         == Prepend([x], DecodeBytes(more, plusIsSpace))
  {
    var s := ['%', HexDigit(x / 16), HexDigit(x % 16)] + more;
    HexValueDigit(x / 16);
    HexValueDigit(x % 16);
    assert s[0] == '%' && s[3..] == more;
    assert HexValue(s[1]).value * 16 + HexValue(s[2]).value == x;
  }

  lemma PrependPrepend(a: seq<Byte>, b: seq<Byte>, r: Option<seq<Byte>>)
    ensures Prepend(a, Prepend(b, r)) == Prepend(a + b, r)
  {
    if r.Some? {
      assert a + (b + r.value) == (a + b) + r.value;
    }
  }

  /** Escaped bytes decode back to those bytes, whatever follows. */
  lemma {:induction false} DecodeEscape(b: seq<Byte>, rest: string, plusIsSpace: bool)
    ensures DecodeBytes(Escape(b) + rest, plusIsSpace) == Prepend(b, DecodeBytes(rest, plusIsSpace))
  {
    if b != [] {
      var more := Escape(b[1..]) + rest;
      assert Escape(b) + rest == ['%', HexDigit(b[0] / 16), HexDigit(b[0] % 16)] + more;
      DecodeEscapeByte(b[0], more, plusIsSpace);
      DecodeEscape(b[1..], rest, plusIsSpace);
      PrependPrepend([b[0]], b[1..], DecodeBytes(rest, plusIsSpace));
      assert [b[0]] + b[1..] == b;
    } else {
      assert Escape(b) + rest == rest;
      PrependPrepend([], [], DecodeBytes(rest, plusIsSpace));
      assert Prepend([], DecodeBytes(rest, plusIsSpace)) == DecodeBytes(rest, plusIsSpace) by {
        if DecodeBytes(rest, plusIsSpace).Some? {
          assert [] + DecodeBytes(rest, plusIsSpace).value == DecodeBytes(rest, plusIsSpace).value;
        }
      }
    }
  }

  /** A character that is neither '%' nor (when it is special) '+' decodes to its own bytes. */
  lemma DecodeLiteral(c: char, rest: string, plusIsSpace: bool)
    requires c != '%' && !(c == '+' && plusIsSpace)
    ensures DecodeBytes([c] + rest, plusIsSpace) == Prepend(Utf8.EncodeChar(c), DecodeBytes(rest, plusIsSpace))
  {
    assert ([c] + rest)[1..] == rest;
  }

  /** Percent-decoding `encodeURIComponent(s)` gives the UTF-8 bytes of `s`. */
  lemma {:induction false} DecodeBytesUriComponent(s: string)
    ensures DecodeBytes(EncodeUriComponent(s), false) == Some(Utf8.Encode(s))
  {
    if s != [] {
      var tail := EncodeUriComponent(s[1..]);
      DecodeBytesUriComponent(s[1..]);
      if IsUriUnreserved(s[0]) {
        DecodeLiteral(s[0], tail, false);
      } else {
        DecodeEscape(Utf8.EncodeChar(s[0]), tail, false);
      }
    }
  }

  /** `decodeURIComponent(encodeURIComponent(s)) == s`. */
  lemma UriComponentRoundTrip(s: string)
    ensures DecodeUriComponent(EncodeUriComponent(s)) == Some(s)
  {
    DecodeBytesUriComponent(s);
    Utf8.DecodeEncode(s);
  }

  /** Percent-decoding a form-encoded string, '+' as space, gives the UTF-8 bytes of `s`. */
  lemma {:induction false} DecodeBytesForm(s: string)
    ensures DecodeBytes(FormEncode(s), true) == Some(Utf8.Encode(s))
  {
    if s != [] {
      var tail := FormEncode(s[1..]);
      DecodeBytesForm(s[1..]);
      if IsFormSafe(s[0]) {
        DecodeLiteral(s[0], tail, true);
      } else if s[0] == ' ' {
        assert (['+'] + tail)[1..] == tail;
        assert Utf8.EncodeChar(' ') == [0x20];
      } else {
        DecodeEscape(Utf8.EncodeChar(s[0]), tail, true);
      }
    }
  }

  /** Form-decoding a form-encoded string gives it back. */
  lemma FormRoundTrip(s: string)
    ensures FormDecode(FormEncode(s)) == Some(s)
  {
    DecodeBytesForm(s);
    Utf8.DecodeEncode(s);
  }

  /** Text with no '%' and no '+' form-decodes to itself. */
  lemma {:induction false} FormDecodePlain(s: string)
    requires '%' !in s && '+' !in s
    ensures FormDecode(s) == Some(s)
  {
    DecodeBytesPlain(s);
    Utf8.DecodeEncode(s);
  }

  lemma {:induction false} DecodeBytesPlain(s: string)
    requires '%' !in s && '+' !in s
    ensures DecodeBytes(s, true) == Some(Utf8.Encode(s))
  {
    if s != [] {
      assert s == [s[0]] + s[1..];
      DecodeLiteral(s[0], s[1..], true);
      DecodeBytesPlain(s[1..]);
    }
  }

  /** Where no '+' occurs, reading '+' as a space makes no difference. */
  lemma {:induction false} DecodeBytesNoPlus(s: string)
    requires '+' !in s
    ensures DecodeBytes(s, true) == DecodeBytes(s, false)
  {
    if s != [] {
      if s[0] == '%' {
        if |s| >= 3 {
          DecodeBytesNoPlus(s[3..]);
        }
      } else {
        DecodeBytesNoPlus(s[1..]);
      }
    }
  }

  /** The output of `encodeURIComponent` also form-decodes back to its input,
      as a reader of a URL query string decodes it. */
  lemma FormDecodeUriComponent(s: string)
    ensures FormDecode(EncodeUriComponent(s)) == Some(s)
  {
    var e := EncodeUriComponent(s);
    assert '+' !in e by {
      forall i | 0 <= i < |e| ensures e[i] != '+' {
        assert IsUriUnreserved(e[i]) || e[i] == '%';
      }
    }
    DecodeBytesNoPlus(e);
    UriComponentRoundTrip(s);
  }
}

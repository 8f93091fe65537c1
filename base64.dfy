/** The base64 encoding of section 4 of RFC 4648 (the alphabet with '+' and '/',
    '=' padding), as `Buffer.toString('base64')` produces it. */
module Base64 {
  import opened Common

  /** The character for a 6-bit value (Table 1 of RFC 4648). */
  function Symbol(i: int): (c: char)
    requires 0 <= i < 64
  {
    if i < 26 then ('A' as int + i) as char
    else if i < 52 then ('a' as int + i - 26) as char
    else if i < 62 then ('0' as int + i - 52) as char
    else if i == 62 then '+'
    else '/'
  }

  /** The 6-bit value of an alphabet character; None for any other character,
      the pad '=' included. */
  function Value(c: char): (r: Option<int>)
    ensures r.Some? ==> 0 <= r.value < 64
  {
    if 'A' <= c <= 'Z' then Some(c as int - 'A' as int)
    else if 'a' <= c <= 'z' then Some(c as int - 'a' as int + 26)
    else if '0' <= c <= '9' then Some(c as int - '0' as int + 52)
    else if c == '+' then Some(62)
    else if c == '/' then Some(63)
    else None
  }

  /** Every 6-bit value has exactly one symbol, and it is not the pad. */
  lemma ValueSymbol(i: int)
    requires 0 <= i < 64
    ensures Value(Symbol(i)) == Some(i)
    ensures Symbol(i) != '='
  {
  }

  /** The four 6-bit groups of the 24 bits `x y z`, most significant first. */
  function Hi6(x: Byte): (r: int) ensures 0 <= r < 64 { x / 4 }
  function Mid6(x: Byte, y: Byte): (r: int) ensures 0 <= r < 64 { (x % 4) * 16 + y / 16 }
  function Low6(y: Byte, z: Byte): (r: int) ensures 0 <= r < 64 { (y % 16) * 4 + z / 64 }
  function Last6(z: Byte): (r: int) ensures 0 <= r < 64 { z % 64 }

  /** The three bytes held by four 6-bit groups. */
  function Byte0(i0: int, i1: int): (r: Byte) requires 0 <= i0 < 64 && 0 <= i1 < 64 { i0 * 4 + i1 / 16 }
  function Byte1(i1: int, i2: int): (r: Byte) requires 0 <= i1 < 64 && 0 <= i2 < 64 { (i1 % 16) * 16 + i2 / 4 }
  function Byte2(i2: int, i3: int): (r: Byte) requires 0 <= i2 < 64 && 0 <= i3 < 64 { (i2 % 4) * 64 + i3 }

  /** Splitting three bytes into 6-bit groups and joining them again is the identity. */
  lemma Regroup(x: Byte, y: Byte, z: Byte)
    ensures Byte0(Hi6(x), Mid6(x, y)) == x
    ensures Byte1(Mid6(x, y), Low6(y, z)) == y
    ensures Byte2(Low6(y, z), Last6(z)) == z
  {
    assert Mid6(x, y) / 16 == x % 4;
    assert Mid6(x, y) % 16 == y / 16;
    assert Low6(y, z) / 4 == y % 16;
    assert Low6(y, z) % 4 == z / 64;
  }

  /** The four symbols that encode the three bytes `x y z`. */
  function Quad(x: Byte, y: Byte, z: Byte): (r: string)
    ensures |r| == 4
  {
    [Symbol(Hi6(x)), Symbol(Mid6(x, y)), Symbol(Low6(y, z)), Symbol(Last6(z))]
  }

  /** Encodes the bytes, three at a time, into four symbols each; a final group
      of one or two bytes is zero-filled and padded with "==" or "=". */
  function Encode(b: seq<Byte>): (r: string)
    ensures |r| == 4 * ((|b| + 2) / 3)
    ensures r == [] <==> b == []
  {
    if |b| == 0 then []
    else if |b| == 1 then
      [Symbol(Hi6(b[0])), Symbol(Mid6(b[0], 0)), '=', '=']
    else if |b| == 2 then
      [Symbol(Hi6(b[0])), Symbol(Mid6(b[0], b[1])), Symbol(Low6(b[1], 0)), '=']
    else
      var n := |b| - 3;
      assert (n + 2) / 3 + 1 == (|b| + 2) / 3;
      assert 4 * ((n + 2) / 3) + 4 == 4 * ((|b| + 2) / 3);
      Quad(b[0], b[1], b[2]) + Encode(b[3..])
  }

  /** Decodes one group of four characters, the last group of the input when
      `last` holds (only there may padding appear). */
  function DecodeGroup(q: string, last: bool): (r: Option<seq<Byte>>)
    requires |q| == 4
    ensures r.Some? ==> 1 <= |r.value| <= 3
  {
    var v0, v1, v2, v3 := Value(q[0]), Value(q[1]), Value(q[2]), Value(q[3]);
    if v0.None? || v1.None? then None
    else if last && q[2] == '=' && q[3] == '=' then
      Some([Byte0(v0.value, v1.value)])
    else if v2.None? then None
    else if last && q[3] == '=' then
      Some([Byte0(v0.value, v1.value), Byte1(v1.value, v2.value)])
    else if v3.None? then None
    else
      Some([Byte0(v0.value, v1.value), Byte1(v1.value, v2.value), Byte2(v2.value, v3.value)])
  }

  /** Decodes a base64 string; None when its length is not a multiple of four,
      a character is outside the alphabet or padding is misplaced. */
  function Decode(s: string): (r: Option<seq<Byte>>)
    decreases |s|
  {
    if |s| == 0 then Some([])
    else if |s| < 4 then None
    else match DecodeGroup(s[..4], |s| == 4)
      case None => None
      case Some(g) =>
        match Decode(s[4..])
        case None => None
        case Some(rest) => Some(g + rest)
  }

  /** A group "ab==" decodes to the byte held by the values of 'a' and 'b'. */
  lemma DecodeGroupPad2(q: string, i0: int, i1: int)
    requires |q| == 4 && 0 <= i0 < 64 && 0 <= i1 < 64
    requires Value(q[0]) == Some(i0) && Value(q[1]) == Some(i1) && q[2] == '=' && q[3] == '='
    ensures DecodeGroup(q, true) == Some([Byte0(i0, i1)])
  {
  }

  /** A group "abc=" decodes to the two bytes held by the values of 'a', 'b', 'c'. */
  lemma DecodeGroupPad1(q: string, i0: int, i1: int, i2: int)
    requires |q| == 4 && 0 <= i0 < 64 && 0 <= i1 < 64 && 0 <= i2 < 64
    requires Value(q[0]) == Some(i0) && Value(q[1]) == Some(i1) && Value(q[2]) == Some(i2)
    requires q[3] == '='
    ensures DecodeGroup(q, true) == Some([Byte0(i0, i1), Byte1(i1, i2)])
  {
  }

  /** A group of four alphabet symbols decodes to the three bytes they hold. */
  lemma DecodeGroupFull(q: string, last: bool, i0: int, i1: int, i2: int, i3: int)
    requires |q| == 4 && 0 <= i0 < 64 && 0 <= i1 < 64 && 0 <= i2 < 64 && 0 <= i3 < 64
    requires Value(q[0]) == Some(i0) && Value(q[1]) == Some(i1)
    requires Value(q[2]) == Some(i2) && Value(q[3]) == Some(i3)
    ensures DecodeGroup(q, last) == Some([Byte0(i0, i1), Byte1(i1, i2), Byte2(i2, i3)])
  {
  }

  /** "xx==" decodes back to the one byte it encodes. */
  lemma DecodeGroupOne(x: Byte)
    ensures DecodeGroup(Encode([x]), true) == Some([x])
  {
    var i0, i1 := Hi6(x), Mid6(x, 0);
    var q := [Symbol(i0), Symbol(i1), '=', '='];
    assert Encode([x]) == q;
    ValueSymbol(i0);
    ValueSymbol(i1);
    DecodeGroupPad2(q, i0, i1);
    Regroup(x, 0, 0);
  }

  /** "xxx=" decodes back to the two bytes it encodes. */
  lemma DecodeGroupTwo(x: Byte, y: Byte)
    ensures DecodeGroup(Encode([x, y]), true) == Some([x, y])
  {
    var i0, i1, i2 := Hi6(x), Mid6(x, y), Low6(y, 0);
    var q := [Symbol(i0), Symbol(i1), Symbol(i2), '='];
    assert Encode([x, y]) == q;
    ValueSymbol(i0);
    ValueSymbol(i1);
    ValueSymbol(i2);
    DecodeGroupPad1(q, i0, i1, i2);
    Regroup(x, y, 0);
  }

  /** Four symbols without padding decode back to the three bytes they encode. */
  lemma DecodeGroupThree(x: Byte, y: Byte, z: Byte, last: bool)
    ensures DecodeGroup(Quad(x, y, z), last) == Some([x, y, z])
  {
    var i0, i1, i2, i3 := Hi6(x), Mid6(x, y), Low6(y, z), Last6(z);
    var q := Quad(x, y, z);
    assert q == [Symbol(i0), Symbol(i1), Symbol(i2), Symbol(i3)];
    ValueSymbol(i0);
    ValueSymbol(i1);
    ValueSymbol(i2);
    ValueSymbol(i3);
    DecodeGroupFull(q, last, i0, i1, i2, i3);
    Regroup(x, y, z);
  }

  /** A group followed by the rest of the input decodes to the group's bytes
      followed by the rest's. */
  lemma DecodeCons(q: string, s: string, g: seq<Byte>, rest: seq<Byte>)
    requires |q| == 4
    requires DecodeGroup(q, s == []) == Some(g)
    requires Decode(s) == Some(rest)
    ensures Decode(q + s) == Some(g + rest)
  {
    var t := q + s;
    assert t[..4] == q;
    assert t[4..] == s;
    assert |t| == 4 <==> s == [];
  }

  /** The encoding of three or more bytes: the group of the first three, then
      the encoding of the rest. */
  lemma EncodeLong(b: seq<Byte>)
    requires |b| >= 3
    ensures Encode(b) == Quad(b[0], b[1], b[2]) + Encode(b[3..])
  {
  }

  /** One byte round-trips. */
  lemma DecodeEncodeOne(x: Byte)
    ensures Decode(Encode([x])) == Some([x])
  {
    var q := Encode([x]);
    DecodeGroupOne(x);
    DecodeCons(q, [], [x], []);
    assert q + [] == q && [x] + [] == [x];
  }

  /** Two bytes round-trip. */
  lemma DecodeEncodeTwo(x: Byte, y: Byte)
    ensures Decode(Encode([x, y])) == Some([x, y])
  {
    var q := Encode([x, y]);
    DecodeGroupTwo(x, y);
    DecodeCons(q, [], [x, y], []);
    assert q + [] == q && [x, y] + [] == [x, y];
  }

  /** A sequence of three or more bytes is its first three followed by the rest. */
  lemma SplitThree(b: seq<Byte>)
    requires |b| >= 3
    ensures [b[0], b[1], b[2]] + b[3..] == b
  {
    assert b == b[..3] + b[3..];
    assert b[..3] == [b[0], b[1], b[2]];
  }

  /** Three bytes in front of a tail that round-trips round-trip with it. */
  lemma DecodeEncodeLong(b: seq<Byte>)
    requires |b| >= 3
    requires Decode(Encode(b[3..])) == Some(b[3..])
    ensures Decode(Encode(b)) == Some(b)
  {
    var rest := b[3..];
    var g, e := Quad(b[0], b[1], b[2]), Encode(rest);
    EncodeLong(b);
    DecodeGroupThree(b[0], b[1], b[2], e == []);
    DecodeCons(g, e, [b[0], b[1], b[2]], rest);
    SplitThree(b);
  }

  /** Decoding inverts encoding. */
  lemma {:induction false} DecodeEncode(b: seq<Byte>)
    ensures Decode(Encode(b)) == Some(b)
  {
    if |b| == 1 {
      assert b == [b[0]];
      DecodeEncodeOne(b[0]);
    } else if |b| == 2 {
      assert b == [b[0], b[1]];
      DecodeEncodeTwo(b[0], b[1]);
    } else if |b| >= 3 {
      DecodeEncode(b[3..]);
      DecodeEncodeLong(b);
    }
  }
}

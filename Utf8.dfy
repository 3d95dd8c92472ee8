/**
 * The text/byte boundary of the driver: `str.encode()` on every command
 * sent and `bytes.decode("utf-8")` on every reply that is parsed.  Both are
 * UTF-8 as defined in section 3 of RFC 3629; decoding is strict, so
 * overlong forms, surrogates and code points above U+10FFFF are refused.
 */
module Utf8 {
  import opened Wrappers

  type Byte = b: int | 0 <= b < 0x100

  predicate IsContinuation(b: Byte) { 0x80 <= b < 0xC0 }

  /** The UTF-8 bytes of one Unicode scalar value. */
  function EncodeChar(c: char): (r: seq<Byte>)
    ensures 1 <= |r| <= 4
    ensures (|r| == 1) <==> (c as int < 0x80)
    ensures |r| == 1 ==> r[0] == c as int
  {
    var v := c as int;
    if v < 0x80 then [v]
    else if v < 0x800 then [0xC0 + v / 0x40, 0x80 + v % 0x40]
    else if v < 0x10000 then [0xE0 + v / 0x1000, 0x80 + (v / 0x40) % 0x40, 0x80 + v % 0x40]
    else [0xF0 + v / 0x40000, 0x80 + (v / 0x1000) % 0x40, 0x80 + (v / 0x40) % 0x40, 0x80 + v % 0x40]
  }

  /** `str.encode()`: the UTF-8 bytes of a whole string. */
  function Encode(s: string): (r: seq<Byte>)
    ensures |r| >= |s|
  {
    if s == [] then [] else EncodeChar(s[0]) + Encode(s[1..])
  }

  /**
   * Decodes the one character that `b` starts with, following the table of
   * well-formed byte sequences in section 4 of RFC 3629.  Gives the
   * character and the number of bytes it occupies.
   */
  function DecodeChar(b: seq<Byte>): (r: Option<(char, nat)>)
    requires |b| > 0
    ensures r.Some? ==> 1 <= r.value.1 <= |b| && r.value.1 <= 4
  {
    var b0 := b[0] as int;
    if b0 < 0x80 then Some((b0 as char, 1))
    else if 0xC2 <= b0 < 0xE0 then
      if |b| >= 2 && IsContinuation(b[1]) then
        Some((((b0 - 0xC0) * 0x40 + (b[1] as int - 0x80)) as char, 2))
      else None
    else if 0xE0 <= b0 < 0xF0 then
      if |b| >= 3 && IsContinuation(b[1]) && IsContinuation(b[2])
         && (b0 != 0xE0 || b[1] >= 0xA0) && (b0 != 0xED || b[1] < 0xA0) then
        Some((((b0 - 0xE0) * 0x1000 + (b[1] as int - 0x80) * 0x40 + (b[2] as int - 0x80)) as char, 3))
      else None
    else if 0xF0 <= b0 < 0xF5 then
      if |b| >= 4 && IsContinuation(b[1]) && IsContinuation(b[2]) && IsContinuation(b[3])
         && (b0 != 0xF0 || b[1] >= 0x90) && (b0 != 0xF4 || b[1] < 0x90) then
        Some((((b0 - 0xF0) * 0x40000 + (b[1] as int - 0x80) * 0x1000 + (b[2] as int - 0x80) * 0x40 + (b[3] as int - 0x80)) as char, 4))
      else None
    else None
  }

  /** `bytes.decode("utf-8")`: `None` where Python raises UnicodeDecodeError. */
  function Decode(b: seq<Byte>): (r: Option<string>)
    ensures r.Some? ==> |r.value| <= |b|
    decreases |b|
  {
    if b == [] then Some([])
    else match DecodeChar(b)
      case None => None
      case Some((c, n)) =>
        match Decode(b[n..])
        case None => None
        case Some(rest) => Some([c] + rest)
  }

  /** Decoding the bytes of one character gives that character back, whatever follows. */
  lemma DecodeEncodeChar(c: char, rest: seq<Byte>)
    ensures DecodeChar(EncodeChar(c) + rest) == Some((c, |EncodeChar(c)|))
  {
    var v := c as int;
    if v < 0x80 {
    } else if v < 0x800 {
      DecodeTwoBytes(c, rest);
    } else if v < 0x10000 {
      DecodeThreeBytes(c, rest);
    } else {
      DecodeFourBytes(c, rest);
    }
  }

  lemma DecodeTwoBytes(c: char, rest: seq<Byte>)
    requires 0x80 <= c as int < 0x800
    ensures DecodeChar(EncodeChar(c) + rest) == Some((c, 2))
  {
    var v := c as int;
    var b := EncodeChar(c) + rest;
    assert b[0] == 0xC0 + v / 0x40 && b[1] == 0x80 + v % 0x40;
    assert v == (v / 0x40) * 0x40 + v % 0x40;
  }

  lemma DecodeThreeBytes(c: char, rest: seq<Byte>)
    requires 0x800 <= c as int < 0x10000
    ensures DecodeChar(EncodeChar(c) + rest) == Some((c, 3))
  {
    var v := c as int;
    var b := EncodeChar(c) + rest;
    assert b[0] == 0xE0 + v / 0x1000 && b[1] == 0x80 + (v / 0x40) % 0x40 && b[2] == 0x80 + v % 0x40;
    assert v / 0x40 == (v / 0x1000) * 0x40 + (v / 0x40) % 0x40;
    assert v == (v / 0x40) * 0x40 + v % 0x40;
  }

  lemma DecodeFourBytes(c: char, rest: seq<Byte>)
    requires 0x10000 <= c as int
    ensures DecodeChar(EncodeChar(c) + rest) == Some((c, 4))
  {
    var v := c as int;
    var b := EncodeChar(c) + rest;
    assert b[0] == 0xF0 + v / 0x40000 && b[1] == 0x80 + (v / 0x1000) % 0x40
      && b[2] == 0x80 + (v / 0x40) % 0x40 && b[3] == 0x80 + v % 0x40;
    assert v / 0x1000 == (v / 0x40000) * 0x40 + (v / 0x1000) % 0x40;
    assert v / 0x40 == (v / 0x1000) * 0x40 + (v / 0x40) % 0x40;
    assert v == (v / 0x40) * 0x40 + v % 0x40;
  }

  /** Every string survives the trip through the wire encoding. */
  lemma {:induction false} DecodeEncode(s: string)
    ensures Decode(Encode(s)) == Some(s)
  {
    if s != [] {
      var e := EncodeChar(s[0]);
      DecodeEncodeChar(s[0], Encode(s[1..]));
      assert (e + Encode(s[1..]))[|e|..] == Encode(s[1..]);
      DecodeEncode(s[1..]);
      assert [s[0]] + s[1..] == s;
    }
  }

  /**
   * Decoding is injective: the bytes of every well-formed reply are the
   * encoding of the text they decode to, so no two byte strings decode to
   * the same text.
   */
  lemma {:induction false} EncodeDecode(b: seq<Byte>)
    requires Decode(b).Some?
    ensures Encode(Decode(b).value) == b
    decreases |b|
  {
    if b != [] {
      var (c, n) := DecodeChar(b).value;
      var rest := Decode(b[n..]).value;
      EncodeDecodeChar(b);
      EncodeDecode(b[n..]);
      var t := [c] + rest;
      assert t[0] == c && t[1..] == rest;
      assert b == b[..n] + b[n..];
    }
  }

  /** The character decoded at the start of `b` encodes to exactly the bytes it was decoded from. */
  lemma EncodeDecodeChar(b: seq<Byte>)
    requires |b| > 0 && DecodeChar(b).Some?
    ensures EncodeChar(DecodeChar(b).value.0) == b[..DecodeChar(b).value.1]
  {
    var n := DecodeChar(b).value.1;
    if n == 2 {
      EncodeDecodeTwo(b);
    } else if n == 3 {
      EncodeDecodeThree(b);
    } else if n == 4 {
      EncodeDecodeFour(b);
    }
  }

  lemma EncodeDecodeTwo(b: seq<Byte>)
    requires |b| >= 2 && 0xC2 <= b[0] < 0xE0 && IsContinuation(b[1])
    ensures DecodeChar(b).Some? && EncodeChar(DecodeChar(b).value.0) == b[..2]
  {
    var hi, lo := b[0] as int - 0xC0, b[1] as int - 0x80;
    var v := hi * 0x40 + lo;
    assert v / 0x40 == hi && v % 0x40 == lo;
    assert EncodeChar(v as char) == [b[0], b[1]];
  }

  lemma EncodeDecodeThree(b: seq<Byte>)
    requires |b| >= 3 && 0xE0 <= b[0] < 0xF0 && IsContinuation(b[1]) && IsContinuation(b[2])
    requires (b[0] != 0xE0 || b[1] >= 0xA0) && (b[0] != 0xED || b[1] < 0xA0)
    ensures DecodeChar(b).Some? && EncodeChar(DecodeChar(b).value.0) == b[..3]
  {
    var x, y, z := b[0] as int - 0xE0, b[1] as int - 0x80, b[2] as int - 0x80;
    var w := x * 0x40 + y;
    var v := w * 0x40 + z;
    assert v == x * 0x1000 + y * 0x40 + z;
    assert v / 0x40 == w && v % 0x40 == z;
    assert w / 0x40 == x && w % 0x40 == y;
    assert v / 0x1000 == x;
    assert EncodeChar(v as char) == [b[0], b[1], b[2]];
  }

  lemma EncodeDecodeFour(b: seq<Byte>)
    requires |b| >= 4 && 0xF0 <= b[0] < 0xF5
    requires IsContinuation(b[1]) && IsContinuation(b[2]) && IsContinuation(b[3])
    requires (b[0] != 0xF0 || b[1] >= 0x90) && (b[0] != 0xF4 || b[1] < 0x90)
    ensures DecodeChar(b).Some? && EncodeChar(DecodeChar(b).value.0) == b[..4]
  {
    var x, y, z, u := b[0] as int - 0xF0, b[1] as int - 0x80, b[2] as int - 0x80, b[3] as int - 0x80;
    var w1 := x * 0x40 + y;
    var w2 := w1 * 0x40 + z;
    var v := w2 * 0x40 + u;
    assert v == x * 0x40000 + y * 0x1000 + z * 0x40 + u;
    assert v / 0x40 == w2 && v % 0x40 == u;
    assert w2 / 0x40 == w1 && w2 % 0x40 == z;
    assert w1 / 0x40 == x && w1 % 0x40 == y;
    assert v / 0x1000 == w1 && v / 0x40000 == x;
    assert EncodeChar(v as char) == [b[0], b[1], b[2], b[3]];
  }

  lemma {:induction false} EncodeConcat(a: string, b: string)
    ensures Encode(a + b) == Encode(a) + Encode(b)
  {
    if a != [] {
      assert (a + b)[0] == a[0];
      assert (a + b)[1..] == a[1..] + b;
      EncodeConcat(a[1..], b);
    } else {
      assert a + b == b;
    }
  }

  /** A string that ends in an ASCII character encodes to bytes that end in that character's code. */
  lemma EncodeEndsWith(t: string)
    requires |t| >= 1 && t[|t| - 1] as int < 0x80
    ensures |Encode(t)| >= 1 && Encode(t)[|Encode(t)| - 1] == t[|t| - 1] as int
  {
    var last := t[|t| - 1];
    assert t == t[..|t| - 1] + [last];
    EncodeConcat(t[..|t| - 1], [last]);
    assert Encode([last]) == [last as int];
  }

  /** Every byte of a character above ASCII is itself above ASCII. */
  lemma EncodeCharHigh(c: char)
    requires c as int >= 0x80
    ensures forall x :: 0 <= x < |EncodeChar(c)| ==> EncodeChar(c)[x] >= 0x80
  {
  }

  /** A string without the ASCII character `c` encodes to bytes without that character's code. */
  lemma {:induction false} EncodeAvoids(s: string, c: char)
    requires c as int < 0x80
    requires forall i :: 0 <= i < |s| ==> s[i] != c
    ensures forall x :: 0 <= x < |Encode(s)| ==> Encode(s)[x] != c as int
  {
    if s != [] {
      var e := EncodeChar(s[0]);
      EncodeAvoids(s[1..], c);
      if s[0] as int >= 0x80 {
        EncodeCharHigh(s[0]);
      }
      forall x | 0 <= x < |Encode(s)| ensures Encode(s)[x] != c as int {
        if x >= |e| {
          assert Encode(s)[x] == Encode(s[1..])[x - |e|];
        }
      }
    }
  }
}

/**
 * UTF-8 as Python's `str.encode()` and strict `bytes.decode()` use it (RFC 3629):
 * one to four bytes per Unicode scalar value; the decoder refuses overlong forms,
 * surrogates and values above U+10FFFF.
 */
module Utf8 {
  import opened Wrappers

  type byte = x: int | 0 <= x < 256

  predicate IsContinuation(b: byte) { 0x80 <= b < 0xC0 }

  function EncodeChar(c: char): (b: seq<byte>)
    ensures 1 <= |b| <= 4
    ensures (c as int < 0x80) <==> |b| == 1
  {
    var x := c as int;
    if x < 0x80 then [x]
    else if x < 0x800 then [0xC0 + x / 64, 0x80 + x % 64]
    else if x < 0x10000 then [0xE0 + x / 4096, 0x80 + (x / 64) % 64, 0x80 + x % 64]
    else [0xF0 + x / 262144, 0x80 + (x / 4096) % 64, 0x80 + (x / 64) % 64, 0x80 + x % 64]
  }

  /** `s.encode()`. */
  function Encode(s: string): (b: seq<byte>)
    ensures |b| >= |s|
  {
    if s == [] then [] else EncodeChar(s[0]) + Encode(s[1..])
  }

  predicate IsScalar(x: int) { 0 <= x < 0xD800 || 0xE000 <= x < 0x110000 }

  /** The first character of a well-formed byte string and the number of bytes it used. */
  function DecodeChar(b: seq<byte>): (r: Option<(char, nat)>)
    ensures r.Some? ==> 1 <= r.value.1 <= |b|
  {
    if |b| == 0 then None
    else if b[0] < 0x80 then Some((b[0] as char, 1))
    else if 0xC2 <= b[0] < 0xE0 then
      if |b| < 2 || !IsContinuation(b[1]) then None
      else Some((((b[0] as int - 0xC0) * 64 + (b[1] as int - 0x80)) as char, 2))
    else if 0xE0 <= b[0] < 0xF0 then
      if |b| < 3 || !IsContinuation(b[1]) || !IsContinuation(b[2]) then None
      else
        var x := (b[0] as int - 0xE0) * 4096 + (b[1] as int - 0x80) * 64 + (b[2] as int - 0x80);
        if x < 0x800 || !IsScalar(x) then None else Some((x as char, 3))
    else if 0xF0 <= b[0] < 0xF5 then
      if |b| < 4 || !IsContinuation(b[1]) || !IsContinuation(b[2]) || !IsContinuation(b[3]) then None
      else
        var x := (b[0] as int - 0xF0) * 262144 + (b[1] as int - 0x80) * 4096 + (b[2] as int - 0x80) * 64 + (b[3] as int - 0x80);
        if x < 0x10000 || !IsScalar(x) then None else Some((x as char, 4))
    else None
  }

  /** `b.decode()`: `None` where Python raises UnicodeDecodeError. */
  function Decode(b: seq<byte>): Option<string>
    decreases |b|
  {
    if b == [] then Some("")
    else match DecodeChar(b)
      case None => None
      case Some((c, k)) =>
        match Decode(b[k..])
        case None => None
        case Some(s) => Some([c] + s)
  }

  lemma DecodeTwo(x: int, rest: seq<byte>)
    requires 0x80 <= x < 0x800
    ensures var b := [0xC0 + x / 64, 0x80 + x % 64] + rest;
      0xC2 <= b[0] < 0xE0 && IsContinuation(b[1]) && (b[0] - 0xC0) * 64 + (b[1] - 0x80) == x
  {
    assert x == (x / 64) * 64 + x % 64;
  }

  lemma DecodeThree(x: int, rest: seq<byte>)
    requires 0x800 <= x < 0x10000
    ensures var b := [0xE0 + x / 4096, 0x80 + (x / 64) % 64, 0x80 + x % 64] + rest;
      0xE0 <= b[0] < 0xF0 && IsContinuation(b[1]) && IsContinuation(b[2]) &&
      (b[0] - 0xE0) * 4096 + (b[1] - 0x80) * 64 + (b[2] - 0x80) == x
  {
    var y := x / 64;
    assert x == y * 64 + x % 64;
    assert y == (y / 64) * 64 + y % 64;
    assert y / 64 == x / 4096;
  }

  lemma DecodeFour(x: int, rest: seq<byte>)
    requires 0x10000 <= x < 0x110000
    ensures var b := [0xF0 + x / 262144, 0x80 + (x / 4096) % 64, 0x80 + (x / 64) % 64, 0x80 + x % 64] + rest;
      0xF0 <= b[0] < 0xF5 && IsContinuation(b[1]) && IsContinuation(b[2]) && IsContinuation(b[3]) &&
      (b[0] - 0xF0) * 262144 + (b[1] - 0x80) * 4096 + (b[2] - 0x80) * 64 + (b[3] - 0x80) == x
  {
    var y := x / 64;
    var z := y / 64;
    assert x == y * 64 + x % 64;
    assert y == z * 64 + y % 64;
    assert z == (z / 64) * 64 + z % 64;
    assert z == x / 4096;
    assert z / 64 == x / 262144;
  }

  lemma DecodeEncodeChar(c: char, rest: seq<byte>)
    ensures DecodeChar(EncodeChar(c) + rest) == Some((c, |EncodeChar(c)|))
  {
    var x := c as int;
    if x < 0x80 {
    } else if x < 0x800 {
      DecodeTwo(x, rest);
    } else if x < 0x10000 {
      DecodeThree(x, rest);
    } else {
      DecodeFour(x, rest);
    }
  }

  /** Decoding what `encode()` produced gives back the string. */
  lemma {:induction false} DecodeEncode(s: string)
    ensures Decode(Encode(s)) == Some(s)
  {
    if s != [] {
      var e := Encode(s);
      var k := |EncodeChar(s[0])|;
      DecodeEncodeChar(s[0], Encode(s[1..]));
      assert e[k..] == Encode(s[1..]);
      DecodeEncode(s[1..]);
      assert e != [];
      assert DecodeChar(e) == Some((s[0], k));
      assert Decode(e) == Some([s[0]] + s[1..]);
      assert [s[0]] + s[1..] == s;
    }
  }

  predicate IsAscii(s: string) { forall i :: 0 <= i < |s| ==> s[i] as int < 0x80 }

  /** ASCII text encodes to one byte per character. */
  lemma {:induction false} AsciiEncodeLength(s: string)
    ensures IsAscii(s) <==> |Encode(s)| == |s|
  {
    if s != [] {
      AsciiEncodeLength(s[1..]);
      if IsAscii(s) {
        assert IsAscii(s[1..]);
      } else if s[0] as int < 0x80 {
        assert !IsAscii(s[1..]) by {
          var i :| 0 <= i < |s| && s[i] as int >= 0x80;
          assert s[1..][i - 1] == s[i];
        }
      }
    }
  }
}

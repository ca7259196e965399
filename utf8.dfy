/**
 * UTF-8, as `UTF8Encoding.GetBytes` and `GetString` apply it to the text a
 * dynamic script renders and to the bytes stored in its cache entry.
 */
module Utf8 {

  newtype byte = x: int | 0 <= x < 256

  /** The one to four bytes that encode a Unicode scalar value. */
  function EncodeChar(c: char): (r: seq<byte>)
    ensures 1 <= |r| <= 4
  {
    var cp := c as int;
    if cp < 0x80 then [cp as byte]
    else if cp < 0x800 then [(0xC0 + cp / 64) as byte, (0x80 + cp % 64) as byte]
    else if cp < 0x10000 then
      [(0xE0 + cp / 4096) as byte, (0x80 + (cp / 64) % 64) as byte, (0x80 + cp % 64) as byte]
    else
      [(0xF0 + cp / 262144) as byte, (0x80 + (cp / 4096) % 64) as byte,
       (0x80 + (cp / 64) % 64) as byte, (0x80 + cp % 64) as byte]
  }

  /** `GetBytes`. */
  function Encode(s: string): seq<byte> {
    if s == [] then [] else EncodeChar(s[0]) + Encode(s[1..])
  }

  predicate IsContinuation(b: byte) {
    0x80 <= b < 0xC0
  }

  const ReplacementChar: char := '\U{FFFD}'

  /**
   * Decodes the scalar value at the front of `b` and says how many bytes it
   * took; a malformed sequence yields U+FFFD and consumes one byte.
   */
  function DecodeOne(b: seq<byte>): (r: (char, nat))
    requires |b| > 0
    ensures 1 <= r.1 <= |b|
  {
    var b0 := b[0] as int;
    if b0 < 0x80 then (b0 as char, 1)
    else if 0xC2 <= b0 < 0xE0 && |b| >= 2 && IsContinuation(b[1]) then
      (((b0 - 0xC0) * 64 + (b[1] as int - 0x80)) as char, 2)
    else if 0xE0 <= b0 < 0xF0 && |b| >= 3 && IsContinuation(b[1]) && IsContinuation(b[2]) then
      var cp := (b0 - 0xE0) * 4096 + (b[1] as int - 0x80) * 64 + (b[2] as int - 0x80);
      if 0x800 <= cp && !(0xD800 <= cp < 0xE000) then (cp as char, 3) else (ReplacementChar, 1)
    else if 0xF0 <= b0 < 0xF5 && |b| >= 4 && IsContinuation(b[1]) && IsContinuation(b[2]) && IsContinuation(b[3]) then
      var cp := (b0 - 0xF0) * 262144 + (b[1] as int - 0x80) * 4096 + (b[2] as int - 0x80) * 64 + (b[3] as int - 0x80);
      if 0x10000 <= cp < 0x110000 then (cp as char, 4) else (ReplacementChar, 1)
    else (ReplacementChar, 1)
  }

  /** `GetString`. */
  function Decode(b: seq<byte>): string
    decreases |b|
  {
    if b == [] then []
    else
      var (c, n) := DecodeOne(b);
      [c] + Decode(b[n..])
  }

  lemma SplitThree(cp: int)
    requires 0 <= cp
    ensures (cp / 4096) * 4096 + ((cp / 64) % 64) * 64 + cp % 64 == cp
  {
    assert cp / 64 == (cp / 4096) * 64 + (cp / 64) % 64;
  }

  lemma SplitFour(cp: int)
    requires 0 <= cp
    ensures (cp / 262144) * 262144 + ((cp / 4096) % 64) * 4096 + ((cp / 64) % 64) * 64 + cp % 64 == cp
  {
    assert cp / 4096 == (cp / 262144) * 64 + (cp / 4096) % 64;
    SplitThree(cp);
  }

  /** The bytes of one character decode back to that character, whatever follows them. */
  lemma DecodeOneEncodeChar(c: char, rest: seq<byte>)
    ensures DecodeOne(EncodeChar(c) + rest) == (c, |EncodeChar(c)|)
  {
    var cp := c as int;
    var b := EncodeChar(c) + rest;
    if cp < 0x80 {
    } else if cp < 0x800 {
      assert b[0] as int == 0xC0 + cp / 64 && b[1] as int == 0x80 + cp % 64;
    } else if cp < 0x10000 {
      assert b[0] as int == 0xE0 + cp / 4096;
      assert b[1] as int == 0x80 + (cp / 64) % 64 && b[2] as int == 0x80 + cp % 64;
      SplitThree(cp);
    } else {
      assert b[0] as int == 0xF0 + cp / 262144;
      assert b[1] as int == 0x80 + (cp / 4096) % 64;
      assert b[2] as int == 0x80 + (cp / 64) % 64 && b[3] as int == 0x80 + cp % 64;
      SplitFour(cp);
    }
  }

  /** Decoding the encoding of a text gives back the text. */
  lemma {:induction false} DecodeEncode(s: string)
    ensures Decode(Encode(s)) == s
  {
    if s != [] {
      var head := EncodeChar(s[0]);
      var tail := Encode(s[1..]);
      DecodeOneEncodeChar(s[0], tail);
      assert (head + tail)[|head|..] == tail;
      DecodeEncode(s[1..]);
    }
  }
}

/** UTF-8 as the bytes a Rust `str` holds. */
module Utf8 {
  import opened Wrappers

  type byte = n: nat | n < 0x100

  const NEWLINE: byte := 0x0A

  predicate IsContinuation(b: byte) { 0x80 <= b < 0xC0 }

  function EncodeChar(c: char): (bytes: seq<byte>)
    ensures |bytes| > 0 && !IsContinuation(bytes[0])
    ensures c as int < 0x80 ==> bytes == [c as int]
    ensures c as int >= 0x80 ==> |bytes| > 1 && forall b | b in bytes :: 0x80 <= b
  {
    var n := c as int;
    if n < 0x80 then [n]
    else if n < 0x800 then [0xC0 + n / 0x40, 0x80 + n % 0x40]
    else if n < 0x1_0000 then [0xE0 + n / 0x1000, 0x80 + n / 0x40 % 0x40, 0x80 + n % 0x40]
    else [0xF0 + n / 0x4_0000, 0x80 + n / 0x1000 % 0x40, 0x80 + n / 0x40 % 0x40, 0x80 + n % 0x40]
  }

  function Encode(s: string): (bytes: seq<byte>)
    ensures |s| <= |bytes|
  {
    if s == "" then [] else EncodeChar(s[0]) + Encode(s[1..])
  }

  lemma {:induction false} EncodeConcat(s: string, t: string)
    ensures Encode(s + t) == Encode(s) + Encode(t)
  {
    if s == "" {
      assert s + t == t;
    } else {
      assert (s + t)[1..] == s[1..] + t;
      EncodeConcat(s[1..], t);
    }
  }

  lemma EncodeLast(s: string, init: string, c: char)
    requires s == init + [c]
    ensures Encode(s) == Encode(init) + EncodeChar(c)
  {
    EncodeConcat(init, [c]);
    assert [c][1..] == "";
  }

  predicate IsAscii(s: string) { forall i | 0 <= i < |s| :: (s[i] as int) < 0x80 }

  lemma {:induction false} AsciiBytes(s: string)
    requires IsAscii(s)
    ensures |Encode(s)| == |s| && forall k | 0 <= k < |s| :: Encode(s)[k] == s[k] as int
  {
    if s != "" {
      AsciiBytes(s[1..]);
    }
  }

  /** What a byte adds above its mark. */
  function Above(b: byte, mark: nat): nat
    requires mark <= b
  {
    b - mark
  }

  /** The number the bytes of one character stand for (section 3 of RFC 3629). */
  function CodePoint(bytes: seq<byte>): Option<nat> {
    if |bytes| == 1 && bytes[0] < 0x80 then Some(bytes[0])
    else if |bytes| == 2 && 0xC0 <= bytes[0] < 0xE0 && IsContinuation(bytes[1]) then
      Some(Above(bytes[0], 0xC0) * 0x40 + Above(bytes[1], 0x80))
    else if |bytes| == 3 && 0xE0 <= bytes[0] < 0xF0 && IsContinuation(bytes[1]) && IsContinuation(bytes[2]) then
      Some(Above(bytes[0], 0xE0) * 0x1000 + Above(bytes[1], 0x80) * 0x40 + Above(bytes[2], 0x80))
    else if |bytes| == 4 && 0xF0 <= bytes[0] < 0xF8 && IsContinuation(bytes[1]) && IsContinuation(bytes[2])
         && IsContinuation(bytes[3]) then
      Some(Above(bytes[0], 0xF0) * 0x4_0000 + Above(bytes[1], 0x80) * 0x1000 + Above(bytes[2], 0x80) * 0x40
           + Above(bytes[3], 0x80))
    else None
  }

  lemma Sextets(n: nat)
    ensures n == n / 0x40 * 0x40 + n % 0x40
    ensures n == n / 0x1000 * 0x1000 + n / 0x40 % 0x40 * 0x40 + n % 0x40
    ensures n == n / 0x4_0000 * 0x4_0000 + n / 0x1000 % 0x40 * 0x1000 + n / 0x40 % 0x40 * 0x40 + n % 0x40
  {
    assert n / 0x40 / 0x40 == n / 0x1000 && n / 0x1000 / 0x40 == n / 0x4_0000;
  }

  /** The bytes of a character stand for that character. */
  lemma EncodedCodePoint(c: char)
    ensures CodePoint(EncodeChar(c)) == Some(c as int)
  {
    Sextets(c as int);
  }
}

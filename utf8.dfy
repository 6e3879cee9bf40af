/**
 * `Buffer.from(data)` for a string `data`: the UTF-8 encoding of the code
 * points the UTF-16 code units spell. A surrogate pair becomes one
 * four-byte sequence; a lone surrogate becomes U+FFFD, as Node does.
 */
module Utf8 {
  import opened JsText

  predicate IsHighSurrogate(u: CodeUnit) { 0xD800 <= u < 0xDC00 }
  predicate IsLowSurrogate(u: CodeUnit) { 0xDC00 <= u < 0xE000 }

  predicate IsAscii(s: JsString) {
    forall i :: 0 <= i < |s| ==> s[i] < 0x80
  }

  /** UTF-8 of one code point below U+10000 (never a surrogate here). */
  function EncodeBmp(u: CodeUnit): (r: seq<Byte>)
    ensures 1 <= |r| <= 3
    ensures (|r| == 1) == (u < 0x80)
  {
    if u < 0x80 then [u]
    else if u < 0x800 then [0xC0 + u / 0x40, 0x80 + u % 0x40]
    else [0xE0 + u / 0x1000, 0x80 + (u / 0x40) % 0x40, 0x80 + u % 0x40]
  }

  /** UTF-8 of a supplementary code point, `0x10000 <= cp < 0x110000`. */
  function EncodeSupplementary(cp: int): (r: seq<Byte>)
    requires 0x10000 <= cp < 0x110000
    ensures |r| == 4 && 0xF0 <= r[0] && forall k :: 1 <= k < 4 ==> 0x80 <= r[k] < 0xC0
  {
    [0xF0 + cp / 0x40000, 0x80 + (cp / 0x1000) % 0x40, 0x80 + (cp / 0x40) % 0x40, 0x80 + cp % 0x40]
  }

  /** The bytes `Buffer.from(s)` holds. */
  function Encode(s: JsString): (r: seq<Byte>)
    ensures |s| <= |r| <= 3 * |s|
    decreases |s|
  {
    if s == [] then []
    else if IsHighSurrogate(s[0]) && |s| >= 2 && IsLowSurrogate(s[1]) then
      var cp: int := 0x10000 + (s[0] as int - 0xD800) * 0x400 + (s[1] - 0xDC00);
      EncodeSupplementary(cp) + Encode(s[2..])
    else if IsHighSurrogate(s[0]) || IsLowSurrogate(s[0]) then
      EncodeBmp(0xFFFD) + Encode(s[1..])
    else
      EncodeBmp(s[0]) + Encode(s[1..])
  }

  /** ASCII text is its own UTF-8 encoding, one byte per code unit. */
  lemma {:induction false} AsciiEncodesToItself(s: JsString)
    requires IsAscii(s)
    ensures Encode(s) == s
  {
    if s != [] {
      AsciiEncodesToItself(s[1..]);
    }
  }
}

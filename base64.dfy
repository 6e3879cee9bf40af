/**
 * Base 64 encoding as defined in section 4 of RFC 4648: the 64-character
 * alphabet A-Z a-z 0-9 + /, three bytes to four characters, and '=' padding
 * for a final group of one or two bytes. `Decode` is the inverse the RFC
 * describes, used here to state that the encoding loses nothing.
 */
module Base64 {
  import opened Wrappers
  import opened JsText

  type Sextet = x: int | 0 <= x < 64

  const Pad: char := '='

  /** Decodes one alphabet character (Table 1 of RFC 4648); anything else is `None`. */
  function SextetOf(ch: char): Option<Sextet> {
    if 'A' <= ch <= 'Z' then Some(ch as int - 'A' as int)
    else if 'a' <= ch <= 'z' then Some(ch as int - 'a' as int + 26)
    else if '0' <= ch <= '9' then Some(ch as int - '0' as int + 52)
    else if ch == '+' then Some(62)
    else if ch == '/' then Some(63)
    else None
  }

  predicate InAlphabet(ch: char) {
    SextetOf(ch).Some?
  }

  /** Encodes one sextet (Table 1 of RFC 4648); `SextetOf` undoes it. */
  function CharOf(v: Sextet): (ch: char)
    ensures SextetOf(ch) == Some(v)
    ensures ch != Pad
  {
    if v < 26 then ('A' as int + v) as char
    else if v < 52 then ('a' as int + v - 26) as char
    else if v < 62 then ('0' as int + v - 52) as char
    else if v == 62 then '+'
    else '/'
  }

  /** Three bytes, the last one or two possibly absent (then padded). */
  function EncodeGroup(b0: Byte, b1: Byte, b2: Byte, n: nat): (r: string)
    requires 1 <= n <= 3
  {
    var c0 := CharOf(b0 / 4);
    var c1 := CharOf((b0 % 4) * 16 + b1 / 16);
    var c2 := CharOf((b1 % 16) * 4 + b2 / 64);
    var c3 := CharOf(b2 % 64);
    if n == 1 then [c0, c1, Pad, Pad]
    else if n == 2 then [c0, c1, c2, Pad]
    else [c0, c1, c2, c3]
  }

  /** The Base 64 text of `bytes`. */
  function Encode(bytes: seq<Byte>): (r: string)
    ensures |r| == 4 * ((|bytes| + 2) / 3)
    decreases |bytes|
  {
    if |bytes| == 0 then []
    else if |bytes| == 1 then EncodeGroup(bytes[0], 0, 0, 1)
    else if |bytes| == 2 then EncodeGroup(bytes[0], bytes[1], 0, 2)
    else EncodeGroup(bytes[0], bytes[1], bytes[2], 3) + Encode(bytes[3..])
  }

  function FirstByte(s0: Sextet, s1: Sextet): Byte { s0 as int * 4 + s1 as int / 16 }
  function SecondByte(s1: Sextet, s2: Sextet): Byte { (s1 as int % 16) * 16 + s2 as int / 4 }
  function ThirdByte(s2: Sextet, s3: Sextet): Byte { (s2 as int % 4) * 64 + s3 as int }

  /** Number of '=' characters that end the encoding of `n` bytes. */
  function PadCount(n: nat): nat {
    (3 - n % 3) % 3
  }

  /**
   * The encoding is made of alphabet characters followed by exactly
   * `PadCount(|bytes|)` padding characters; in particular a multiple of
   * three bytes encodes without padding.
   */
  lemma {:induction false} EncodeShape(bytes: seq<Byte>)
    ensures var r := Encode(bytes);
      PadCount(|bytes|) <= |r| &&
      forall k :: 0 <= k < |r| ==>
        if k < |r| - PadCount(|bytes|) then InAlphabet(r[k]) else r[k] == Pad
    decreases |bytes|
  {
    if |bytes| >= 3 {
      EncodeShape(bytes[3..]);
      var head := EncodeGroup(bytes[0], bytes[1], bytes[2], 3);
      var rest := Encode(bytes[3..]);
      assert Encode(bytes) == head + rest;
      assert PadCount(|bytes|) == PadCount(|bytes[3..]|);
    }
  }

  /** Whole groups of three bytes encode to four alphabet characters each, without padding. */
  lemma WholeGroupsUnpadded(bytes: seq<Byte>)
    requires |bytes| % 3 == 0
    ensures |Encode(bytes)| == |bytes| / 3 * 4
    ensures forall k :: 0 <= k < |Encode(bytes)| ==> InAlphabet(Encode(bytes)[k])
  {
    assert PadCount(|bytes|) == 0;
    EncodeShape(bytes);
  }

  /** The test vectors of section 10 of RFC 4648 ("f", "fo", "foo", "foob", "fooba", "foobar"). */
  lemma RfcTestVectors()
    ensures Encode([]) == ""
    ensures Encode([102]) == "Zg=="
    ensures Encode([102, 111]) == "Zm8="
    ensures Encode([102, 111, 111]) == "Zm9v"
    ensures Encode([102, 111, 111, 98]) == "Zm9vYg=="
    ensures Encode([102, 111, 111, 98, 97]) == "Zm9vYmE="
    ensures Encode([102, 111, 111, 98, 97, 114]) == "Zm9vYmFy"
  {
  }

  /** Decodes one four-character group; padding is accepted only in the final group. */
  function DecodeGroup(g: string, last: bool): Option<seq<Byte>>
    requires |g| == 4
  {
    match (SextetOf(g[0]), SextetOf(g[1]), SextetOf(g[2]), SextetOf(g[3]))
    case (Some(s0), Some(s1), Some(s2), Some(s3)) =>
      Some([FirstByte(s0, s1), SecondByte(s1, s2), ThirdByte(s2, s3)])
    case (Some(s0), Some(s1), Some(s2), None) =>
      if last && g[3] == Pad then Some([FirstByte(s0, s1), SecondByte(s1, s2)]) else None
    case (Some(s0), Some(s1), None, None) =>
      if last && g[2] == Pad && g[3] == Pad then Some([FirstByte(s0, s1)]) else None
    case _ => None
  }

  /** The bytes a Base 64 text stands for, or `None` when it is not Base 64. */
  function Decode(s: string): Option<seq<Byte>>
    decreases |s|
  {
    if |s| == 0 then Some([])
    else if |s| < 4 then None
    else
      match (DecodeGroup(s[..4], |s| == 4), Decode(s[4..]))
      case (Some(g), Some(rest)) => Some(g + rest)
      case _ => None
  }

  lemma GroupRoundTrip(b0: Byte, b1: Byte, b2: Byte, n: nat, last: bool)
    requires 1 <= n <= 3 && (n < 3 ==> last)
    ensures DecodeGroup(EncodeGroup(b0, b1, b2, n), last)
         == Some(if n == 1 then [b0] else if n == 2 then [b0, b1] else [b0, b1, b2])
  {
    var s0, s1, s2, s3 := b0 / 4, (b0 % 4) * 16 + b1 / 16, (b1 % 16) * 4 + b2 / 64, b2 % 64;
    assert FirstByte(s0, s1) == b0;
    assert SecondByte(s1, s2) == b1;
    assert ThirdByte(s2, s3) == b2;
  }

  /** Decoding the encoding of any byte sequence gives the bytes back. */
  lemma {:induction false} RoundTrip(bytes: seq<Byte>)
    ensures Decode(Encode(bytes)) == Some(bytes)
    decreases |bytes|
  {
    if 1 <= |bytes| <= 2 {
      FinalGroupRoundTrip(bytes);
    } else if |bytes| >= 3 {
      var head := EncodeGroup(bytes[0], bytes[1], bytes[2], 3);
      var rest := Encode(bytes[3..]);
      RoundTrip(bytes[3..]);
      FullGroupRoundTrip(bytes, head, rest);
      assert Encode(bytes) == head + rest;
    }
  }

  /** A full group of three bytes in front of text that decodes to the remaining bytes. */
  lemma FullGroupRoundTrip(bytes: seq<Byte>, head: string, rest: string)
    requires |bytes| >= 3 && head == EncodeGroup(bytes[0], bytes[1], bytes[2], 3)
    requires Decode(rest) == Some(bytes[3..])
    ensures Decode(head + rest) == Some(bytes)
  {
    GroupRoundTrip(bytes[0], bytes[1], bytes[2], 3, rest == []);
    DecodeConcat(head, rest, [bytes[0], bytes[1], bytes[2]], bytes[3..]);
    assert bytes == [bytes[0], bytes[1], bytes[2]] + bytes[3..];
  }

  /** A final group of one or two bytes, which carries padding. */
  lemma FinalGroupRoundTrip(bytes: seq<Byte>)
    requires 1 <= |bytes| <= 2
    ensures Decode(Encode(bytes)) == Some(bytes)
  {
    var r := Encode(bytes);
    LastGroup(r);
    if |bytes| == 1 {
      assert r == EncodeGroup(bytes[0], 0, 0, 1);
      GroupRoundTrip(bytes[0], 0, 0, 1, true);
      assert bytes == [bytes[0]];
    } else {
      assert r == EncodeGroup(bytes[0], bytes[1], 0, 2);
      GroupRoundTrip(bytes[0], bytes[1], 0, 2, true);
      assert bytes == [bytes[0], bytes[1]];
    }
  }

  lemma LastGroup(s: string)
    requires |s| == 4
    ensures Decode(s) == DecodeGroup(s, true)
  {
    assert s[..4] == s;
    assert Decode(s[4..]) == Some([]);
    if DecodeGroup(s, true).Some? {
      var g := DecodeGroup(s, true).value;
      assert g + [] == g;
    }
  }

  /** Decoding a leading group in front of further text. */
  lemma DecodeConcat(g: string, rest: string, a: seq<Byte>, b: seq<Byte>)
    requires |g| == 4
    requires DecodeGroup(g, rest == []) == Some(a) && Decode(rest) == Some(b)
    ensures Decode(g + rest) == Some(a + b)
  {
    var s := g + rest;
    assert s[..4] == g && s[4..] == rest;
  }
}

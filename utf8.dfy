/**
 * UTF-8, as Python's "utf-8" codec applies it: `str.encode("utf-8")` writes each
 * Unicode scalar value in its shortest form, and `bytes.decode("utf-8")` accepts
 * exactly the well-formed byte sequences (no overlong forms, no surrogates, nothing
 * above U+10FFFF, no truncated sequence) and raises on anything else.
 */
module Utf8 {
  import opened Wrappers

  type Byte = b: int | 0 <= b < 0x100

  predicate IsContinuation(b: Byte) {
    0x80 <= b < 0xC0
  }

  /** The shortest-form encoding of one scalar value. */
  function EncodeChar(c: char): (bs: seq<Byte>)
    ensures 1 <= |bs| <= 4
    ensures (c as int < 0x80) <==> |bs| == 1
    ensures forall i :: 1 <= i < |bs| ==> IsContinuation(bs[i])
  {
    var cp := c as int;
    if cp < 0x80 then
      [cp]
    else if cp < 0x800 then
      [0xC0 + cp / 0x40, 0x80 + cp % 0x40]
    else if cp < 0x10000 then
      [0xE0 + cp / 0x1000, 0x80 + cp / 0x40 % 0x40, 0x80 + cp % 0x40]
    else
      [0xF0 + cp / 0x40000, 0x80 + cp / 0x1000 % 0x40, 0x80 + cp / 0x40 % 0x40, 0x80 + cp % 0x40]
  }

  /** `s.encode("utf-8")` */
  function Encode(s: string): (bs: seq<Byte>)
    ensures |s| <= |bs| <= 4 * |s|
  {
    if s == [] then [] else EncodeChar(s[0]) + Encode(s[1..])
  }

  /**
   * Reads the scalar value at the front of `bs`: the character and how many
   * bytes it took, or None if the front of `bs` is not well-formed UTF-8.
   */
  function DecodeFirst(bs: seq<Byte>): (r: Option<(char, nat)>)
    requires |bs| > 0
    ensures r.Some? ==> 1 <= r.value.1 <= |bs| && r.value.1 <= 4
  {
    var b0: int := bs[0];
    if b0 < 0x80 then
      Some((b0 as char, 1))
    else if 0xC2 <= b0 < 0xE0 then
      if |bs| < 2 || !IsContinuation(bs[1]) then None
      else Some((((b0 - 0xC0) * 0x40 + (bs[1] as int - 0x80)) as char, 2))
    else if 0xE0 <= b0 < 0xF0 then
      if |bs| < 3 || !IsContinuation(bs[1]) || !IsContinuation(bs[2]) then None
      else
        var cp := (b0 - 0xE0) * 0x1000 + (bs[1] as int - 0x80) * 0x40 + (bs[2] as int - 0x80);
        if cp < 0x800 || (0xD800 <= cp < 0xE000) then None else Some((cp as char, 3))
    else if 0xF0 <= b0 < 0xF5 then
      if |bs| < 4 || !IsContinuation(bs[1]) || !IsContinuation(bs[2]) || !IsContinuation(bs[3]) then None
      else
        var cp := (b0 - 0xF0) * 0x40000 + (bs[1] as int - 0x80) * 0x1000 + (bs[2] as int - 0x80) * 0x40 + (bs[3] as int - 0x80);
        if cp < 0x10000 || cp >= 0x110000 then None else Some((cp as char, 4))
    else
      None
  }

  /** `bs.decode("utf-8")`: None where Python raises UnicodeDecodeError. */
  function Decode(bs: seq<Byte>): (r: Option<string>)
    ensures r.Some? ==> |r.value| <= |bs| <= 4 * |r.value|
    decreases |bs|
  {
    if bs == [] then Some([])
    else
      match DecodeFirst(bs)
      case None => None
      case Some((c, n)) =>
        match Decode(bs[n..])
        case None => None
        case Some(rest) => Some([c] + rest)
  }

  lemma TwoByteRoundTrip(cp: int)
    requires 0x80 <= cp < 0x800
    ensures (cp / 0x40) * 0x40 + cp % 0x40 == cp
    ensures 2 <= cp / 0x40 < 0x20
  {
  }

  lemma ThreeByteRoundTrip(cp: int)
    requires 0x800 <= cp < 0x10000
    ensures (cp / 0x1000) * 0x1000 + (cp / 0x40 % 0x40) * 0x40 + cp % 0x40 == cp
    ensures cp / 0x1000 < 0x10
  {
    var q := cp / 0x40;
    assert q == (cp / 0x1000) * 0x40 + q % 0x40;
  }

  lemma FourByteRoundTrip(cp: int)
    requires 0x10000 <= cp < 0x110000
    ensures (cp / 0x40000) * 0x40000 + (cp / 0x1000 % 0x40) * 0x1000 + (cp / 0x40 % 0x40) * 0x40 + cp % 0x40 == cp
    ensures cp / 0x40000 < 5
  {
    var q := cp / 0x40;
    var p := cp / 0x1000;
    assert p == q / 0x40;
    assert q == p * 0x40 + q % 0x40;
    assert p == (cp / 0x40000) * 0x40 + p % 0x40;
  }

  /** Decoding the front of an encoded character gives that character back. */
  lemma DecodeFirstEncodeChar(c: char, rest: seq<Byte>)
    ensures DecodeFirst(EncodeChar(c) + rest) == Some((c, |EncodeChar(c)|))
  {
    var cp := c as int;
    var bs := EncodeChar(c) + rest;
    if cp < 0x80 {
    } else if cp < 0x800 {
      TwoByteRoundTrip(cp);
    } else if cp < 0x10000 {
      ThreeByteRoundTrip(cp);
    } else {
      FourByteRoundTrip(cp);
    }
  }

  /** Splitting a value assembled from 6-bit groups gives the groups back. */
  lemma SixBitGroups(x: int, y: int, z: int)
    requires 0 <= y < 0x40 && 0 <= z < 0x40
    ensures (x * 0x40 + z) / 0x40 == x && (x * 0x40 + z) % 0x40 == z
    ensures (x * 0x1000 + y * 0x40 + z) / 0x40 == x * 0x40 + y
  {
  }

  /** A two-byte sequence DecodeFirst accepts is the encoding of its character. */
  lemma DecodedTwo(bs: seq<Byte>)
    requires |bs| > 0 && DecodeFirst(bs).Some? && DecodeFirst(bs).value.1 == 2
    ensures EncodeChar(DecodeFirst(bs).value.0) == bs[..2]
  {
    var cp := DecodeFirst(bs).value.0 as int;
    var x: int, z: int := bs[0] - 0xC0, bs[1] - 0x80;
    assert cp == x * 0x40 + z;
    SixBitGroups(x, 0, z);
  }

  /** A three-byte sequence DecodeFirst accepts is the encoding of its character. */
  lemma DecodedThree(bs: seq<Byte>)
    requires |bs| > 0 && DecodeFirst(bs).Some? && DecodeFirst(bs).value.1 == 3
    ensures EncodeChar(DecodeFirst(bs).value.0) == bs[..3]
  {
    var cp := DecodeFirst(bs).value.0 as int;
    var x: int, y: int, z: int := bs[0] - 0xE0, bs[1] - 0x80, bs[2] - 0x80;
    assert cp == x * 0x1000 + y * 0x40 + z;
    SixBitGroups(x, y, z);
    SixBitGroups(x, 0, y);
    assert cp / 0x1000 == cp / 0x40 / 0x40;
  }

  /** A four-byte sequence DecodeFirst accepts is the encoding of its character. */
  lemma DecodedFour(bs: seq<Byte>)
    requires |bs| > 0 && DecodeFirst(bs).Some? && DecodeFirst(bs).value.1 == 4
    ensures EncodeChar(DecodeFirst(bs).value.0) == bs[..4]
  {
    var cp := DecodeFirst(bs).value.0 as int;
    var w: int, x: int, y: int, z: int := bs[0] - 0xF0, bs[1] - 0x80, bs[2] - 0x80, bs[3] - 0x80;
    assert cp == (w * 0x40 + x) * 0x1000 + y * 0x40 + z;
    SixBitGroups(w * 0x40 + x, y, z);
    SixBitGroups(w * 0x40 + x, 0, y);
    SixBitGroups(w, 0, x);
    assert cp / 0x1000 == cp / 0x40 / 0x40;
    assert cp / 0x40000 == cp / 0x1000 / 0x40;
  }

  /** Whatever DecodeFirst accepts is exactly the shortest form of what it returns. */
  lemma EncodeCharDecodeFirst(bs: seq<Byte>)
    requires |bs| > 0 && DecodeFirst(bs).Some?
    ensures EncodeChar(DecodeFirst(bs).value.0) == bs[..DecodeFirst(bs).value.1]
  {
    var n := DecodeFirst(bs).value.1;
    if n == 2 {
      DecodedTwo(bs);
    } else if n == 3 {
      DecodedThree(bs);
    } else if n == 4 {
      DecodedFour(bs);
    }
  }

  /** Round trip: decoding the UTF-8 encoding of any string gives the string back. */
  lemma {:induction false} DecodeEncode(s: string)
    ensures Decode(Encode(s)) == Some(s)
  {
    if s != [] {
      var head := EncodeChar(s[0]);
      var bs := head + Encode(s[1..]);
      DecodeFirstEncodeChar(s[0], Encode(s[1..]));
      assert bs[|head|..] == Encode(s[1..]);
      DecodeEncode(s[1..]);
      assert [s[0]] + s[1..] == s;
    }
  }

  /** Converse: a byte sequence that decodes is the encoding of what it decodes to. */
  lemma {:induction false} EncodeDecode(bs: seq<Byte>)
    requires Decode(bs).Some?
    ensures Encode(Decode(bs).value) == bs
    decreases |bs|
  {
    if bs != [] {
      var (c, n) := DecodeFirst(bs).value;
      EncodeCharDecodeFirst(bs);
      EncodeDecode(bs[n..]);
      var s := Decode(bs).value;
      assert s[0] == c && s[1..] == Decode(bs[n..]).value;
      assert bs == bs[..n] + bs[n..];
    }
  }
}

/**
 * Base64 with the standard alphabet and `=` padding (section 4 of RFC 4648).
 *
 * The encoder is `base64.b64encode`. The decoder is `base64.b64decode` with its
 * default `validate=False`, which hands the text to CPython's non-strict
 * `binascii.a2b_base64`: a scanner that keeps a position within the current
 * quad, the bits still owed to the next byte, and a count of pad characters.
 * It discards characters outside the alphabet, stops at the pad character that
 * completes a quad, ignores leftover bits, and fails only when the text ends in
 * the middle of a quad.
 */
module Base64 {
  import opened Wrappers
  import opened Utf8

  const Pad: char := '='

  predicate IsBase64Char(c: char) {
    ('A' <= c <= 'Z') || ('a' <= c <= 'z') || ('0' <= c <= '9') || c == '+' || c == '/'
  }

  /** The character for a 6-bit value. */
  function CharOf(v: int): (c: char)
    requires 0 <= v < 64
    ensures IsBase64Char(c)
  {
    if v < 26 then ('A' as int + v) as char
    else if v < 52 then ('a' as int + (v - 26)) as char
    else if v < 62 then ('0' as int + (v - 52)) as char
    else if v == 62 then '+'
    else '/'
  }

  /** The 6-bit value of an alphabet character; CharOf and ValueOf are inverse. */
  function ValueOf(c: char): (v: int)
    requires IsBase64Char(c)
    ensures 0 <= v < 64 && CharOf(v) == c
  {
    if 'A' <= c <= 'Z' then c as int - 'A' as int
    else if 'a' <= c <= 'z' then c as int - 'a' as int + 26
    else if '0' <= c <= '9' then c as int - '0' as int + 52
    else if c == '+' then 62
    else 63
  }

  lemma ValueOfCharOf(v: int)
    requires 0 <= v < 64
    ensures ValueOf(CharOf(v)) == v
  {
  }

  /**
   * Text whose every character is an alphabet character or a pad character in
   * one of the last two positions.
   */
  ghost predicate IsPadded(t: seq<char>) {
    forall i :: 0 <= i < |t| ==> IsBase64Char(t[i]) || (t[i] == Pad && |t| - 2 <= i)
  }

  /** Three bytes (or the one or two left at the end) as one quad of text. */
  function EncodeQuad(bs: seq<Byte>): (q: seq<char>)
    requires 1 <= |bs| <= 3
    ensures |q| == 4
    ensures IsBase64Char(q[0]) && IsBase64Char(q[1])
    ensures IsBase64Char(q[2]) || (q[2] == Pad && |bs| == 1)
    ensures IsBase64Char(q[3]) || (q[3] == Pad && |bs| < 3)
  {
    var b0 := bs[0];
    if |bs| == 1 then
      [CharOf(b0 / 4), CharOf(b0 % 4 * 16), Pad, Pad]
    else if |bs| == 2 then
      [CharOf(b0 / 4), CharOf(b0 % 4 * 16 + bs[1] / 16), CharOf(bs[1] % 16 * 4), Pad]
    else
      [CharOf(b0 / 4), CharOf(b0 % 4 * 16 + bs[1] / 16), CharOf(bs[1] % 16 * 4 + bs[2] / 64), CharOf(bs[2] % 64)]
  }

  /** `base64.b64encode(bs)`: four characters for every three bytes, started or not. */
  function Encode(bs: seq<Byte>): seq<char>
    decreases |bs|
  {
    if |bs| == 0 then []
    else if |bs| <= 3 then EncodeQuad(bs)
    else EncodeQuad(bs[..3]) + Encode(bs[3..])
  }

  /** Four characters for every three bytes, the last group counting even when short. */
  lemma {:induction false} EncodeLength(bs: seq<Byte>)
    ensures |Encode(bs)| == 4 * ((|bs| + 2) / 3)
    decreases |bs|
  {
    if |bs| > 3 {
      EncodeLength(bs[3..]);
      assert (|bs| + 2) / 3 == (|bs| - 3 + 2) / 3 + 1;
    }
  }

  /**
   * Every character of the encoder's output is an alphabet character or a pad
   * character in one of the last two positions, and there is no pad character
   * at all when the input fills whole quads.
   */
  lemma {:induction false} EncodePadded(bs: seq<Byte>)
    ensures IsPadded(Encode(bs))
    ensures |bs| % 3 == 0 ==> forall i :: 0 <= i < |Encode(bs)| ==> IsBase64Char(Encode(bs)[i])
    decreases |bs|
  {
    if 1 <= |bs| <= 3 {
      QuadPadded(bs);
    } else if |bs| > 3 {
      EncodePadded(bs[3..]);
      PaddedAfterFullQuad(EncodeQuad(bs[..3]), Encode(bs[3..]));
    }
  }

  /** A single quad is padded, and free of pad characters when it holds three bytes. */
  lemma QuadPadded(bs: seq<Byte>)
    requires 1 <= |bs| <= 3
    ensures IsPadded(EncodeQuad(bs))
    ensures |bs| == 3 ==> forall i :: 0 <= i < 4 ==> IsBase64Char(EncodeQuad(bs)[i])
  {
  }

  /** How many pad characters `b64encode` writes after `n` bytes: 0, 2 or 1. */
  function PadCount(n: nat): (k: nat)
    ensures k <= 2 && (k == 0 <==> n % 3 == 0)
  {
    (3 - n % 3) % 3
  }

  /** The pad characters of `t` are exactly its last `k` characters. */
  ghost predicate PadsAtEnd(t: seq<char>, k: nat) {
    forall i :: 0 <= i < |t| ==> (t[i] == Pad <==> |t| - k <= i)
  }

  /** In a single quad, the pad characters are exactly the positions past the bytes' data. */
  lemma QuadPads(bs: seq<Byte>)
    requires 1 <= |bs| <= 3
    ensures PadsAtEnd(EncodeQuad(bs), PadCount(|bs|))
  {
  }

  /**
   * The encoder's output is alphabet characters followed by its pad characters
   * as one run at the very end: exactly two after a final single byte, one after
   * a final pair, none otherwise.
   */
  lemma {:induction false} EncodePads(bs: seq<Byte>)
    ensures PadsAtEnd(Encode(bs), PadCount(|bs|))
    decreases |bs|
  {
    if 1 <= |bs| <= 3 {
      QuadPads(bs);
    } else if |bs| > 3 {
      var q, e := EncodeQuad(bs[..3]), Encode(bs[3..]);
      QuadPadded(bs[..3]);
      EncodePads(bs[3..]);
      EncodeLength(bs[3..]);
      assert (|bs| - 3 + 2) / 3 >= 1;
      assert PadCount(|bs|) == PadCount(|bs| - 3);
      forall i | 0 <= i < |q + e|
        ensures (q + e)[i] == Pad <==> |q + e| - PadCount(|bs|) <= i
      {
        if i >= 4 {
          assert (q + e)[i] == e[i - 4];
        }
      }
    }
  }

  lemma PaddedAfterFullQuad(q: seq<char>, rest: seq<char>)
    requires |q| == 4 && forall i :: 0 <= i < 4 ==> IsBase64Char(q[i])
    requires IsPadded(rest)
    ensures IsPadded(q + rest)
    ensures (forall i :: 0 <= i < |rest| ==> IsBase64Char(rest[i])) ==>
              forall i :: 0 <= i < |q + rest| ==> IsBase64Char((q + rest)[i])
  {
    var t := q + rest;
    forall i | 0 <= i < |t|
      ensures IsBase64Char(t[i]) || (t[i] == Pad && |t| - 2 <= i)
    {
      if i >= 4 {
        assert t[i] == rest[i - 4];
      }
    }
  }

  /** Bound on the bits the scanner still owes at each position of a quad. */
  predicate IsScanState(pos: nat, left: int) {
    pos < 4 && 0 <= left && left < (if pos == 0 then 1 else if pos == 1 then 64 else if pos == 2 then 16 else 4)
  }

  function Cons(b: Byte, r: Option<seq<Byte>>): Option<seq<Byte>> {
    if r.Some? then Some([b] + r.value) else None
  }

  /**
   * The non-strict scanner, from position `pos` in a quad with `left` bits owed
   * and `pads` pad characters seen since the last data character.
   */
  function DecodeFrom(t: seq<char>, pos: nat, left: int, pads: nat): Option<seq<Byte>>
    requires IsScanState(pos, left)
    decreases |t|
  {
    if t == [] then
      if pos == 0 then Some([]) else None
    else if t[0] == Pad then
      if pos >= 2 && pos + pads + 1 >= 4 then Some([])
      else DecodeFrom(t[1..], pos, left, if pos >= 2 then pads + 1 else pads)
    else if !IsBase64Char(t[0]) then
      DecodeFrom(t[1..], pos, left, pads)
    else
      var v := ValueOf(t[0]);
      if pos == 0 then DecodeFrom(t[1..], 1, v, 0)
      else if pos == 1 then Cons(left * 4 + v / 16, DecodeFrom(t[1..], 2, v % 16, 0))
      else if pos == 2 then Cons(left * 16 + v / 4, DecodeFrom(t[1..], 3, v % 4, 0))
      else Cons(left * 64 + v, DecodeFrom(t[1..], 0, 0, 0))
  }

  /** `base64.b64decode(t)`: None where Python raises binascii.Error. */
  function Decode(t: seq<char>): Option<seq<Byte>> {
    DecodeFrom(t, 0, 0, 0)
  }

  /** One full quad decodes to its three bytes and leaves the scanner where it began. */
  lemma DecodeFullQuad(bs: seq<Byte>, rest: seq<char>)
    requires |bs| == 3
    ensures Decode(EncodeQuad(bs) + rest) == Cons(bs[0], Cons(bs[1], Cons(bs[2], Decode(rest))))
  {
    var t := EncodeQuad(bs) + rest;
    var b0: int, b1: int, b2: int := bs[0], bs[1], bs[2];
    var v0, v1, v2, v3 := b0 / 4, b0 % 4 * 16 + b1 / 16, b1 % 16 * 4 + b2 / 64, b2 % 64;
    ValueOfCharOf(v0);
    ValueOfCharOf(v1);
    ValueOfCharOf(v2);
    ValueOfCharOf(v3);
    assert t[0] == CharOf(v0) && t[1..][0] == CharOf(v1);
    assert t[1..][1..][0] == CharOf(v2) && t[1..][1..][1..][0] == CharOf(v3);
    assert t[1..][1..][1..][1..] == rest;
    assert v0 * 4 + v1 / 16 == b0;
    assert v1 % 16 * 16 + v2 / 4 == b1;
    assert v2 % 4 * 64 + v3 == b2;
    calc {
      Decode(t);
      DecodeFrom(t[1..], 1, v0, 0);
      Cons(b0, DecodeFrom(t[1..][1..], 2, v1 % 16, 0));
      Cons(b0, Cons(b1, DecodeFrom(t[1..][1..][1..], 3, v2 % 4, 0)));
      Cons(b0, Cons(b1, Cons(b2, DecodeFrom(rest, 0, 0, 0))));
    }
  }

  /** The last, padded quad decodes to its one or two bytes and ends the scan. */
  lemma DecodePaddedQuad(bs: seq<Byte>, rest: seq<char>)
    requires 1 <= |bs| <= 2
    ensures Decode(EncodeQuad(bs) + rest) == Some(bs)
  {
    var t := EncodeQuad(bs) + rest;
    var b0: int := bs[0];
    var v0 := b0 / 4;
    ValueOfCharOf(v0);
    assert t[0] == CharOf(v0);
    if |bs| == 1 {
      var v1 := b0 % 4 * 16;
      ValueOfCharOf(v1);
      assert t[1..][0] == CharOf(v1) && t[1..][1..][0] == Pad && t[1..][1..][1..][0] == Pad;
      calc {
        Decode(t);
        DecodeFrom(t[1..], 1, v0, 0);
        Cons(b0, DecodeFrom(t[1..][1..], 2, v1 % 16, 0));
        Cons(b0, DecodeFrom(t[1..][1..][1..], 2, v1 % 16, 1));
        Cons(b0, Some([]));
      }
      assert [b0] + [] == bs;
    } else {
      var b1: int := bs[1];
      var v1, v2 := b0 % 4 * 16 + b1 / 16, b1 % 16 * 4;
      ValueOfCharOf(v1);
      ValueOfCharOf(v2);
      assert t[1..][0] == CharOf(v1) && t[1..][1..][0] == CharOf(v2) && t[1..][1..][1..][0] == Pad;
      assert v0 * 4 + v1 / 16 == b0;
      assert v1 % 16 * 16 + v2 / 4 == b1;
      calc {
        Decode(t);
        DecodeFrom(t[1..], 1, v0, 0);
        Cons(b0, DecodeFrom(t[1..][1..], 2, v1 % 16, 0));
        Cons(b0, Cons(b1, DecodeFrom(t[1..][1..][1..], 3, v2 % 4, 0)));
        Cons(b0, Cons(b1, Some([])));
      }
      assert [b0] + ([b1] + []) == bs;
    }
  }

  /** Round trip: decoding the Base64 encoding of any byte sequence gives it back. */
  lemma {:induction false} DecodeEncode(bs: seq<Byte>)
    ensures Decode(Encode(bs)) == Some(bs)
    decreases |bs|
  {
    if |bs| == 0 {
    } else if |bs| <= 2 {
      DecodePaddedQuad(bs, []);
      assert EncodeQuad(bs) + [] == Encode(bs);
    } else if |bs| == 3 {
      DecodeFullQuad(bs, []);
      assert EncodeQuad(bs) + [] == Encode(bs);
      assert [bs[0]] + ([bs[1]] + ([bs[2]] + [])) == bs;
    } else {
      DecodeFullQuad(bs[..3], Encode(bs[3..]));
      DecodeEncode(bs[3..]);
      assert [bs[0]] + ([bs[1]] + ([bs[2]] + bs[3..])) == bs;
    }
  }

  /**
   * The error path: text made only of alphabet characters (no padding, nothing
   * to discard) decodes exactly when the scanner ends on a quad boundary.
   */
  lemma {:induction false} UnpaddedDecodeFrom(t: seq<char>, pos: nat, left: int, pads: nat)
    requires IsScanState(pos, left)
    requires forall i :: 0 <= i < |t| ==> IsBase64Char(t[i])
    ensures DecodeFrom(t, pos, left, pads).Some? <==> (pos + |t|) % 4 == 0
    decreases |t|
  {
    if t != [] {
      var v := ValueOf(t[0]);
      if pos == 0 {
        UnpaddedDecodeFrom(t[1..], 1, v, 0);
      } else if pos == 1 {
        UnpaddedDecodeFrom(t[1..], 2, v % 16, 0);
      } else if pos == 2 {
        UnpaddedDecodeFrom(t[1..], 3, v % 4, 0);
      } else {
        UnpaddedDecodeFrom(t[1..], 0, 0, 0);
      }
    }
  }

  lemma UnpaddedDecode(t: seq<char>)
    requires forall i :: 0 <= i < |t| ==> IsBase64Char(t[i])
    ensures Decode(t).Some? <==> |t| % 4 == 0
  {
    UnpaddedDecodeFrom(t, 0, 0, 0);
  }
}

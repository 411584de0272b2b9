/**
 * The storage codec: conversation text is kept in the database as the Base64
 * form of its UTF-8 bytes.
 */
module Codec {
  import opened Wrappers
  import Utf8
  import Base64

  /** `encode_base64`: UTF-8 bytes of `s`, Base64-encoded, read back as text. */
  function EncodeText(s: string): string {
    Base64.Encode(Utf8.Encode(s))
  }

  /**
   * A stored field is Base64 text: four characters for every three bytes of the
   * UTF-8 form, alphabet characters throughout except for the trailing pads, of
   * which there are as many as the last group of bytes falls short of three.
   */
  lemma EncodeTextShape(s: string)
    ensures |EncodeText(s)| == 4 * ((|Utf8.Encode(s)| + 2) / 3)
    ensures Base64.IsPadded(EncodeText(s))
    ensures Base64.PadsAtEnd(EncodeText(s), Base64.PadCount(|Utf8.Encode(s)|))
  {
    Base64.EncodeLength(Utf8.Encode(s));
    Base64.EncodePadded(Utf8.Encode(s));
    Base64.EncodePads(Utf8.Encode(s));
  }

  /**
   * `decode_base64`: None where Python raises, either because the Base64 text
   * ends inside a quad or because its bytes are not well-formed UTF-8.
   */
  function DecodeText(t: string): Option<string> {
    match Base64.Decode(t)
    case None => None
    case Some(bs) => Utf8.Decode(bs)
  }

  /** Round trip: every text read back after storage is the text that was stored. */
  lemma DecodeEncodeText(s: string)
    ensures DecodeText(EncodeText(s)) == Some(s)
  {
    Base64.DecodeEncode(Utf8.Encode(s));
    Utf8.DecodeEncode(s);
  }

  /** Two different texts are never stored as the same field. */
  lemma EncodeTextInjective(a: string, b: string)
    requires EncodeText(a) == EncodeText(b)
    ensures a == b
  {
    DecodeEncodeText(a);
    DecodeEncodeText(b);
  }
}

/** The text cipher: XXTEA, then base64, then the URL-safe alphabet; and the way back. */
module Edcode {
  import opened Machine
  import XxteaText
  import Base64

  // Lengths are C ints: the base64 text of the longest plaintext still fits one.
  const MAX_TEXT: nat := 0x5fff_ffe0

  /** '+' becomes '-', '/' becomes '_', '=' becomes '.'. */
  function ToUrl(c: byte): byte {
    if c == 43 then 45 else if c == 47 then 95 else if c == 61 then 46 else c
  }

  function FromUrl(c: byte): byte {
    if c == 45 then 43 else if c == 95 then 47 else if c == 46 then 61 else c
  }

  function AllToUrl(t: seq<byte>): (r: seq<byte>)
    ensures |r| == |t|
  {
    seq(|t|, i requires 0 <= i < |t| => ToUrl(t[i]))
  }

  function AllFromUrl(t: seq<byte>): (r: seq<byte>)
    ensures |r| == |t|
  {
    seq(|t|, i requires 0 <= i < |t| => FromUrl(t[i]))
  }

  function Encoded(s: seq<byte>, key: seq<byte>): seq<byte>
    requires 1 <= |s| <= MAX_TEXT && |key| >= 16
  {
    AllToUrl(Base64.Encoded(XxteaText.EncryptBytes(s, key)))
  }

  /** What the cipher bytes of a text decrypt to, cut at the first NUL as strdup does. */
  function Opened(c: seq<byte>, key: seq<byte>): Option<seq<byte>>
    requires |c| <= 0xffff_fff0 && |key| >= 16
  {
    if c == [] then None
    else match XxteaText.DecryptBytes(c, key)
      case None => None
      case Some(d) => Some(CText(d))
  }

  function Decoded(t: seq<byte>, key: seq<byte>): Option<seq<byte>>
    requires |t| < 0x8000_0000 && |key| >= 16
  {
    match Base64.Decoded(AllFromUrl(t) + [0], |t|)
    case None => None
    case Some(c) =>
      DecodedLength(AllFromUrl(t) + [0], |t|);
      Opened(c, key)
  }

  lemma DigitsBound(t: seq<byte>)
    ensures |Base64.Digits(t)| <= |t|
  {
  }

  lemma DecodedLength(str: seq<byte>, length: nat)
    requires length < |str|
    ensures var r := Base64.Decoded(str, length); r.Some? ==> |r.value| <= 3 * length / 4
  {
    var e := Base64.StopAt(str, length);
    DigitsBound(str[..e]);
  }

  // ---------- what the encoded text looks like, and the round trip ----------

  lemma UrlRoundTrip(t: seq<byte>)
    requires forall i :: 0 <= i < |t| ==> Base64.Reverse(t[i]) >= 0 || t[i] == Base64.PAD
    ensures AllFromUrl(AllToUrl(t)) == t
  {
  }

  lemma EncodedCharacters(d: seq<byte>, i: nat)
    requires i < |Base64.Encoded(d)|
    ensures var c := Base64.Encoded(d)[i]; (Base64.Reverse(c) >= 0 || c == Base64.PAD) && c != 0
  {
    if i < Base64.DigitCount(|d|) {
      Base64.ReverseAlphabet(Base64.SextetAt(d, i));
    }
  }

  lemma UrlCharacters(d: seq<byte>)
    ensures forall i :: 0 <= i < |AllToUrl(Base64.Encoded(d))| ==>
      AllToUrl(Base64.Encoded(d))[i] !in {0, 43, 47, 61}
    ensures AllFromUrl(AllToUrl(Base64.Encoded(d))) == Base64.Encoded(d)
  {
    var t := Base64.Encoded(d);
    forall i | 0 <= i < |t| ensures (Base64.Reverse(t[i]) >= 0 || t[i] == Base64.PAD) && t[i] != 0 {
      EncodedCharacters(d, i);
    }
    UrlRoundTrip(t);
  }

  lemma EncodedLength(c: seq<byte>, n: nat)
    requires 1 <= n <= MAX_TEXT && |c| == 4 * XxteaText.WordCount(n) + 4
    ensures |AllToUrl(Base64.Encoded(c))| == (4 * ((n + 3) / 4) + 6) / 3 * 4 < 0x8000_0000
  {
    assert XxteaText.WordCount(n) == (n + 3) / 4;
  }

  /** The encoded text uses no '+', '/', '=' or NUL. */
  lemma EncodedAlphabet(s: seq<byte>, key: seq<byte>)
    requires 1 <= |s| <= MAX_TEXT && |key| >= 16
    ensures forall i :: 0 <= i < |Encoded(s, key)| ==> Encoded(s, key)[i] !in {0, 43, 47, 61}
  {
    UrlCharacters(XxteaText.EncryptBytes(s, key));
  }

  /** The length of the encoded text depends on the length of the plaintext only. */
  lemma EncodedShape(s: seq<byte>, key: seq<byte>)
    requires 1 <= |s| <= MAX_TEXT && |key| >= 16
    ensures |Encoded(s, key)| == (4 * ((|s| + 3) / 4) + 6) / 3 * 4 < 0x8000_0000
  {
    hide XxteaText.EncryptBytes;
    EncodedLength(XxteaText.EncryptBytes(s, key), |s|);
  }

  /** Every non-empty NUL-free text comes back under every key of at least 16 bytes. */
  lemma DecodeEncode(s: seq<byte>, key: seq<byte>)
    requires 1 <= |s| <= MAX_TEXT && NulFree(s) && |key| >= 16
    ensures |Encoded(s, key)| < 0x8000_0000 && Decoded(Encoded(s, key), key) == Some(s)
  {
    hide XxteaText.EncryptBytes;
    hide XxteaText.DecryptBytes;
    hide Base64.Encoded;
    hide Base64.Decoded;
    var c := XxteaText.EncryptBytes(s, key);
    EncodedShape(s, key);
    UrlCharacters(c);
    Base64.DecodeEncode(c, []);
    assert Base64.Encoded(c) + [0] + [] == Base64.Encoded(c) + [0];
    XxteaText.DecryptEncryptBytes(s, key);
    CTextOfText(s, []);
  }

  /** Nothing decodes from an empty text, or from one that carries no more than a length word. */
  lemma ShortCipherIsNone(t: seq<byte>, key: seq<byte>)
    requires |t| < 0x8000_0000 && |key| >= 16
    ensures var c := Base64.Decoded(AllFromUrl(t) + [0], |t|);
            c.Some? && |c.value| <= 4 ==> Decoded(t, key) == None
    ensures t == [] ==> Decoded(t, key) == None
  {
    var u := AllFromUrl(t) + [0];
    var c := Base64.Decoded(u, |t|);
    if t == [] {
      assert u[..0] == [];
    }
    if c.Some? && 0 < |c.value| <= 4 {
      XxteaText.DecryptsIff(c.value, key);
    }
    hide Base64.Decoded;
    hide XxteaText.DecryptBytes;
  }

  // ---------- the code ----------

  method SubstituteToUrl(text: array<byte>, length: nat)
    requires length <= text.Length
    modifies text
    ensures text[..length] == AllToUrl(old(text[..length])) && text[length..] == old(text[length..])
  {
    for i := 0 to length
      invariant text[..i] == AllToUrl(old(text[..length]))[..i]
      invariant forall k :: i <= k < text.Length ==> text[k] == old(text[k])
    {
      if text[i] == 43 {
        text[i] := 45;
      } else if text[i] == 47 {
        text[i] := 95;
      } else if text[i] == 61 {
        text[i] := 46;
      }
    }
  }

  method SubstituteFromUrl(text: array<byte>, length: nat)
    requires length <= text.Length
    modifies text
    ensures text[..length] == AllFromUrl(old(text[..length])) && text[length..] == old(text[length..])
  {
    for i := 0 to length
      invariant text[..i] == AllFromUrl(old(text[..length]))[..i]
      invariant forall k :: i <= k < text.Length ==> text[k] == old(text[k])
    {
      if text[i] == 45 {
        text[i] := 43;
      } else if text[i] == 95 {
        text[i] := 47;
      } else if text[i] == 46 {
        text[i] := 61;
      }
    }
  }

  method EncodeText(src: seq<byte>, key: seq<byte>) returns (dst: Option<seq<byte>>)
    requires |CText(src)| <= MAX_TEXT && |key| >= 16
    ensures dst == if CText(src) == [] then None else Some(Encoded(CText(src), key))
  {
    var data := CText(src);
    if data == [] {
      return None;
    }
    var xxtea := XxteaText.EncryptData(data, key);
    EncodedLength(xxtea, |data|);
    var result, length := Base64.Encode(xxtea);
    if result == null {
      return None;
    }
    assert result[..length] == Base64.Encoded(xxtea) && result[length..] == [0];
    SubstituteToUrl(result, length);
    UrlCharacters(xxtea);
    assert result[..] == result[..length] + [0] + [];
    CTextOfText(result[..length], []);
    return Some(CText(result[..]));
  }

  /** Rewrites src in place, as the original does. */
  method DecodeText(src: array<byte>, key: seq<byte>) returns (dst: Option<seq<byte>>)
    requires |CText(src[..])| < src.Length && |CText(src[..])| < 0x8000_0000 && |key| >= 16
    modifies src
    ensures dst == old(Decoded(CText(src[..]), key))
  {
    ghost var text := CText(src[..]);
    var length := |CText(src[..])|;
    assert src[..length] == text && src[length..][0] == 0;
    SubstituteFromUrl(src, length);
    assert src[..length + 1] == AllFromUrl(text) + [0];
    DecodedLength(src[..length + 1], length);
    var xxtea, n := Base64.Decode(src[..length + 1], length);
    if xxtea == null {
      return None;
    }
    if n == 0 {
      return None;
    }
    var result := XxteaText.DecryptData(xxtea[..n], key);
    if result.None? {
      return None;
    }
    return Some(CText(result.value));
  }
}

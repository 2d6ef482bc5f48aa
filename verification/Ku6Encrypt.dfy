/** The string wrapper around the text cipher: both directions copy at most 98 bytes into a local buffer. */
module Ku6Encrypt {
  import opened Machine
  import Xxtea
  import XxteaText
  import Base64
  import Edcode

  const COPIED: nat := 98

  /** The text that strncpy(buf, s.c_str(), 98) leaves in the zeroed buffer. */
  function Copied(s: seq<byte>): (r: seq<byte>)
    ensures |r| <= COPIED && NulFree(r)
  {
    var t := CText(s);
    if |t| > COPIED then t[..COPIED] else t
  }

  function Encoded(s: seq<byte>, key: seq<byte>): seq<byte>
    requires |key| >= 16
  {
    if Copied(s) == [] then [] else Edcode.Encoded(Copied(s), key)
  }

  function Decoded(s: seq<byte>, key: seq<byte>): seq<byte>
    requires |key| >= 16
  {
    match Edcode.Decoded(Copied(s), key)
    case None => []
    case Some(t) => t
  }

  // ---------- which texts come back ----------

  lemma CopiedWhole(s: seq<byte>)
    requires NulFree(s) && |s| <= COPIED
    ensures Copied(s) == s
  {
    CTextOfText(s, []);
  }

  lemma EncodedFits(s: seq<byte>, key: seq<byte>)
    requires 1 <= |s| <= 68 && NulFree(s) && |key| >= 16
    ensures Encoded(s, key) == Edcode.Encoded(s, key) && |Encoded(s, key)| <= 96
    ensures Copied(Encoded(s, key)) == Edcode.Encoded(s, key)
  {
    hide XxteaText.EncryptBytes;
    CopiedWhole(s);
    Edcode.EncodedShape(s, key);
    Edcode.EncodedAlphabet(s, key);
    CopiedWhole(Edcode.Encoded(s, key));
  }

  /** Up to 68 bytes, the encoded text has at most 96 characters, so neither copy loses anything. */
  lemma ShortTextsComeBack(s: seq<byte>, key: seq<byte>)
    requires 1 <= |s| <= 68 && NulFree(s) && |key| >= 16
    ensures |Encoded(s, key)| <= 96 && Decoded(Encoded(s, key), key) == s
  {
    hide Edcode.Encoded;
    hide Edcode.Decoded;
    EncodedFits(s, key);
    Edcode.DecodeEncode(s, key);
  }

  /** 98 characters carry at most 73 bytes, which is 19 words, of which the last is the length. */
  lemma DecodedIsShort(s: seq<byte>, key: seq<byte>)
    requires |key| >= 16
    ensures |Decoded(s, key)| <= 72
  {
    var t := Copied(s);
    var u := Edcode.AllFromUrl(t) + [0];
    Edcode.DecodedLength(u, |t|);
    match Base64.Decoded(u, |t|)
    case None =>
    case Some(c) => OpenedIsShort(c, key);
  }

  lemma OpenedIsShort(c: seq<byte>, key: seq<byte>)
    requires |c| <= 73 && |key| >= 16
    ensures var r := Edcode.Opened(c, key); r.Some? ==> |r.value| <= 72
  {
  }

  /** So no text of 73 bytes or more comes back. */
  lemma LongTextsAreLost(s: seq<byte>, key: seq<byte>)
    requires |s| >= 73 && |key| >= 16
    ensures Decoded(Encoded(s, key), key) != s
  {
    DecodedIsShort(Encoded(s, key), key);
  }

  // ---------- 69 to 72 bytes: the last three cipher bytes are cut off ----------

  lemma PrefixBytes(s: seq<Base64.sextet>, m: nat)
    requires m <= |s|
    ensures Base64.BytesFrom(s[..m]) == Base64.BytesFrom(s)[..Base64.ByteCount(m)]
  {
    var a, b := Base64.BytesFrom(s[..m]), Base64.BytesFrom(s);
    forall k | 0 <= k < |a| ensures a[k] == b[k] {
      assert 4 * (k / 3) + k % 3 + 1 < m;
    }
  }

  lemma CutStops(c: seq<byte>)
    requires |c| == 76
    ensures |Base64.Encoded(c)| == 104
    ensures Base64.StopAt(Base64.Encoded(c)[..COPIED] + [0], COPIED) == COPIED
  {
    var u := Base64.Encoded(c)[..COPIED] + [0];
    forall i | 0 <= i < COPIED ensures !Base64.IsStop(u[i]) {
      Base64.ReverseAlphabet(Base64.SextetAt(c, i));
    }
    Base64.StopIs(u, COPIED, COPIED);
  }

  lemma CutBytes(c: seq<byte>)
    requires |c| == 76
    ensures |Base64.Encoded(c)| == 104
    ensures Base64.BytesFrom(Base64.Digits(Base64.Encoded(c)[..COPIED])) == c[..73]
  {
    hide Base64.BytesFrom;
    hide Base64.AllDigits;
    hide Base64.Encoded;
    Base64.DigitsOfEncoded(c, COPIED);
    PrefixBytes(Base64.AllDigits(c), COPIED);
    Base64.BytesOfDigits(c);
  }

  /** The first 98 characters of the base64 text of 76 bytes decode to the first 73 of them. */
  lemma CutBase64(c: seq<byte>)
    requires |c| == 76
    ensures |Base64.Encoded(c)| == 104
    ensures Base64.Decoded(Base64.Encoded(c)[..COPIED] + [0], COPIED) == Some(c[..73])
  {
    hide Base64.BytesFrom;
    hide Base64.Encoded;
    CutStops(c);
    CutBytes(c);
    var u := Base64.Encoded(c)[..COPIED] + [0];
    assert u[..COPIED] == Base64.Encoded(c)[..COPIED];
  }

  /** What such a text decodes to, in terms of its cipher bytes. */
  lemma CutText(s: seq<byte>, key: seq<byte>)
    requires 69 <= |s| <= 72 && NulFree(s) && |key| >= 16
    ensures |XxteaText.EncryptBytes(s, key)| == 76
    ensures Edcode.Decoded(Copied(Encoded(s, key)), key) == Edcode.Opened(XxteaText.EncryptBytes(s, key)[..73], key)
  {
    hide XxteaText.EncryptBytes;
    hide Edcode.Opened;
    hide Base64.Encoded;
    hide Base64.Decoded;
    var c := XxteaText.EncryptBytes(s, key);
    CopiedWhole(s);
    CutBase64(c);
    var t := Edcode.Encoded(s, key);
    Edcode.EncodedAlphabet(s, key);
    CTextOfText(t, []);
    assert Copied(Encoded(s, key)) == t[..COPIED];
    Edcode.UrlCharacters(c);
    assert Edcode.AllFromUrl(t[..COPIED]) == Edcode.AllFromUrl(t)[..COPIED] == Base64.Encoded(c)[..COPIED];
  }

  /** Dropping the last three of 76 bytes leaves the packed words alone iff those bytes are zero. */
  lemma CutPack(c: seq<byte>)
    requires |c| == 76
    ensures XxteaText.Pack(c[..73]) == XxteaText.Pack(c) <==> c[73] == c[74] == c[75] == 0
  {
    var a, b := XxteaText.Pack(c[..73]), XxteaText.Pack(c);
    assert |a| == |b| == 19;
    assert forall w :: 0 <= w < 18 ==> a[w] == b[w];
    assert a[18] == XxteaText.WordAt(c[..73], 18) && b[18] == XxteaText.WordAt(c, 18);
  }

  /** A padding of the text to 72 bytes and a length word that encrypt to what the copy leaves, followed by zeros. */
  ghost predicate Fits(s: seq<byte>, key: seq<byte>, pad: seq<byte>, m: nat)
    requires 69 <= |s| <= 72 && |key| >= 16
  {
    && |pad| == 72 - |s| && |s| <= m <= 72 && (m > |s| ==> pad[0] == 0)
    && XxteaText.Unpack(Xxtea.Encrypt(XxteaText.Pack(s + pad) + [m], XxteaText.Pack(key[..16])), 76)
       == XxteaText.EncryptBytes(s, key)[..73] + [0, 0, 0]
  }

  /** Cipher words packed from 73 bytes, and the words' bytes. */
  lemma PackedCut(c: seq<byte>, v: seq<u32>)
    requires |c| == 73 && |v| == 19
    ensures XxteaText.Pack(c) == v <==> XxteaText.Unpack(v, 76) == c + [0, 0, 0]
  {
    hide XxteaText.Pack;
    hide XxteaText.Unpack;
    var whole := c + [0, 0, 0];
    CutPack(whole);
    assert whole[..73] == c;
    XxteaText.UnpackPack(whole, []);
    assert XxteaText.Pack(whole) + [] == XxteaText.Pack(whole);
    XxteaText.PackUnpack(v);
  }

  /** What 19 decrypted words open to. */
  lemma OpenedIff(c: seq<byte>, s: seq<byte>, key: seq<byte>)
    requires |c| == 73 && 69 <= |s| <= 72 && NulFree(s) && |key| >= 16
    ensures var v := Xxtea.Decrypt(XxteaText.Pack(c), XxteaText.Pack(key[..16]));
            Edcode.Opened(c, key) == Some(s) <==>
            && |s| <= v[18] <= 72 && XxteaText.Unpack(v, 76)[..|s|] == s
            && (v[18] > |s| ==> XxteaText.Unpack(v, 76)[|s|] == 0)
  {
    hide Xxtea.Decrypt;
    hide XxteaText.Pack;
    hide XxteaText.ByteAt;
    var v := Xxtea.Decrypt(XxteaText.Pack(c), XxteaText.Pack(key[..16]));
    var all, m := XxteaText.Unpack(v, 76), v[18];
    assert XxteaText.DecryptBytes(c, key) == XxteaText.TextOf(v);
    if 69 <= m <= 72 {
      assert XxteaText.Unpack(v, m) == all[..m];
      CTextIff(all[..m], s);
    }
  }

  lemma CTextIff(d: seq<byte>, s: seq<byte>)
    requires NulFree(s)
    ensures CText(d) == s <==> s <= d && (|d| > |s| ==> d[|s|] == 0)
  {
    hide CText;
    if s <= d && (|d| > |s| ==> d[|s|] == 0) {
      if |d| > |s| {
        assert d == s + [0] + d[|s| + 1..];
        CTextOfText(s, d[|s| + 1..]);
      } else {
        assert d == s;
        CTextOfText(s, []);
      }
    }
  }

  /** 19 words whose bytes begin with the text are its padded words and a last word. */
  lemma WordsOfText(v: seq<u32>, s: seq<byte>, pad: seq<byte>)
    requires |v| == 19 && |s| + |pad| == 72
    ensures XxteaText.Unpack(v, 76)[..72] == s + pad <==> v == XxteaText.Pack(s + pad) + [v[18]]
  {
    var d := s + pad;
    assert v == v[..18] + [v[18]];
    XxteaText.PackUnpack(v[..18]);
    assert XxteaText.Unpack(v[..18], 72) == XxteaText.Unpack(v, 76)[..72];
    XxteaText.UnpackPack(d, [v[18]]);
    if v == XxteaText.Pack(d) + [v[18]] {
      assert XxteaText.Unpack(v, 76)[..72] == XxteaText.Unpack(v, 72) == d;
    }
  }

  /** A text of 69 to 72 bytes comes back iff some padding and length word encrypt to its own first 73 cipher bytes
      followed by three zero bytes. */
  lemma CutTextComesBackIff(s: seq<byte>, key: seq<byte>)
    requires 69 <= |s| <= 72 && NulFree(s) && |key| >= 16
    ensures Decoded(Encoded(s, key), key) == s <==> exists pad, m :: Fits(s, key, pad, m)
  {
    hide *;
    CutText(s, key);
    var c := XxteaText.EncryptBytes(s, key)[..73];
    DecodedIsOpened(s, key);
    OpenedIff(c, s, key);
    if Decoded(Encoded(s, key), key) == s {
      FitsIfOpened(s, key);
    }
    if pad, m :| Fits(s, key, pad, m) {
      OpenedIfFits(s, key, pad, m);
    }
  }

  lemma DecodedIsOpened(s: seq<byte>, key: seq<byte>)
    requires |s| > 0 && |key| >= 16
    ensures Decoded(Encoded(s, key), key) == s <==> Edcode.Decoded(Copied(Encoded(s, key)), key) == Some(s)
  {
    hide Edcode.Decoded;
    hide Encoded;
  }

  lemma FitsIfOpened(s: seq<byte>, key: seq<byte>)
    requires 69 <= |s| <= 72 && NulFree(s) && |key| >= 16
    requires Edcode.Opened(XxteaText.EncryptBytes(s, key)[..73], key) == Some(s)
    ensures exists pad, m :: Fits(s, key, pad, m)
  {
    hide Xxtea.Encrypt;
    hide Xxtea.Decrypt;
    hide Edcode.Opened;
    hide XxteaText.Pack;
    hide XxteaText.Unpack;
    hide XxteaText.EncryptBytes;
    var c, k := XxteaText.EncryptBytes(s, key)[..73], XxteaText.Pack(key[..16]);
    var v := Xxtea.Decrypt(XxteaText.Pack(c), k);
    var pad := XxteaText.Unpack(v, 76)[|s|..72];
    OpenedIff(c, s, key);
    assert XxteaText.Unpack(v, 76)[..72] == s + pad;
    WordsOfText(v, s, pad);
    Xxtea.CipherIsBijection(XxteaText.Pack(c), k);
    PackedCut(c, Xxtea.Encrypt(v, k));
    assert Fits(s, key, pad, v[18]);
  }

  lemma OpenedIfFits(s: seq<byte>, key: seq<byte>, pad: seq<byte>, m: nat)
    requires 69 <= |s| <= 72 && NulFree(s) && |key| >= 16 && Fits(s, key, pad, m)
    ensures Edcode.Opened(XxteaText.EncryptBytes(s, key)[..73], key) == Some(s)
  {
    hide Xxtea.Encrypt;
    hide Xxtea.Decrypt;
    hide Edcode.Opened;
    hide XxteaText.Pack;
    hide XxteaText.Unpack;
    hide XxteaText.EncryptBytes;
    var c, k, v := XxteaText.EncryptBytes(s, key)[..73], XxteaText.Pack(key[..16]), XxteaText.Pack(s + pad) + [m];
    PackedCut(c, Xxtea.Encrypt(v, k));
    Xxtea.CipherIsBijection(v, k);
    WordsOfText(v, s, pad);
    var all := XxteaText.Unpack(v, 76);
    assert all[..|s|] == all[..72][..|s|] == s;
    assert m > |s| ==> all[|s|] == all[..72][|s|] == pad[0];
    OpenedIff(c, s, key);
  }

  lemma CutBack(c: seq<byte>)
    requires |c| == 76
    ensures c[..73] + [0, 0, 0] == c <==> c[73] == c[74] == c[75] == 0
  {
    assert c == c[..73] + [c[73], c[74], c[75]];
  }

  /** The text itself, padded with zeros, fits iff its last three cipher bytes happen to be zero. */
  lemma OwnPaddingFits(s: seq<byte>, key: seq<byte>)
    requires 69 <= |s| <= 72 && |key| >= 16
    ensures |XxteaText.EncryptBytes(s, key)| == 76
    ensures var c, zeros := XxteaText.EncryptBytes(s, key), seq(72 - |s|, _ => 0);
            Fits(s, key, zeros, |s|) <==> c[73] == c[74] == c[75] == 0
  {
    hide Xxtea.Encrypt;
    hide XxteaText.Unpack;
    var c, zeros: seq<byte> := XxteaText.EncryptBytes(s, key), seq(72 - |s|, _ => 0);
    assert |s + zeros| == 72;
    assert XxteaText.Pack(s + zeros) == XxteaText.Pack(s) by {
      forall w | 0 <= w < 18 ensures XxteaText.WordAt(s + zeros, w) == XxteaText.WordAt(s, w) {
        PadByte(s, zeros, 4 * w);
        PadByte(s, zeros, 4 * w + 1);
        PadByte(s, zeros, 4 * w + 2);
        PadByte(s, zeros, 4 * w + 3);
      }
    }
    CutBack(c);
  }

  lemma PadByte(s: seq<byte>, zeros: seq<byte>, i: nat)
    requires forall k :: 0 <= k < |zeros| ==> zeros[k] == 0
    ensures ByteOr0(s + zeros, i) == ByteOr0(s, i)
  {
  }

  /** So a text of 69 to 72 bytes comes back if its last three cipher bytes are zero. */
  lemma CutTextsComeBack(s: seq<byte>, key: seq<byte>)
    requires 69 <= |s| <= 72 && NulFree(s) && |key| >= 16
    ensures |XxteaText.EncryptBytes(s, key)| == 76
    ensures var c := XxteaText.EncryptBytes(s, key);
            c[73] == c[74] == c[75] == 0 ==> Decoded(Encoded(s, key), key) == s
  {
    hide *;
    CutTextComesBackIff(s, key);
    OwnPaddingFits(s, key);
  }

  /** At exactly 72 bytes, where nothing is padded, zero cipher bytes at the end are also necessary. */
  lemma SeventyTwoBytes(s: seq<byte>, key: seq<byte>)
    requires |s| == 72 && NulFree(s) && |key| >= 16
    ensures |XxteaText.EncryptBytes(s, key)| == 76
    ensures var c := XxteaText.EncryptBytes(s, key);
            Decoded(Encoded(s, key), key) == s <==> c[73] == c[74] == c[75] == 0
  {
    hide XxteaText.EncryptBytes;
    hide Encoded;
    hide Decoded;
    CutTextComesBackIff(s, key);
    OwnPaddingFits(s, key);
    if pad, m :| Fits(s, key, pad, m) {
      assert pad == seq(72 - |s|, _ => 0) && m == 72;
    }
  }

  // ---------- the code ----------

  /** The zeroed local buffer with at most 98 bytes of the string copied in. */
  method CopyToBuffer(s: seq<byte>) returns (buffstr: array<byte>)
    ensures fresh(buffstr) && buffstr.Length == 100 && CText(buffstr[..]) == Copied(s)
  {
    buffstr := new byte[100](_ => 0);
    var i, text := 0, CText(s);
    assert Copied(s) == text[..if |text| > COPIED then COPIED else |text|];
    hide CText;
    hide Copied;
    while i < COPIED && i < |text|
      invariant i <= COPIED && i <= |text| && buffstr[..i] == text[..i]
      invariant forall k :: i <= k < 100 ==> buffstr[k] == 0
    {
      buffstr[i] := text[i];
      i := i + 1;
    }
    assert buffstr[..][..i] == Copied(s) && buffstr[..][i] == 0;
    CTextIff(buffstr[..], Copied(s));
  }

  method Encode(encfid: seq<byte>, key: seq<byte>) returns (out: seq<byte>)
    requires |key| >= 16
    ensures out == Encoded(encfid, key)
  {
    if encfid == [] {
      return [];
    }
    var buffstr := CopyToBuffer(encfid);
    var result := Edcode.EncodeText(buffstr[..], key);
    out := match result case None => [] case Some(t) => t;
  }

  method Decode(encfid: seq<byte>, key: seq<byte>) returns (out: seq<byte>)
    requires |key| >= 16
    ensures out == Decoded(encfid, key)
  {
    if encfid == [] {
      NothingToDecode(key);
      return [];
    }
    var buffstr := CopyToBuffer(encfid);
    var result := Edcode.DecodeText(buffstr, key);
    out := match result case None => [] case Some(t) => t;
  }

  lemma NothingToDecode(key: seq<byte>)
    requires |key| >= 16
    ensures Decoded([], key) == []
  {
    var u := Edcode.AllFromUrl([]) + [0];
    assert u[..0] == [];
  }
}

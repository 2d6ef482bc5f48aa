/** XXTEA on byte strings: little-endian packing into words, with the length kept in a last word. */
module XxteaText {
  import opened Machine
  import opened Xxtea

  // 256^j, the weight of byte lane j of a word: a shift left by (i & 3) << 3 bits.
  function Lane(j: nat): (w: nat)
    requires j < 4
    ensures w > 0
  {
    if j == 0 then 1 else if j == 1 then 0x100 else if j == 2 then 0x1_0000 else 0x100_0000
  }

  /** Word w of a byte string, padded with zero bytes. */
  function WordAt(d: seq<byte>, w: nat): u32 {
    ByteOr0(d, 4 * w) + 0x100 * ByteOr0(d, 4 * w + 1) + 0x1_0000 * ByteOr0(d, 4 * w + 2) + 0x100_0000 * ByteOr0(d, 4 * w + 3)
  }

  function WordCount(len: nat): (n: nat)
    ensures 4 * n - 3 <= len <= 4 * n || (len == 0 && n == 0)
  {
    if len % 4 == 0 then len / 4 else len / 4 + 1
  }

  function Pack(d: seq<byte>): (v: seq<u32>)
    ensures |v| == WordCount(|d|)
  {
    seq(WordCount(|d|), w requires 0 <= w => WordAt(d, w))
  }

  function ByteAt(v: seq<u32>, i: nat): byte
    requires i < 4 * |v|
  {
    v[i / 4] / Lane(i % 4) % 0x100
  }

  function Unpack(v: seq<u32>, n: nat): (d: seq<byte>)
    requires n <= 4 * |v|
    ensures |d| == n
  {
    seq(n, i requires 0 <= i < n => ByteAt(v, i))
  }

  function EncryptBytes(d: seq<byte>, key: seq<byte>): (c: seq<byte>)
    requires |d| <= 0xffff_fff8 && |key| >= 16
    ensures |c| == 4 * WordCount(|d|) + 4
  {
    var v := Encrypt(Pack(d) + [|d|], Pack(key[..16]));
    Unpack(v, 4 * |v|)
  }

  /** The length word must fit the number of words, in unsigned 32-bit arithmetic. */
  function TextOf(v: seq<u32>): Option<seq<byte>>
    requires 1 <= |v| < 0x4000_0000
  {
    var n, m := 4 * |v|, v[|v| - 1];
    if m < Sub32(n, 7) || m > Sub32(n, 4) then None else Some(Unpack(v, m))
  }

  function DecryptBytes(c: seq<byte>, key: seq<byte>): Option<seq<byte>>
    requires 1 <= |c| <= 0xffff_fff8 && |key| >= 16
  {
    TextOf(Decrypt(Pack(c), Pack(key[..16])))
  }

  // ---------- packing is lossless ----------

  lemma LanesOfWord(b0: byte, b1: byte, b2: byte, b3: byte)
    ensures var w := b0 + 0x100 * b1 + 0x1_0000 * b2 + 0x100_0000 * b3;
            && w % 0x100 == b0 && w / 0x100 % 0x100 == b1
            && w / 0x1_0000 % 0x100 == b2 && w / 0x100_0000 % 0x100 == b3
  {
    var w := b0 + 0x100 * b1 + 0x1_0000 * b2 + 0x100_0000 * b3;
    assert w / 0x100 == b1 + 0x100 * b2 + 0x1_0000 * b3;
    assert w / 0x1_0000 == b2 + 0x100 * b3;
    assert w / 0x100_0000 == b3;
  }

  lemma WordOfLanes(w: u32)
    ensures w == w % 0x100 + 0x100 * (w / 0x100 % 0x100) + 0x1_0000 * (w / 0x1_0000 % 0x100)
               + 0x100_0000 * (w / 0x100_0000 % 0x100)
  {
    assert w / 0x1_0000 == w / 0x100 / 0x100;
    assert w / 0x100_0000 == w / 0x1_0000 / 0x100;
  }

  lemma ByteOfWord(d: seq<byte>, i: nat)
    requires i < |d|
    ensures WordAt(d, i / 4) / Lane(i % 4) % 0x100 == d[i]
  {
    var w := i / 4;
    LanesOfWord(ByteOr0(d, 4 * w), ByteOr0(d, 4 * w + 1), ByteOr0(d, 4 * w + 2), ByteOr0(d, 4 * w + 3));
  }

  /** Bytes survive packing, whatever words follow the packed ones. */
  lemma UnpackPack(d: seq<byte>, rest: seq<u32>)
    ensures |d| <= 4 * |Pack(d) + rest| && Unpack(Pack(d) + rest, |d|) == d
  {
    var v := Pack(d) + rest;
    forall i | 0 <= i < |d| ensures i < 4 * |v| && ByteAt(v, i) == d[i] {
      ByteOfWord(d, i);
      assert v[i / 4] == WordAt(d, i / 4);
    }
  }

  lemma LaneOfWord(v: seq<u32>, w: nat, j: nat)
    requires w < |v| && j < 4
    ensures ByteOr0(Unpack(v, 4 * |v|), 4 * w + j) == v[w] / Lane(j) % 0x100
  {
    assert (4 * w + j) / 4 == w && (4 * w + j) % 4 == j;
  }

  lemma PackUnpack(v: seq<u32>)
    ensures Pack(Unpack(v, 4 * |v|)) == v
  {
    var d := Unpack(v, 4 * |v|);
    forall w | 0 <= w < |v| ensures WordAt(d, w) == v[w] {
      WordOfLanes(v[w]);
      LaneOfWord(v, w, 0);
      LaneOfWord(v, w, 1);
      LaneOfWord(v, w, 2);
      LaneOfWord(v, w, 3);
    }
  }

  /** Byte strings of any content and any positive length come back whole. */
  lemma DecryptEncryptBytes(d: seq<byte>, key: seq<byte>)
    requires 1 <= |d| <= 0xffff_fff0 && |key| >= 16
    ensures DecryptBytes(EncryptBytes(d, key), key) == Some(d)
  {
    hide Encrypt;
    hide Decrypt;
    hide WordAt;
    hide ByteAt;
    var plain, k := Pack(d) + [|d|], Pack(key[..16]);
    PackUnpack(Encrypt(plain, k));
    CipherIsBijection(plain, k);
    UnpackPack(d, [|d|]);
  }

  /** Decryption gives nothing unless the last decrypted word is a length that fits the words before it, to within the
      last three bytes; then it gives that many bytes. */
  lemma DecryptsIff(c: seq<byte>, key: seq<byte>)
    requires 1 <= |c| <= 0xffff_fff0 && |key| >= 16
    ensures var v := Decrypt(Pack(c), Pack(key[..16]));
            var words, m := |v| - 1, v[|v| - 1];
            && (DecryptBytes(c, key).Some? <==> words > 0 && 4 * words - 3 <= m <= 4 * words)
            && (DecryptBytes(c, key).Some? ==>
                |DecryptBytes(c, key).value| == m && DecryptBytes(c, key).value == Unpack(v, 4 * |v|)[..m])
  {
    hide Decrypt;
    hide ByteAt;
  }

  // ---------- the code's loops ----------

  lemma OneMoreLane(d: seq<byte>, i: nat, k: nat)
    requires i < |d|
    ensures ByteOr0(d[..i + 1], k) == if k == i then d[i] else ByteOr0(d[..i], k)
    ensures ByteOr0(d[..i], i) == 0
  {
  }

  /** Reading one more byte sets one lane of one word, a lane that was still zero. */
  lemma OneMoreByte(d: seq<byte>, i: nat, w: nat)
    requires i < |d|
    ensures WordAt(d[..i + 1], w) == WordAt(d[..i], w) + (if w == i / 4 then d[i] * Lane(i % 4) else 0)
  {
    hide ByteOr0;
    OneMoreLane(d, i, 4 * w);
    OneMoreLane(d, i, 4 * w + 1);
    OneMoreLane(d, i, 4 * w + 2);
    OneMoreLane(d, i, 4 * w + 3);
    assert w == i / 4 <==> i == 4 * w || i == 4 * w + 1 || i == 4 * w + 2 || i == 4 * w + 3;
    if w == i / 4 {
      var j := i - 4 * w;
      assert i % 4 == j;
    }
  }

  method ToLongArray(data: seq<byte>, includeLength: bool) returns (result: array<u32>)
    requires |data| <= 0xffff_fff8
    ensures fresh(result)
    ensures result[..] == Pack(data) + (if includeLength then [|data|] else [])
  {
    var n := WordCount(|data|);
    result := new u32[if includeLength then n + 1 else n](_ => 0);
    if includeLength {
      result[n] := |data|;
    }
    assert forall w :: 0 <= w < n ==> WordAt(data[..0], w) == 0;
    for i := 0 to |data|
      invariant includeLength ==> result[n] == |data|
      invariant forall w :: 0 <= w < n ==> result[w] == WordAt(data[..i], w)
    {
      forall w | 0 <= w < n
        ensures WordAt(data[..i + 1], w) == WordAt(data[..i], w) + (if w == i / 4 then data[i] * Lane(i % 4) else 0)
      {
        OneMoreByte(data, i, w);
      }
      assert i / 4 < n;
      result[i / 4] := result[i / 4] + data[i] * Lane(i % 4);
    }
    assert data[..|data|] == data;
  }

  method ToByteArray(data: array<u32>, includeLength: bool) returns (result: Option<seq<byte>>)
    requires 1 <= data.Length < 0x4000_0000
    ensures result == if includeLength then TextOf(data[..]) else Some(Unpack(data[..], 4 * data.Length))
  {
    var n := 4 * data.Length;
    if includeLength {
      var m := data[data.Length - 1];
      if m < Sub32(n, 7) || m > Sub32(n, 4) {
        return None;
      }
      n := m;
    }
    var bytes := [];
    for i := 0 to n
      invariant bytes == Unpack(data[..], i)
    {
      bytes := bytes + [data[i / 4] / Lane(i % 4) % 0x100];
    }
    return Some(bytes);
  }

  method EncryptData(data: seq<byte>, key: seq<byte>) returns (result: seq<byte>)
    requires |data| <= 0xffff_fff0 && |key| >= 16
    ensures result == EncryptBytes(data, key)
  {
    var v := ToLongArray(data, true);
    var k := ToLongArray(key[..16], false);
    assert k[..] == Pack(key[..16]) && v[..] == Pack(data) + [|data|];
    LongEncrypt(v, k);
    var bytes := ToByteArray(v, false);
    result := bytes.value;
  }

  method DecryptData(data: seq<byte>, key: seq<byte>) returns (result: Option<seq<byte>>)
    requires 1 <= |data| <= 0xffff_fff0 && |key| >= 16
    ensures result == DecryptBytes(data, key)
  {
    var v := ToLongArray(data, false);
    var k := ToLongArray(key[..16], false);
    assert k[..] == Pack(key[..16]) && v[..] == Pack(data);
    LongDecrypt(v, k);
    result := ToByteArray(v, true);
  }
}

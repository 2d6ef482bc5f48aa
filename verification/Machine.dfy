/** Optional values, unsigned machine integers, byte buffers and C strings. */
module Machine {
  datatype Option<T> = None | Some(value: T)

  type byte = x: int | 0 <= x < 0x100
  type u32 = x: int | 0 <= x < 0x1_0000_0000

  /** Addition and subtraction of 32-bit words wrap around. */
  function Add32(a: u32, b: u32): u32 {
    if a + b < 0x1_0000_0000 then a + b else a + b - 0x1_0000_0000
  }

  function Sub32(a: u32, b: u32): u32 {
    if a < b then a - b + 0x1_0000_0000 else a - b
  }

  /** Byte i of a buffer that continues with zero bytes. */
  function ByteOr0(d: seq<byte>, i: nat): byte {
    if i < |d| then d[i] else 0
  }

  /** No byte of s is NUL, so s is a C string's text. */
  predicate NulFree(s: seq<byte>) {
    forall i :: 0 <= i < |s| ==> s[i] != 0
  }

  /** The text a C string function sees in a buffer: everything before the first NUL. */
  function CText(s: seq<byte>): (r: seq<byte>)
    ensures r <= s && NulFree(r)
    ensures |r| < |s| ==> s[|r|] == 0
  {
    if s == [] || s[0] == 0 then []
    else [s[0]] + CText(s[1..])
  }

  lemma {:induction false} CTextOfText(s: seq<byte>, rest: seq<byte>)
    requires NulFree(s)
    ensures CText(s) == s
    ensures CText(s + [0] + rest) == s
  {
    if s != [] {
      CTextOfText(s[1..], rest);
      assert (s + [0] + rest)[1..] == s[1..] + [0] + rest;
    }
  }
}

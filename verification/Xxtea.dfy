/** XXTEA on word arrays: both passes visit the words in a ring, each word mixed with its two neighbours. */
module Xxtea {
  import opened Machine

  const DELTA: u32 := 0x9e37_79b9

  /** XXTEA_MX on 32-bit vectors, with C's precedence: shifts, then +, then ^. */
  function MxBits(z: bv32, y: bv32, sum: bv32, kw: bv32): bv32 {
    Shifted(z, y) ^ Keyed(z, y, sum, kw)
  }

  function Shifted(z: bv32, y: bv32): bv32 {
    ((z >> 5) ^ (y << 2)) + ((y >> 3) ^ (z << 4))
  }

  function Keyed(z: bv32, y: bv32, sum: bv32, kw: bv32): bv32 {
    (sum ^ y) + (kw ^ z)
  }

  function Mx(z: u32, y: u32, sum: u32, kw: u32): u32 {
    MxBits(z as bv32, y as bv32, sum as bv32, kw as bv32) as int
  }

  /** The key word for position p: index (p & 3) ^ e with e = (sum >> 2) & 3. */
  function KeyIndex(p: nat, sum: u32): (i: nat)
    ensures i < 4
  {
    (((p % 4) as bv2) ^ ((sum / 4 % 4) as bv2)) as int
  }

  /** What is added to or subtracted from position p, given its left neighbour z and right neighbour y. */
  type Mixer = (nat, u32, u32) -> u32

  /** XXTEA_MX as a function of the running sum, for a fixed key. */
  type KeyedMixer = u32 -> Mixer

  function KeyMixer(k: seq<u32>): KeyedMixer
    requires |k| == 4
  {
    (sum: u32) => (p: nat, z: u32, y: u32) => Mx(z, y, sum, k[KeyIndex(p, sum)])
  }

  function Left(v: seq<u32>, p: nat): u32
    requires p < |v|
  {
    if p == 0 then v[|v| - 1] else v[p - 1]
  }

  function Right(v: seq<u32>, p: nat): u32
    requires p < |v|
  {
    if p == |v| - 1 then v[0] else v[p + 1]
  }

  function Mix(v: seq<u32>, p: nat, m: Mixer): seq<u32>
    requires p < |v|
  {
    v[p := Add32(v[p], m(p, Left(v, p), Right(v, p)))]
  }

  function Unmix(v: seq<u32>, p: nat, m: Mixer): seq<u32>
    requires p < |v|
  {
    v[p := Sub32(v[p], m(p, Left(v, p), Right(v, p)))]
  }

  /** Mix positions p, p+1, ... to the end. */
  function Forward(v: seq<u32>, p: nat, m: Mixer): (r: seq<u32>)
    requires p <= |v|
    ensures |r| == |v|
    decreases |v| - p
  {
    if p == |v| then v else Forward(Mix(v, p, m), p + 1, m)
  }

  /** Unmix positions p-1, p-2, ... down to 0. */
  function Backward(v: seq<u32>, p: nat, m: Mixer): (r: seq<u32>)
    requires p <= |v|
    ensures |r| == |v|
    decreases p
  {
    if p == 0 then v else Backward(Unmix(v, p - 1, m), p - 1, m)
  }

  /** The running sum after r rounds. */
  function SumAfter(r: nat): u32 {
    if r == 0 then 0 else Add32(SumAfter(r - 1), DELTA)
  }

  function EncryptRounds(v: seq<u32>, mix: KeyedMixer, r: nat): (w: seq<u32>)
    ensures |w| == |v|
    decreases r
  {
    if r == 0 then v else Forward(EncryptRounds(v, mix, r - 1), 0, mix(SumAfter(r)))
  }

  function DecryptRounds(v: seq<u32>, mix: KeyedMixer, r: nat): (w: seq<u32>)
    ensures |w| == |v|
    decreases r
  {
    if r == 0 then v else DecryptRounds(Backward(v, |v|, mix(SumAfter(r))), mix, r - 1)
  }

  function Rounds(len: nat): (q: nat)
    requires len > 0
    ensures len >= 2 ==> 6 <= q <= 32
    ensures (q - 6) * len <= 52 < (q - 5) * len
  {
    6 + 52 / len
  }

  /** The whole cipher; arrays of fewer than two words are left alone. */
  function Encrypt(v: seq<u32>, k: seq<u32>): (w: seq<u32>)
    requires |k| == 4
    ensures |w| == |v|
  {
    if |v| < 2 then v else EncryptRounds(v, KeyMixer(k), Rounds(|v|))
  }

  function Decrypt(v: seq<u32>, k: seq<u32>): (w: seq<u32>)
    requires |k| == 4
    ensures |w| == |v|
  {
    if |v| < 2 then v else DecryptRounds(v, KeyMixer(k), Rounds(|v|))
  }

  // ---------- the two passes undo each other ----------

  lemma AddThenSub(a: u32, x: u32)
    ensures Sub32(Add32(a, x), x) == a && Add32(Sub32(a, x), x) == a
  {
  }

  lemma UnmixMix(v: seq<u32>, p: nat, m: Mixer)
    requires |v| >= 2 && p < |v|
    ensures Unmix(Mix(v, p, m), p, m) == v
    ensures Mix(Unmix(v, p, m), p, m) == v
  {
    AddThenSub(v[p], m(p, Left(v, p), Right(v, p)));
  }

  lemma {:induction false} BackwardUndoesForward(v: seq<u32>, p: nat, m: Mixer)
    requires |v| >= 2 && p <= |v|
    ensures Backward(Forward(v, p, m), |v|, m) == Backward(v, p, m)
    decreases |v| - p
  {
    if p < |v| {
      var w := Mix(v, p, m);
      BackwardUndoesForward(w, p + 1, m);
      assert Backward(w, p + 1, m) == Backward(Unmix(w, p, m), p, m);
      UnmixMix(v, p, m);
    }
  }

  lemma {:induction false} ForwardUndoesBackward(v: seq<u32>, p: nat, m: Mixer)
    requires |v| >= 2 && p <= |v|
    ensures Forward(Backward(v, p, m), 0, m) == Forward(v, p, m)
    decreases p
  {
    if p > 0 {
      var w := Unmix(v, p - 1, m);
      ForwardUndoesBackward(w, p - 1, m);
      assert Forward(w, p - 1, m) == Forward(Mix(w, p - 1, m), p, m);
      UnmixMix(v, p - 1, m);
    }
  }

  lemma {:induction false} DecryptUndoesEncryptRounds(v: seq<u32>, mix: KeyedMixer, r: nat)
    requires |v| >= 2
    ensures DecryptRounds(EncryptRounds(v, mix, r), mix, r) == v
    decreases r
  {
    if r > 0 {
      BackwardUndoesForward(EncryptRounds(v, mix, r - 1), 0, mix(SumAfter(r)));
      DecryptUndoesEncryptRounds(v, mix, r - 1);
    }
  }

  lemma {:induction false} EncryptUndoesDecryptRounds(v: seq<u32>, mix: KeyedMixer, r: nat)
    requires |v| >= 2
    ensures EncryptRounds(DecryptRounds(v, mix, r), mix, r) == v
    decreases r
  {
    if r > 0 {
      EncryptUndoesDecryptRounds(Backward(v, |v|, mix(SumAfter(r))), mix, r - 1);
      ForwardUndoesBackward(v, |v|, mix(SumAfter(r)));
    }
  }

  /** For every key, encryption is a bijection on word arrays and decryption is its inverse. */
  lemma CipherIsBijection(v: seq<u32>, k: seq<u32>)
    requires |k| == 4
    ensures Decrypt(Encrypt(v, k), k) == v && Encrypt(Decrypt(v, k), k) == v
    ensures |v| < 2 ==> Encrypt(v, k) == v
  {
    if |v| >= 2 {
      DecryptUndoesEncryptRounds(v, KeyMixer(k), Rounds(|v|));
      EncryptUndoesDecryptRounds(v, KeyMixer(k), Rounds(|v|));
    }
  }

  /** Within a round, two positions use the same key word iff they are equal modulo 4. */
  lemma KeyWordsRotate(p: nat, q: nat, sum: u32)
    ensures KeyIndex(p, sum) == KeyIndex(q, sum) <==> p % 4 == q % 4
  {
    var (a, b, e) := ((p % 4) as bv2, (q % 4) as bv2, (sum / 4 % 4) as bv2);
    assert (a ^ e) == (b ^ e) ==> a == b;
  }

  // ---------- the constants and the mixing expression ----------

  /** DELTA is the integer part of 2^32 times the golden ratio's fraction, the positive root of x^2 + x = 1. */
  lemma DeltaIsGolden()
    ensures DELTA * DELTA + DELTA * 0x1_0000_0000 <= 0x1_0000_0000 * 0x1_0000_0000
          < (DELTA + 1) * (DELTA + 1) + (DELTA + 1) * 0x1_0000_0000
  {
  }

  /** The key index is the bitwise sum of two numbers below 4: p and sum / 4, both modulo 4. */
  lemma KeyIndexBits(p: nat, sum: u32)
    ensures KeyIndex(p, sum) % 2 == (p % 4 % 2 + sum / 4 % 4 % 2) % 2
    ensures KeyIndex(p, sum) / 2 == (p % 4 / 2 + sum / 4 % 4 / 2) % 2
  {
    XorOfTwoBits(p % 4, sum / 4 % 4);
  }

  lemma XorOfTwoBits(a: nat, e: nat)
    requires a < 4 && e < 4
    ensures var x := ((a as bv2) ^ (e as bv2)) as int; x % 2 == (a % 2 + e % 2) % 2 && x / 2 == (a / 2 + e / 2) % 2
  {
    if a == 0 {
    } else if a == 1 {
    } else if a == 2 {
    } else {
    }
  }

  /** What each part of the mixing expression computes, when the other parts vanish. */
  lemma MixLaws(z: bv32, y: bv32, s: bv32, k: bv32)
    ensures MxBits(z, 0, 0, z) == z / 32 + z * 16
    ensures MxBits(0, y, y, 0) == y * 4 + y / 8
    ensures MxBits(0, 0, s, k) == s + k
  {
    hide *;
    ShiftedLaws(z);
    ShiftedLaws(y);
    ShiftedLaws(0);
    KeyedLaws(z, y, s, k);
    XorOf(Shifted(z, 0), z, 0, 0, z);
    XorOf(Shifted(0, y), 0, y, y, 0);
    XorOf(0, 0, 0, s, k);
  }

  lemma XorOf(x: bv32, z: bv32, y: bv32, s: bv32, k: bv32)
    requires Shifted(z, y) == x
    ensures x == 0 ==> MxBits(z, y, s, k) == Keyed(z, y, s, k)
    ensures Keyed(z, y, s, k) == 0 ==> MxBits(z, y, s, k) == x
  {
    hide Shifted;
    hide Keyed;
  }

  lemma ShiftedLaws(x: bv32)
    ensures Shifted(x, 0) == x / 32 + x * 16 && Shifted(0, x) == x * 4 + x / 8
    ensures Shifted(0, 0) == 0
  {
    hide *;
    ShiftedLeft(x);
    ShiftedRight(x);
    ShiftedLeft(0);
  }

  lemma ShiftedLeft(z: bv32)
    ensures Shifted(z, 0) == z / 32 + z * 16
  {
    ShiftLaws(z);
    assert Shifted(z, 0) == (z >> 5) + (z << 4);
    hide *;
  }

  lemma ShiftedRight(y: bv32)
    ensures Shifted(0, y) == y * 4 + y / 8
  {
    ShiftLaws(y);
    assert Shifted(0, y) == (y << 2) + (y >> 3);
    hide *;
  }

  lemma KeyedLaws(z: bv32, y: bv32, s: bv32, k: bv32)
    ensures Keyed(z, 0, 0, z) == 0 && Keyed(0, y, y, 0) == 0 && Keyed(0, 0, s, k) == s + k
  {
  }

  lemma ShiftLaws(x: bv32)
    ensures x >> 5 == x / 32 && x << 4 == x * 16 && x << 2 == x * 4 && x >> 3 == x / 8
  {
  }

  // ---------- the code's loops ----------

  lemma ReducedIs(x: nat, q: nat, t: nat)
    requires x == q * 0x1_0000_0000 + t && t < 0x1_0000_0000
    ensures x % 0x1_0000_0000 == t
  {
  }

  lemma AddReduced(x: nat)
    ensures Add32(x % 0x1_0000_0000, DELTA) == (x + DELTA) % 0x1_0000_0000
  {
    var q, t := x / 0x1_0000_0000, x % 0x1_0000_0000;
    if t + DELTA < 0x1_0000_0000 {
      ReducedIs(x + DELTA, q, t + DELTA);
    } else {
      ReducedIs(x + DELTA, q + 1, t + DELTA - 0x1_0000_0000);
    }
  }

  /** decrypt starts from q * DELTA, the sum that encrypt ended with. */
  lemma {:induction false} SumIsProduct(r: nat)
    ensures SumAfter(r) == r * DELTA % 0x1_0000_0000
  {
    if r > 0 {
      SumIsProduct(r - 1);
      AddReduced((r - 1) * DELTA);
      assert (r - 1) * DELTA + DELTA == r * DELTA;
    }
  }

  function PowerOf2(n: nat): (p: nat)
    ensures p > 0
  {
    if n == 0 then 1 else 2 * PowerOf2(n - 1)
  }

  lemma PowersOf2()
    ensures PowerOf2(32) == 0x1_0000_0000
  {
    assert PowerOf2(8) == 2 * (2 * (2 * (2 * (2 * (2 * (2 * (2 * PowerOf2(0))))))));
    assert PowerOf2(16) == 2 * (2 * (2 * (2 * (2 * (2 * (2 * (2 * PowerOf2(8))))))));
    assert PowerOf2(24) == 2 * (2 * (2 * (2 * (2 * (2 * (2 * (2 * PowerOf2(16))))))));
    assert PowerOf2(32) == 2 * (2 * (2 * (2 * (2 * (2 * (2 * (2 * PowerOf2(24))))))));
  }

  /** DELTA is odd, so every factor 2 of a multiple comes from the other factor. */
  lemma OddFactor(r: nat, x: int)
    requires r * DELTA == 2 * x
    ensures r % 2 == 0 && r / 2 * DELTA == x
  {
    assert r == 2 * (x - r * (DELTA / 2));
  }

  lemma {:induction false} NoEarlyMultiple(r: nat, k: nat, n: nat)
    requires r * DELTA == k * PowerOf2(n) && r < PowerOf2(n)
    ensures r == 0
    decreases n
  {
    if n > 0 {
      OddFactor(r, k * PowerOf2(n - 1));
      NoEarlyMultiple(r / 2, k, n - 1);
    }
  }

  /** The sum returns to zero only when all rounds are undone. */
  lemma SumIsZeroOnlyAtStart(r: nat)
    requires r < 0x1_0000_0000
    ensures SumAfter(r) == 0 <==> r == 0
  {
    SumIsProduct(r);
    if SumAfter(r) == 0 {
      PowersOf2();
      NoEarlyMultiple(r, r * DELTA / 0x1_0000_0000, 32);
    }
  }

  /** One pass of the encryption loop; m is XXTEA_MX with this round's sum and e. */
  method EncryptPass(v: array<u32>, z0: u32, m: Mixer) returns (z: u32)
    requires v.Length >= 2 && z0 == v[v.Length - 1]
    modifies v
    ensures v[..] == Forward(old(v[..]), 0, m) && z == v[v.Length - 1]
  {
    var n := v.Length - 1;
    z := z0;
    var y;
    for p := 0 to n
      invariant z == Left(v[..], p)
      invariant Forward(v[..], p, m) == Forward(old(v[..]), 0, m)
    {
      ghost var w := v[..];
      y := v[p + 1];
      z := Add32(v[p], m(p, z, y));
      v[p] := z;
      assert v[..] == Mix(w, p, m);
    }
    ghost var w := v[..];
    y := v[0];
    z := Add32(v[n], m(n, z, y));
    v[n] := z;
    assert v[..] == Mix(w, n, m);
  }

  /** One pass of the decryption loop. */
  method DecryptPass(v: array<u32>, y0: u32, m: Mixer) returns (y: u32)
    requires v.Length >= 2 && y0 == v[0]
    modifies v
    ensures v[..] == Backward(old(v[..]), v.Length, m) && y == v[0]
  {
    var n := v.Length - 1;
    y := y0;
    var z;
    var p := n;
    while p > 0
      invariant 0 <= p <= n && y == Right(v[..], p)
      invariant Backward(v[..], p + 1, m) == Backward(old(v[..]), n + 1, m)
    {
      ghost var w := v[..];
      z := v[p - 1];
      y := Sub32(v[p], m(p, z, y));
      v[p] := y;
      assert v[..] == Unmix(w, p, m);
      p := p - 1;
    }
    ghost var w := v[..];
    z := v[n];
    y := Sub32(v[0], m(0, z, y));
    v[0] := y;
    assert v[..] == Unmix(w, 0, m);
  }

  /** The encryption loop: q0 rounds, each with its own sum. */
  method EncryptLoop(v: array<u32>, mix: KeyedMixer, q0: nat)
    requires v.Length >= 2
    modifies v
    ensures v[..] == EncryptRounds(old(v[..]), mix, q0)
  {
    var q, z, sum := q0, v[v.Length - 1], 0;
    ghost var r: nat := 0;
    while 0 < q
      invariant r + q == q0 && sum == SumAfter(r) && z == v[v.Length - 1]
      invariant v[..] == EncryptRounds(old(v[..]), mix, r)
    {
      q, r := q - 1, r + 1;
      sum := Add32(sum, DELTA);
      z := EncryptPass(v, z, mix(sum));
    }
  }

  /** The decryption loop: from the sum after q rounds back to zero. */
  method DecryptLoop(v: array<u32>, mix: KeyedMixer, sum0: u32, ghost q: nat)
    requires v.Length >= 2 && q < 0x1_0000_0000 && sum0 == SumAfter(q)
    modifies v
    ensures v[..] == DecryptRounds(old(v[..]), mix, q)
  {
    var y, sum := v[0], sum0;
    ghost var r: nat := q;
    SumIsZeroOnlyAtStart(r);
    while sum != 0
      invariant r <= q && sum == SumAfter(r) && y == v[0] && (sum == 0 <==> r == 0)
      invariant DecryptRounds(v[..], mix, r) == DecryptRounds(old(v[..]), mix, q)
      decreases r
    {
      y := DecryptPass(v, y, mix(sum));
      r := r - 1;
      AddThenSub(SumAfter(r), DELTA);
      SumIsZeroOnlyAtStart(r);
      sum := Sub32(sum, DELTA);
    }
  }

  method LongEncrypt(v: array<u32>, k: array<u32>)
    requires v.Length >= 1 && k.Length == 4 && v != k
    modifies v
    ensures v[..] == Encrypt(old(v[..]), k[..])
  {
    hide KeyMixer;
    hide EncryptRounds;
    var n := v.Length - 1;
    var q := Rounds(n + 1);
    if n >= 1 {
      var mix := KeyMixer(k[..]);
      EncryptLoop(v, mix, q);
    }
  }

  method LongDecrypt(v: array<u32>, k: array<u32>)
    requires v.Length >= 1 && k.Length == 4 && v != k
    modifies v
    ensures v[..] == Decrypt(old(v[..]), k[..])
  {
    hide KeyMixer;
    hide DecryptRounds;
    hide SumAfter;
    var n := v.Length - 1;
    var q := Rounds(n + 1);
    if n >= 1 {
      var mix := KeyMixer(k[..]);
      SumIsProduct(q);
      DecryptLoop(v, mix, q * DELTA % 0x1_0000_0000, q);
    }
  }
}

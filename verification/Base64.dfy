/** Base64 (section 4 of RFC 4648): a positional definition, and the two loops that compute it. */
module Base64 {
  import opened Machine

  const PAD: byte := 61

  type sextet = x: int | 0 <= x < 64

  /** base64_table: A-Z, a-z, 0-9, '+', '/'. */
  function Alphabet(s: sextet): byte {
    if s < 26 then 65 + s else if s < 52 then 71 + s else if s < 62 then s - 4 else if s == 62 then 43 else 47
  }

  /** base64_reverse_table: the value of an alphabet character, and -1 for every other byte. */
  function Reverse(c: byte): (r: int)
    ensures -1 <= r < 64
  {
    if 65 <= c <= 90 then c - 65
    else if 97 <= c <= 122 then c - 71
    else if 48 <= c <= 57 then c + 4
    else if c == 43 then 62
    else if c == 47 then 63
    else -1
  }

  lemma ReverseAlphabet(s: sextet)
    ensures Reverse(Alphabet(s)) == s && Alphabet(s) != PAD && Alphabet(s) != 0
  {
  }

  /** The alphabet of section 4 of RFC 4648. */
  lemma AlphabetIsTable(s: sextet)
    ensures s < 26 ==> Alphabet(s) == 'A' as int + s
    ensures 26 <= s < 52 ==> Alphabet(s) == 'a' as int + (s - 26)
    ensures 52 <= s < 62 ==> Alphabet(s) == '0' as int + (s - 52)
    ensures Alphabet(62) == '+' as int && Alphabet(63) == '/' as int && PAD == '=' as int
  {
  }

  /** The reverse table knows exactly the characters of the alphabet. */
  lemma AlphabetReverse(c: byte)
    ensures Reverse(c) >= 0 <==> exists s: sextet :: Alphabet(s) == c
    ensures Reverse(c) >= 0 ==> Alphabet(Reverse(c)) == c
  {
    if Reverse(c) >= 0 {
      assert Alphabet(Reverse(c)) == c;
    }
    if s: sextet :| Alphabet(s) == c {
      ReverseAlphabet(s);
    }
  }

  // ---------- the definition, by position ----------

  /** Six-bit digit m of the data, each group of three bytes read as one 24-bit number. */
  function SextetAt(d: seq<byte>, m: nat): sextet {
    var g := 3 * (m / 4);
    var n := 0x1_0000 * ByteOr0(d, g) + 0x100 * ByteOr0(d, g + 1) + ByteOr0(d, g + 2);
    if m % 4 == 0 then n / 0x4_0000 else if m % 4 == 1 then n / 0x1000 % 64 else if m % 4 == 2 then n / 64 % 64 else n % 64
  }

  /** How many digits carry data bits. */
  function DigitCount(bytes: nat): nat {
    (4 * bytes + 2) / 3
  }

  function TextLength(bytes: nat): nat {
    (bytes + 2) / 3 * 4
  }

  function Encoded(d: seq<byte>): (t: seq<byte>)
    ensures |t| == TextLength(|d|)
  {
    seq(TextLength(|d|), m requires 0 <= m => if m < DigitCount(|d|) then Alphabet(SextetAt(d, m)) else PAD)
  }

  function ByteCount(digits: nat): nat {
    3 * digits / 4
  }

  /** The bits of the n-th digit of a group that open a byte, in place, and those that close one. */
  function High(v: sextet, n: nat): byte {
    var w: int := v;
    if n == 1 then w * 4 else if n == 2 then w % 16 * 16 else w % 4 * 64
  }

  function Low(v: sextet, n: nat): byte {
    if n == 1 then v / 16 else if n == 2 then v / 4 else v
  }

  /** High and low parts never overlap, so or-ing them is adding them. */
  function Joined(u: sextet, v: sextet, n: nat): byte
    requires 1 <= n <= 3
  {
    High(u, n) + Low(v, n)
  }

  /** Byte j of group g of a digit string: eight bits that straddle two neighbouring digits. */
  function ByteIn(s: seq<sextet>, g: nat, j: nat): byte
    requires j < 3 && 4 * g + j + 1 < |s|
  {
    Joined(s[4 * g + j], s[4 * g + j + 1], j + 1)
  }

  function BytesFrom(s: seq<sextet>): (d: seq<byte>)
    ensures |d| == ByteCount(|s|)
  {
    seq(ByteCount(|s|), k requires 0 <= k < ByteCount(|s|) => ByteIn(s, k / 3, k % 3))
  }

  predicate IsStop(c: byte) {
    c == 0 || c == PAD
  }

  /** Where decoding stops: the first NUL or pad character, or the given length. */
  function StopAt(str: seq<byte>, length: nat): (e: nat)
    requires length < |str|
    ensures e <= length
    ensures forall i :: 0 <= i < e ==> !IsStop(str[i])
    ensures e < length ==> IsStop(str[e])
  {
    if length == 0 || IsStop(str[0]) then 0 else StopAt(str[1..], length - 1) + 1
  }

  /** The digits of a text; characters outside the alphabet are skipped. */
  function Digits(t: seq<byte>): seq<sextet> {
    if t == [] then []
    else Digits(t[..|t| - 1]) + (if Reverse(t[|t| - 1]) < 0 then [] else [Reverse(t[|t| - 1])])
  }

  /** Decoding fails only on padding behind a lone digit. */
  function Decoded(str: seq<byte>, length: nat): Option<seq<byte>>
    requires length < |str|
  {
    var e := StopAt(str, length);
    var s := Digits(str[..e]);
    if str[e] == PAD && |s| % 4 == 1 then None else Some(BytesFrom(s))
  }

  // ---------- round trip ----------

  lemma DigitsConcat(a: seq<byte>, b: seq<byte>)
    ensures Digits(a + b) == Digits(a) + Digits(b)
  {
    if b == [] {
      assert a + b == a;
    } else {
      assert (a + b)[..|a + b| - 1] == a + b[..|b| - 1];
      DigitsConcat(a, b[..|b| - 1]);
    }
  }

  lemma StopIs(str: seq<byte>, length: nat, e: nat)
    requires e <= length < |str|
    requires forall i :: 0 <= i < e ==> !IsStop(str[i])
    requires e < length ==> IsStop(str[e])
    ensures StopAt(str, length) == e
  {
  }

  /** Digit j of the group of the three bytes a, b, c, in the shift-and-mask form of the code. */
  function DigitOf(a: byte, b: byte, c: byte, j: nat): sextet {
    if j == 0 then a / 4 else if j == 1 then a % 4 * 16 + b / 16 else if j == 2 then b % 16 * 4 + c / 64 else c % 64
  }

  lemma By64(n: nat, q: nat, r: nat)
    requires n == 64 * q + r && r < 64
    ensures n / 64 == q && n % 64 == r
  {
  }

  lemma By4096(n: nat, q: nat, r: nat)
    requires n == 0x1000 * q + r && r < 0x1000
    ensures n / 0x1000 == q && n / 0x4_0000 == q / 64
  {
  }

  lemma UpperDigits(n: nat, a: byte, b: byte, c: byte)
    requires n == 0x1_0000 * a + 0x100 * b + c
    ensures n / 0x4_0000 == a / 4 && n / 0x1000 % 64 == a % 4 * 16 + b / 16
  {
    By4096(n, 16 * a + b / 16, b % 16 * 0x100 + c);
    By64(16 * a + b / 16, a / 4, a % 4 * 16 + b / 16);
  }

  lemma LowerDigits(n: nat, a: byte, b: byte, c: byte)
    requires n == 0x1_0000 * a + 0x100 * b + c
    ensures n / 64 % 64 == b % 16 * 4 + c / 64 && n % 64 == c % 64
  {
    By64(n, 1024 * a + 4 * b + c / 64, c % 64);
    By64(1024 * a + 4 * b + c / 64, 16 * a + b / 16, b % 16 * 4 + c / 64);
  }

  /** The digits of the 24-bit number of a group are those of the shifts and masks. */
  lemma DigitsOfGroup(a: byte, b: byte, c: byte)
    ensures var n := 0x1_0000 * a + 0x100 * b + c;
            && n / 0x4_0000 == DigitOf(a, b, c, 0) && n / 0x1000 % 64 == DigitOf(a, b, c, 1)
            && n / 64 % 64 == DigitOf(a, b, c, 2) && n % 64 == DigitOf(a, b, c, 3)
  {
    UpperDigits(0x1_0000 * a + 0x100 * b + c, a, b, c);
    LowerDigits(0x1_0000 * a + 0x100 * b + c, a, b, c);
  }

  lemma SextetIsDigit(d: seq<byte>, g: nat, j: nat)
    requires j < 4
    ensures SextetAt(d, 4 * g + j) == DigitOf(ByteOr0(d, 3 * g), ByteOr0(d, 3 * g + 1), ByteOr0(d, 3 * g + 2), j)
  {
    assert (4 * g + j) / 4 == g && (4 * g + j) % 4 == j;
    DigitsOfGroup(ByteOr0(d, 3 * g), ByteOr0(d, 3 * g + 1), ByteOr0(d, 3 * g + 2));
  }

  function AllDigits(d: seq<byte>): (s: seq<sextet>)
    ensures |s| == DigitCount(|d|)
  {
    seq(DigitCount(|d|), m requires 0 <= m => SextetAt(d, m))
  }

  lemma JoinDigits(a: byte, b: byte, c: byte)
    ensures Joined(DigitOf(a, b, c, 0), DigitOf(a, b, c, 1), 1) == a
    ensures Joined(DigitOf(a, b, c, 1), DigitOf(a, b, c, 2), 2) == b
    ensures Joined(DigitOf(a, b, c, 2), DigitOf(a, b, c, 3), 3) == c
  {
    assert (a % 4 * 16 + b / 16) / 16 == a % 4;
    assert (a % 4 * 16 + b / 16) % 16 == b / 16;
    assert (b % 16 * 4 + c / 64) / 4 == b % 16;
    assert (b % 16 * 4 + c / 64) % 4 == c / 64;
  }

  lemma JoinedByte(s: seq<sextet>, g: nat, j: nat, a: byte, b: byte, c: byte)
    requires j < 3 && 4 * g + j + 1 < |s|
    requires s[4 * g + j] == DigitOf(a, b, c, j) && s[4 * g + j + 1] == DigitOf(a, b, c, j + 1)
    ensures ByteIn(s, g, j) == if j == 0 then a else if j == 1 then b else c
  {
    JoinDigits(a, b, c);
  }

  /** 3 bytes make 4 digits; 1 or 2 bytes left over make 2 or 3 digits, never 1. */
  lemma CountsOfGroup(g: nat, j: nat)
    requires j < 3
    ensures DigitCount(3 * g + j) == 4 * g + (if j == 0 then 0 else j + 1)
    ensures ByteCount(DigitCount(3 * g + j)) == 3 * g + j
    ensures DigitCount(3 * g + j) % 4 != 1
  {
    assert 4 * (3 * g + j) + 2 == 3 * (4 * g) + (4 * j + 2);
  }

  lemma ByteOfDigits(d: seq<byte>, s: seq<sextet>, g: nat, j: nat)
    requires j < 3 && 3 * g + j < |d| && 4 * g + j + 1 < |s| == DigitCount(|d|) && s == AllDigits(d)
    ensures ByteIn(s, g, j) == d[3 * g + j]
  {
    assert s[4 * g + j] == DigitOf(ByteOr0(d, 3 * g), ByteOr0(d, 3 * g + 1), ByteOr0(d, 3 * g + 2), j) by {
      SextetIsDigit(d, g, j);
    }
    assert s[4 * g + j + 1] == DigitOf(ByteOr0(d, 3 * g), ByteOr0(d, 3 * g + 1), ByteOr0(d, 3 * g + 2), j + 1) by {
      SextetIsDigit(d, g, j + 1);
    }
    JoinedByte(s, g, j, ByteOr0(d, 3 * g), ByteOr0(d, 3 * g + 1), ByteOr0(d, 3 * g + 2));
  }

  lemma DigitsSnoc(t: seq<byte>, x: byte)
    ensures Digits(t + [x]) == Digits(t) + (if Reverse(x) < 0 then [] else [Reverse(x)])
  {
    assert (t + [x])[..|t|] == t;
  }

  lemma EncodedDigit(d: seq<byte>, m: nat)
    requires m < DigitCount(|d|)
    ensures m < |Encoded(d)| && Encoded(d)[m] == Alphabet(SextetAt(d, m)) && AllDigits(d)[m] == SextetAt(d, m)
  {
  }

  lemma LastOf<T>(s: seq<T>, m: nat)
    requires 0 < m <= |s|
    ensures s[..m] == s[..m - 1] + [s[m - 1]]
  {
  }

  /** The digits of an encoded prefix. */
  lemma {:induction false} DigitsOfEncoded(d: seq<byte>, m: nat)
    requires m <= DigitCount(|d|)
    ensures m <= |Encoded(d)| && Digits(Encoded(d)[..m]) == AllDigits(d)[..m]
  {
    if m > 0 {
      hide *;
      DigitsOfEncoded(d, m - 1);
      EncodedDigit(d, m - 1);
      LastOf(Encoded(d), m);
      LastOf(AllDigits(d), m);
      DigitsSnoc(Encoded(d)[..m - 1], Alphabet(SextetAt(d, m - 1)));
      ReverseAlphabet(SextetAt(d, m - 1));
    }
  }

  lemma EncodedStops(d: seq<byte>, after: seq<byte>)
    ensures StopAt(Encoded(d) + [0] + after, |Encoded(d)|) == DigitCount(|d|)
  {
    var t := Encoded(d) + [0] + after;
    forall i | 0 <= i < DigitCount(|d|) ensures !IsStop(t[i]) {
      ReverseAlphabet(SextetAt(d, i));
    }
    StopIs(t, |Encoded(d)|, DigitCount(|d|));
  }

  lemma BytesOfDigits(d: seq<byte>)
    ensures BytesFrom(AllDigits(d)) == d
  {
    CountsOfGroup(|d| / 3, |d| % 3);
    var r := BytesFrom(AllDigits(d));
    assert |r| == |d|;
    forall k | 0 <= k < |d| ensures r[k] == d[k] {
      ByteOfDigits(d, AllDigits(d), k / 3, k % 3);
    }
  }

  /** Decoding the encoding of any bytes gives the bytes back. */
  lemma DecodeEncode(d: seq<byte>, after: seq<byte>)
    ensures Decoded(Encoded(d) + [0] + after, |Encoded(d)|) == Some(d)
  {
    var t, e := Encoded(d) + [0] + after, DigitCount(|d|);
    EncodedStops(d, after);
    DigitsOfEncoded(d, e);
    assert t[..e] == Encoded(d)[..e];
    assert Digits(t[..e]) == AllDigits(d);
    CountsOfGroup(|d| / 3, |d| % 3);
    BytesOfDigits(d);
  }

  /** Padding is not needed to decode what was encoded. */
  lemma PaddingIsOptional(d: seq<byte>)
    ensures var t := Encoded(d)[..DigitCount(|d|)] + [0]; Decoded(t, DigitCount(|d|)) == Some(d)
  {
    var e := DigitCount(|d|);
    var t := Encoded(d)[..e] + [0];
    EncodedStops(d, []);
    forall i | 0 <= i < e ensures !IsStop(t[i]) {
      assert t[i] == (Encoded(d) + [0] + [])[i];
    }
    StopIs(t, e, e);
    DigitsOfEncoded(d, e);
    assert t[..e] == Encoded(d)[..e];
    assert AllDigits(d)[..e] == AllDigits(d);
    BytesOfDigits(d);
  }

  /** A lone digit is an error before padding, and no bytes at the end of the text. */
  lemma LoneDigit(s: sextet)
    ensures Decoded([Alphabet(s), PAD], 1) == None && Decoded([Alphabet(s), 0], 1) == Some([])
  {
    var x := Alphabet(s);
    ReverseAlphabet(s);
    StopIs([x, PAD], 1, 1);
    StopIs([x, 0], 1, 1);
    assert [x, PAD][..1] == [x] && [x, 0][..1] == [x] && [x][..0] == [];
    assert Digits([x]) == [s];
  }

  lemma DigitsNoise(a: seq<byte>, x: byte, b: seq<byte>)
    requires Reverse(x) < 0
    ensures Digits(a + [x] + b) == Digits(a + b)
  {
    DigitsConcat(a + [x], b);
    DigitsConcat(a, [x]);
    DigitsConcat(a, b);
    assert [x][..0] == [];
    assert Digits([x]) == [];
  }

  lemma StopNoise(str: seq<byte>, length: nat, i: nat, x: byte)
    requires i <= length < |str| && !IsStop(x)
    ensures StopAt(str[..i] + [x] + str[i..], length + 1)
         == (if i <= StopAt(str, length) then StopAt(str, length) + 1 else StopAt(str, length))
  {
    var noisy, e := str[..i] + [x] + str[i..], StopAt(str, length);
    assert forall k :: 0 <= k < i ==> noisy[k] == str[k];
    assert noisy[i] == x;
    assert forall k :: i < k < |noisy| ==> noisy[k] == str[k - 1];
    StopIs(noisy, length + 1, if i <= e then e + 1 else e);
  }

  lemma NoisyDigits(str: seq<byte>, i: nat, x: byte, e: nat)
    requires i <= e < |str| && Reverse(x) < 0
    ensures var noisy := str[..i] + [x] + str[i..];
            Digits(noisy[..e + 1]) == Digits(str[..e]) && noisy[e + 1] == str[e]
  {
    hide *;
    var noisy := str[..i] + [x] + str[i..];
    assert noisy[..e + 1] == str[..i] + [x] + str[i..e];
    assert str[..e] == str[..i] + str[i..e];
    DigitsNoise(str[..i], x, str[i..e]);
  }

  /** A byte outside the alphabet that is neither NUL nor '=' can be put anywhere without changing the result. */
  lemma NoiseIsIgnored(str: seq<byte>, length: nat, i: nat, x: byte)
    requires i <= length < |str| && (forall s: sextet :: Alphabet(s) != x) && x != 0 && x != PAD
    ensures Decoded(str[..i] + [x] + str[i..], length + 1) == Decoded(str, length)
  {
    AlphabetReverse(x);
    hide Digits;
    hide StopAt;
    hide BytesFrom;
    hide Reverse;
    var noisy, e := str[..i] + [x] + str[i..], StopAt(str, length);
    StopNoise(str, length, i, x);
    if i <= e {
      NoisyDigits(str, i, x, e);
    } else {
      assert noisy[..e] == str[..e] && noisy[e] == str[e];
    }
  }

  // ---------- the code's loops ----------

  /** Character j of text group g. */
  function CharOf(d: seq<byte>, g: nat, j: nat): byte {
    if 4 * g + j < DigitCount(|d|)
    then Alphabet(DigitOf(ByteOr0(d, 3 * g), ByteOr0(d, 3 * g + 1), ByteOr0(d, 3 * g + 2), j)) else PAD
  }

  lemma EncodedAt(d: seq<byte>, g: nat, j: nat)
    requires j < 4 && 4 * g + j < TextLength(|d|)
    ensures Encoded(d)[4 * g + j] == CharOf(d, g, j)
  {
    SextetIsDigit(d, g, j);
  }

  lemma EncodedGroup(d: seq<byte>, g: nat)
    requires 3 * g < |d|
    ensures 4 * g + 4 <= TextLength(|d|)
    ensures Encoded(d)[..4 * g + 4]
         == Encoded(d)[..4 * g] + [CharOf(d, g, 0), CharOf(d, g, 1), CharOf(d, g, 2), CharOf(d, g, 3)]
  {
    hide Encoded;
    hide CharOf;
    EncodedAt(d, g, 0);
    EncodedAt(d, g, 1);
    EncodedAt(d, g, 2);
    EncodedAt(d, g, 3);
  }

  /** Four characters are written behind the p that are there. */
  method PutGroup(text: array<byte>, p: nat, c0: byte, c1: byte, c2: byte, c3: byte)
    requires p + 4 <= text.Length
    modifies text
    ensures text[..p + 4] == old(text[..p]) + [c0, c1, c2, c3]
  {
    text[p] := c0;
    text[p + 1] := c1;
    text[p + 2] := c2;
    text[p + 3] := c3;
  }

  lemma FullGroup(d: seq<byte>, g: nat)
    requires 3 * g + 3 <= |d|
    ensures CharOf(d, g, 0) == Alphabet(d[3 * g] / 4)
    ensures CharOf(d, g, 1) == Alphabet(d[3 * g] % 4 * 16 + d[3 * g + 1] / 16)
    ensures CharOf(d, g, 2) == Alphabet(d[3 * g + 1] % 16 * 4 + d[3 * g + 2] / 64)
    ensures CharOf(d, g, 3) == Alphabet(d[3 * g + 2] % 64)
  {
    assert DigitCount(|d|) >= 4 * g + 4;
  }

  lemma LastGroup(d: seq<byte>, g: nat)
    requires 3 * g < |d| < 3 * g + 3
    ensures CharOf(d, g, 0) == Alphabet(d[3 * g] / 4) && CharOf(d, g, 3) == PAD
    ensures |d| == 3 * g + 1 ==> CharOf(d, g, 1) == Alphabet(d[3 * g] % 4 * 16) && CharOf(d, g, 2) == PAD
    ensures |d| == 3 * g + 2 ==> CharOf(d, g, 1) == Alphabet(d[3 * g] % 4 * 16 + d[3 * g + 1] / 16)
    ensures |d| == 3 * g + 2 ==> CharOf(d, g, 2) == Alphabet(d[3 * g + 1] % 16 * 4)
  {
    CountsOfGroup(g, |d| - 3 * g);
  }

  /** The loop over full groups. */
  method EncodeGroups(str: seq<byte>, text: array<byte>) returns (g: nat)
    requires text.Length == TextLength(|str|) + 1
    modifies text
    ensures 3 * g <= |str| < 3 * g + 3 && 4 * g < text.Length && text[..4 * g] == Encoded(str)[..4 * g]
  {
    hide Encoded;
    hide Alphabet;
    hide CharOf;
    var p, c, length := 0, 0, |str|;
    g := 0;
    while length > 2
      invariant c == 3 * g && p == 4 * g && c + length == |str| && length >= 0
      invariant p <= TextLength(|str|) && text[..p] == Encoded(str)[..p]
    {
      FullGroup(str, g);
      EncodedGroup(str, g);
      PutGroup(text, p, Alphabet(str[c] / 4), Alphabet(str[c] % 4 * 16 + str[c + 1] / 16),
               Alphabet(str[c + 1] % 16 * 4 + str[c + 2] / 64), Alphabet(str[c + 2] % 64));
      p, c, length, g := p + 4, c + 3, length - 3, g + 1;
    }
  }

  /** Returns null when the length check fails, and otherwise the text with its closing NUL. */
  method Encode(str: seq<byte>) returns (result: array?<byte>, retLength: nat)
    ensures result == null <==> (|str| + 2) / 3 >= 0x4000_0000
    ensures result != null ==> fresh(result) && result[..] == Encoded(str) + [0] && retLength == |Encoded(str)|
    ensures result == null ==> retLength == 0
  {
    hide Encoded;
    hide Alphabet;
    hide CharOf;
    var length := |str|;
    if (length + 2) / 3 >= 0x4000_0000 {
      return null, 0;
    }
    var text := new byte[TextLength(length) + 1];
    var g := EncodeGroups(str, text);
    var p, c := 4 * g, 3 * g;
    if length != c {
      LastGroup(str, g);
      EncodedGroup(str, g);
      if length > c + 1 {
        PutGroup(text, p, Alphabet(str[c] / 4), Alphabet(str[c] % 4 * 16 + str[c + 1] / 16),
                 Alphabet(str[c + 1] % 16 * 4), PAD);
      } else {
        PutGroup(text, p, Alphabet(str[c] / 4), Alphabet(str[c] % 4 * 16), PAD, PAD);
      }
      p := p + 4;
    }
    assert p == TextLength(length);
    text[p] := 0;
    return text, p;
  }

  /** The output buffer after the digits s: finished bytes, then the high bits of the next one. */
  ghost predicate Partial(r: seq<byte>, j: nat, s: seq<sextet>) {
    && j == ByteCount(|s|) < |r|
    && (forall k :: 0 <= k < j ==> r[k] == ByteIn(s, k / 3, k % 3))
    && (|s| % 4 != 0 ==> r[j] == High(s[|s| - 1], |s| % 4))
  }

  lemma EarlierBytes(s: seq<sextet>, v: sextet, k: nat)
    requires k < ByteCount(|s|)
    ensures ByteIn(s + [v], k / 3, k % 3) == ByteIn(s, k / 3, k % 3)
  {
  }

  /** The byte that digit v completes. */
  lemma NewByte(s: seq<sextet>, v: sextet, g: nat, n: nat)
    requires |s| == 4 * g + n && 1 <= n <= 3
    ensures ByteCount(|s|) == 3 * g + n - 1 && ByteCount(|s| + 1) == 3 * g + n
    ensures ByteIn(s + [v], g, n - 1) == Joined(s[|s| - 1], v, n)
  {
    assert (s + [v])[4 * g + n - 1] == s[|s| - 1];
  }

  lemma PushDigit(r: seq<byte>, r': seq<byte>, j: nat, s: seq<sextet>, v: sextet)
    requires Partial(r, j, s) && |r'| == |r| && ByteCount(|s| + 1) < |r|
    requires forall k :: 0 <= k < j ==> r'[k] == r[k]
    requires var n := |s| % 4;
             if n == 0 then r'[j] == High(v, 1)
             else r'[j] == r[j] + Low(v, n) && (n < 3 ==> j + 1 < |r| && r'[j + 1] == High(v, n + 1))
    ensures Partial(r', if |s| % 4 == 0 then j else j + 1, s + [v])
  {
    hide High;
    hide Low;
    var g, n, s' := |s| / 4, |s| % 4, s + [v];
    assert ByteCount(4 * g + 1) == 3 * g && ByteCount(4 * g) == 3 * g;
    if n != 0 {
      NewByte(s, v, g, n);
      assert j / 3 == g && j % 3 == n - 1;
    }
    forall k | 0 <= k < ByteCount(|s'|) ensures r'[k] == ByteIn(s', k / 3, k % 3) {
      if k < j {
        EarlierBytes(s, v, k);
      }
    }
  }

  /** The decoder's switch: one more digit goes into the buffer. */
  method PutDigit(buf: array<byte>, i: nat, j0: nat, ch: sextet, ghost s: seq<sextet>) returns (j: nat)
    requires Partial(buf[..], j0, s) && i == |s| && i + 1 < buf.Length
    modifies buf
    ensures Partial(buf[..], j, s + [ch])
  {
    ghost var r := buf[..];
    j := j0;
    if i % 4 == 0 {
      buf[j] := ch * 4;
    } else if i % 4 == 1 {
      buf[j] := buf[j] + ch / 16;
      j := j + 1;
      buf[j] := ch % 16 * 16;
    } else if i % 4 == 2 {
      buf[j] := buf[j] + ch / 4;
      j := j + 1;
      buf[j] := ch % 4 * 64;
    } else {
      buf[j] := buf[j] + ch;
      j := j + 1;
    }
    PushDigit(r, buf[..], j0, s, ch);
  }

  /** Returns null on a lone digit before padding, and otherwise the decoded bytes with a closing NUL. */
  method Decode(str: seq<byte>, length: nat) returns (result: array?<byte>, retLength: nat)
    requires length < |str|
    ensures result == null <==> Decoded(str, length) == None
    ensures result != null ==> fresh(result) && result.Length == length + 1 && retLength < result.Length
    ensures result != null ==> result[retLength] == 0 && Decoded(str, length) == Some(result[..retLength])
  {
    var buf := new byte[length + 1](_ => 0);
    var c, i := 0, 0;
    var j: nat := 0;
    ghost var s := [];
    while str[c] != 0 && c < length
      invariant c <= length && i == |s| <= c && s == Digits(str[..c])
      invariant forall k :: 0 <= k < c ==> !IsStop(str[k])
      invariant Partial(buf[..], j, s)
      decreases length - c
    {
      if str[c] == PAD {
        break;
      }
      var ch := Reverse(str[c]);
      assert str[..c + 1][..c] == str[..c];
      c := c + 1;
      if ch < 0 {
        continue;
      }
      j := PutDigit(buf, i, j, ch, s);
      s := s + [ch];
      i := i + 1;
    }
    StopIs(str, length, c);
    ghost var done := buf[..];
    if str[c] == PAD {
      if i % 4 == 1 {
        return null, 0;
      }
      var k := if i % 4 == 2 then j + 1 else j;
      if i % 4 == 2 || i % 4 == 3 {
        buf[k] := 0;
      }
    }
    buf[j] := 0;
    assert buf[..j] == done[..j] == BytesFrom(s);
    return buf, j;
  }

  // ---------- examples of section 10 of RFC 4648 ----------

  /** "f", "fo" and "foo" become "Zg==", "Zm8=" and "Zm9v". */
  lemma Examples()
    ensures Encoded([102]) == [90, 103, 61, 61]
    ensures Encoded([102, 111]) == [90, 109, 56, 61]
    ensures Encoded([102, 111, 111]) == [90, 109, 57, 118]
  {
    hide Encoded;
    hide CharOf;
    OneGroup([102]);
    OneGroup([102, 111]);
    OneGroup([102, 111, 111]);
    LastGroup([102], 0);
    LastGroup([102, 111], 0);
    FullGroup([102, 111, 111], 0);
  }

  lemma OneGroup(d: seq<byte>)
    requires 1 <= |d| <= 3
    ensures Encoded(d) == [CharOf(d, 0, 0), CharOf(d, 0, 1), CharOf(d, 0, 2), CharOf(d, 0, 3)]
  {
    EncodedGroup(d, 0);
    assert Encoded(d)[..0] == [] && Encoded(d)[..4] == Encoded(d);
  }
}

/** The stored form of a TLS session: the hex text of a time stamp followed by the session bytes. */
module SessionEntry {
  import opened Machine

  // Seconds since the epoch, as time() returns them; a time_t is eight bytes, least significant first.
  type time = x: int | 0 <= x < 0x8000_0000_0000_0000

  const STAMP_SIZE: nat := 8

  function LittleEndian(t: nat, n: nat): (b: seq<byte>)
    ensures |b| == n
  {
    if n == 0 then [] else [t % 0x100] + LittleEndian(t / 0x100, n - 1)
  }

  function Unsigned(b: seq<byte>): nat {
    if b == [] then 0 else b[0] + 0x100 * Unsigned(b[1..])
  }

  /** A time_t read back from eight bytes is a signed number. */
  function StampOf(b: seq<byte>): int
    requires |b| == STAMP_SIZE
  {
    var u := Unsigned(b);
    if u < 0x8000_0000_0000_0000 then u else u - 0x1_0000_0000_0000_0000
  }

  function HexDigit(v: nat): byte
    requires v < 16
  {
    if v < 10 then 48 + v else 55 + v
  }

  function HexValue(c: byte): (v: int)
    ensures -1 <= v < 16
  {
    if 48 <= c <= 57 then c - 48 else if 65 <= c <= 70 then c - 55 else if 97 <= c <= 102 then c - 87 else -1
  }

  /** acl_hex_encode, by contract. */
  function HexEncode(b: seq<byte>): (t: seq<byte>)
    ensures |t| == 2 * |b|
  {
    if b == [] then [] else [HexDigit(b[0] / 16), HexDigit(b[0] % 16)] + HexEncode(b[1..])
  }

  /** acl_hex_decode, by contract: it fails on an odd length and on a character that is no hex digit. */
  function HexDecode(t: seq<byte>): (b: Option<seq<byte>>)
    ensures b.Some? ==> |t| == 2 * |b.value|
  {
    if t == [] then Some([])
    else if |t| == 1 || HexValue(t[0]) < 0 || HexValue(t[1]) < 0 then None
    else match HexDecode(t[2..])
      case None => None
      case Some(rest) => Some([HexValue(t[0]) * 16 + HexValue(t[1])] + rest)
  }

  function Encode(session: seq<byte>, now: time): seq<byte> {
    HexEncode(LittleEndian(now, STAMP_SIZE) + session)
  }

  /** The stamp and the session of a stored text, if it is well formed. */
  function Parse(text: seq<byte>): Option<(int, seq<byte>)> {
    if |text| < 2 * STAMP_SIZE then None
    else match HexDecode(text)
      case None => None
      case Some(b) => Some((StampOf(b[..STAMP_SIZE]), b[STAMP_SIZE..]))
  }

  /** Well formed and not expired at time `at`. */
  predicate Live(text: seq<byte>, timeout: int, at: int) {
    match Parse(text)
    case None => false
    case Some((stamp, _)) => stamp + timeout >= at
  }

  /** tls_scache_decode: the session of a live entry. */
  function Decode(text: seq<byte>, timeout: int, now: int): Option<seq<byte>> {
    match Parse(text)
    case None => None
    case Some((stamp, session)) => if stamp + timeout < now then None else Some(session)
  }

  lemma DecodeIffLive(text: seq<byte>, timeout: int, now: int)
    ensures Decode(text, timeout, now).Some? <==> Live(text, timeout, now)
  {
  }

  /** What is live now was live before. */
  lemma LiveEarlier(text: seq<byte>, timeout: int, earlier: int, later: int)
    requires earlier <= later && Live(text, timeout, later)
    ensures Live(text, timeout, earlier)
  {
  }

  lemma DigitRoundTrip(v: nat)
    requires v < 16
    ensures HexValue(HexDigit(v)) == v
  {
  }

  lemma {:induction false} HexRoundTrip(b: seq<byte>)
    ensures HexDecode(HexEncode(b)) == Some(b)
  {
    if b != [] {
      hide HexValue;
      hide HexDigit;
      HexRoundTrip(b[1..]);
      DigitRoundTrip(b[0] / 16);
      DigitRoundTrip(b[0] % 16);
      var t := HexEncode(b);
      assert t[0] == HexDigit(b[0] / 16) && t[1] == HexDigit(b[0] % 16) && t[2..] == HexEncode(b[1..]);
      assert [b[0]] + b[1..] == b;
    }
  }

  function Power(n: nat): nat {
    if n == 0 then 1 else 0x100 * Power(n - 1)
  }

  lemma {:induction false} LittleEndianRoundTrip(t: nat, n: nat)
    requires t < Power(n)
    ensures Unsigned(LittleEndian(t, n)) == t
  {
    if n > 0 {
      assert t / 0x100 < Power(n - 1);
      LittleEndianRoundTrip(t / 0x100, n - 1);
      assert LittleEndian(t, n)[1..] == LittleEndian(t / 0x100, n - 1);
    }
  }

  lemma StampRoundTrip(now: time)
    ensures StampOf(LittleEndian(now, STAMP_SIZE)) == now
  {
    assert Power(8) == 0x100 * (0x100 * (0x100 * (0x100 * Power(4))));
    assert Power(4) == 0x1_0000_0000;
    LittleEndianRoundTrip(now, STAMP_SIZE);
  }

  /** A stored session parses back to exactly what was stored. */
  lemma ParseEncode(session: seq<byte>, now: time)
    ensures Parse(Encode(session, now)) == Some((now as int, session))
  {
    var b := LittleEndian(now, STAMP_SIZE) + session;
    HexRoundTrip(b);
    StampRoundTrip(now);
    assert b[..STAMP_SIZE] == LittleEndian(now, STAMP_SIZE) && b[STAMP_SIZE..] == session;
  }

  predicate IsHex(t: seq<byte>) {
    |t| % 2 == 0 && forall i :: 0 <= i < |t| ==> HexValue(t[i]) >= 0
  }

  lemma {:induction false} HexDecodesIff(t: seq<byte>)
    ensures HexDecode(t).Some? <==> IsHex(t)
    decreases |t|
  {
    if |t| >= 2 {
      HexDecodesIff(t[2..]);
      assert forall i :: 2 <= i < |t| ==> t[i] == t[2..][i - 2];
    }
  }

  /** A stored text is malformed iff it is too short for a time stamp, or is not hex text. */
  lemma ParsesIff(text: seq<byte>)
    ensures Parse(text).Some? <==> |text| >= 2 * STAMP_SIZE && IsHex(text)
  {
    HexDecodesIff(text);
  }

  /** A malformed entry is never alive; a well-formed one is alive exactly until its timeout has passed. */
  lemma LiveIff(text: seq<byte>, timeout: int, at: int)
    ensures Live(text, timeout, at) <==> Parse(text).Some? && at - Parse(text).value.0 <= timeout
  {
  }

  lemma {:induction false} UnsignedOfLast(b: seq<byte>)
    requires |b| > 0
    ensures Unsigned(b) == Unsigned(b[..|b| - 1]) + Power(|b| - 1) * b[|b| - 1] && Unsigned(b) < Power(|b|)
    decreases |b|
  {
    if |b| == 1 {
      assert b[1..] == [] && b[..0] == [];
      assert Power(1) == 0x100 * Power(0);
    } else {
      var rest, n := b[1..], |b| - 1;
      UnsignedOfLast(rest);
      assert rest[..n - 1] == b[..n][1..] && b[..n][0] == b[0];
      assert Power(n) == 0x100 * Power(n - 1) && Power(n + 1) == 0x100 * Power(n);
      assert 0x100 * (Power(n - 1) * b[n]) == Power(n) * b[n];
    }
  }

  /** A time stamp is negative iff its last byte has its top bit set, so that such an entry is long dead. */
  lemma NegativeStamp(b: seq<byte>)
    requires |b| == STAMP_SIZE
    ensures StampOf(b) < 0 <==> b[7] >= 0x80
  {
    assert Power(8) == 0x1_0000_0000_0000_0000 && Power(7) == 0x100_0000_0000_0000 by {
      assert Power(4) == 0x1_0000_0000;
      assert Power(7) == 0x100 * (0x100 * (0x100 * Power(4)));
      assert Power(8) == 0x100 * Power(7);
    }
    UnsignedOfLast(b);
    UnsignedOfLast(b[..7]);
  }

  /** It comes back until its timeout has passed. */
  lemma DecodeEncode(session: seq<byte>, saved: time, timeout: int, now: int)
    ensures Decode(Encode(session, saved), timeout, now) == if saved + timeout < now then None else Some(session)
  {
    ParseEncode(session, saved);
  }
}

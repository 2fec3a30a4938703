/** The 32-bit block time of a header: four big-endian bytes, and the same as hex digits. */
module Ntime {
  import opened Basics

  const MODULUS: int := 0x1_0000_0000

  type Word = n: int | 0 <= n < MODULUS

  type Four = b: ByteString | |b| == 4 witness Zeros(4)

  /** htobe32. */
  function ToBytes(n: Word): Four {
    var n1 := n / 256;
    var n2 := n1 / 256;
    [n2 / 256, n2 % 256, n1 % 256, n % 256]
  }

  /** be32toh. */
  function FromBytes(b: Four): Word {
    ((b[0] as int * 256 + b[1]) * 256 + b[2]) * 256 + b[3]
  }

  lemma FromToBytes(n: Word)
    ensures FromBytes(ToBytes(n)) == n
  {
    var n1 := n / 256;
    var n2 := n1 / 256;
    assert n2 == n2 / 256 * 256 + n2 % 256;
    assert n1 == n2 * 256 + n1 % 256;
    assert n == n1 * 256 + n % 256;
  }

  /** The first byte that differs decides which time is later. */
  lemma FirstByteDecides(a: Four, b: Four, k: nat)
    requires k < 4 && a[..k] == b[..k] && a[k] < b[k]
    ensures FromBytes(a) < FromBytes(b)
  {
    assert forall i :: 0 <= i < k ==> a[i] == a[..k][i] == b[..k][i] == b[i];
  }

  function Shifted(n: Word, offset: int): Word {
    (n + offset) % MODULUS
  }

  lemma ShiftedZero(n: Word)
    ensures Shifted(n, 0) == n
  {
  }

  lemma ShiftedTwice(n: Word, a: int, b: int)
    ensures Shifted(Shifted(n, a), b) == Shifted(n, a + b)
  {
  }

  /** Offsets less than 2^32 apart give different times. */
  lemma ShiftedInjective(n: Word, a: int, b: int)
    requires a < b < a + MODULUS
    ensures Shifted(n, a) != Shifted(n, b)
  {
  }

  // ----- hex digits

  function Digit(d: nat): char
    requires d < 16
  {
    "0123456789abcdef"[d]
  }

  function Value(c: char): nat {
    if '0' <= c <= '9' then (c - '0') as nat
    else if 'a' <= c <= 'f' then (c - 'a') as nat + 10
    else if 'A' <= c <= 'F' then (c - 'A') as nat + 10
    else 0
  }

  function Hex(b: ByteString): (h: string)
    ensures |h| == 2 * |b|
  {
    if b == [] then "" else [Digit(b[0] / 16), Digit(b[0] % 16)] + Hex(b[1..])
  }

  /** Two digits for each byte, the high one first. */
  lemma {:induction false} HexDigits(b: ByteString, i: nat)
    requires i < |b|
    ensures Hex(b)[2 * i] == "0123456789abcdef"[b[i] / 16] && Hex(b)[2 * i + 1] == "0123456789abcdef"[b[i] % 16]
  {
    if i > 0 {
      HexDigits(b[1..], i - 1);
    }
  }

  /** Decodes `n` pairs of hex digits. */
  function Unhex(h: string, n: nat): (b: ByteString)
    requires |h| >= 2 * n
    ensures |b| == n
  {
    if n == 0 then [] else [(Value(h[0]) * 16 + Value(h[1])) % 256] + Unhex(h[2..], n - 1)
  }

  lemma DigitValue(d: nat)
    requires d < 16
    ensures Value(Digit(d)) == d && (d >= 10 ==> Value("ABCDEF"[d - 10]) == d)
  {
  }

  lemma PairValue(x: Byte)
    ensures (Value(Digit(x / 16)) * 16 + Value(Digit(x % 16))) % 256 == x
  {
    DigitValue(x / 16);
    DigitValue(x % 16);
  }

  lemma {:induction false} HexRoundTrip(b: ByteString)
    ensures Unhex(Hex(b), |b|) == b
  {
    hide Digit, Value;
    if b != [] {
      var h := Hex(b);
      PairValue(b[0]);
      HexRoundTrip(b[1..]);
      assert h[2..] == Hex(b[1..]);
    }
  }

  /** modify_ntime and offset_ntime: decode the digits, add, encode again. */
  function ShiftHex(h: string, offset: int): (r: string)
    requires |h| >= 8
    ensures |r| == 8
  {
    Hex(ToBytes(Shifted(FromBytes(Unhex(h, 4)), offset)))
  }

  /** On digits that show the header bytes, shifting the digits shows the shifted bytes. */
  lemma ShiftHexTracksBytes(b: Four, offset: int)
    ensures ShiftHex(Hex(b), offset) == Hex(ToBytes(Shifted(FromBytes(b), offset)))
  {
    HexRoundTrip(b);
  }
}

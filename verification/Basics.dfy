/** Types and small sequence facts that several parts of the model share. */
module Basics {

  datatype Option<+T> = None | Some(value: T) {
    function GetOr(default: T): T {
      if None? then default else value
    }
  }

  type Byte = b: int | 0 <= b < 256

  type ByteString = seq<Byte>

  function Zeros(n: nat): (z: ByteString)
    ensures |z| == n
  {
    seq(n, _ => 0)
  }

  function Pow(b: nat, e: nat): nat {
    if e == 0 then 1 else b * Pow(b, e - 1)
  }

  function Max(a: int, b: int): int {
    if a < b then b else a
  }

  function Min(a: int, b: int): int {
    if a < b then a else b
  }

  ghost predicate Distinct<T>(s: seq<T>) {
    forall i, j :: 0 <= i < j < |s| ==> s[i] != s[j]
  }

  /** memcpy of `piece` into `buf` at offset `at`. */
  function Overwrite<T>(buf: seq<T>, at: nat, piece: seq<T>): (r: seq<T>)
    requires at + |piece| <= |buf|
    ensures |r| == |buf|
    ensures r[at..at + |piece|] == piece
    ensures forall i :: 0 <= i < |buf| && !(at <= i < at + |piece|) ==> r[i] == buf[i]
  {
    buf[..at] + piece + buf[at + |piece|..]
  }

  lemma Rejoin<T>(s: seq<T>, i: nat)
    requires i < |s|
    ensures (s[..i] + [s[i]]) + s[i + 1..] == s
  {
  }

  /** Little-endian encoding of the low `width` bytes of `n` (htole64 followed by a
      memcpy of `width` bytes). */
  function LittleEndian(n: nat, width: nat): (r: ByteString)
    ensures |r| == width
  {
    if width == 0 then [] else [n % 256] + LittleEndian(n / 256, width - 1)
  }

  function FromLittleEndian(b: ByteString): nat {
    if b == [] then 0 else b[0] + 256 * FromLittleEndian(b[1..])
  }

  lemma PowPositive(b: nat, e: nat)
    requires b > 0
    ensures Pow(b, e) > 0
  {
  }

  lemma PowStep(b: nat, e: nat)
    requires b > 0
    ensures Pow(b, e) > 0 && Pow(b, 0) == 1
    ensures e > 0 ==> Pow(b, e - 1) > 0 && Pow(b, e) == b * Pow(b, e - 1)
  {
    PowPositive(b, e);
    if e > 0 {
      PowPositive(b, e - 1);
    }
  }

  lemma {:induction false} LittleEndianRoundTrip(n: nat, width: nat)
    ensures Pow(256, width) > 0
    ensures FromLittleEndian(LittleEndian(n, width)) == n % Pow(256, width)
  {
    if width > 0 {
      LittleEndianRoundTrip(n / 256, width - 1);
      SplitMod(n, Pow(256, width - 1));
    }
  }

  lemma SplitMod(n: nat, p: nat)
    requires p > 0
    ensures n % (256 * p) == n % 256 + 256 * ((n / 256) % p)
  {
    var q, r := (n / 256) / p, (n / 256) % p;
    assert n / 256 == q * p + r;
    assert n == 256 * (q * p + r) + n % 256;
    assert 256 * (q * p) == q * (256 * p);
    ModUnique(n, 256 * p, q, 256 * r + n % 256);
  }

  lemma ModUnique(n: int, d: int, q: int, r: int)
    requires d > 0 && 0 <= r < d && n == q * d + r
    ensures n % d == r && n / d == q
  {
    var k := n / d - q;
    assert n == (n / d) * d + n % d;
    assert k * d == r - n % d;
    assert k > 0 ==> k * d >= d;
    assert k < 0 ==> k * d <= -d;
  }

  lemma ModShift(n: int, k: int, d: int)
    requires d > 0
    ensures (n + k * d) % d == n % d && (n + k * d) / d == n / d + k
  {
    assert n + k * d == (n / d + k) * d + n % d by {
      assert (n / d + k) * d == (n / d) * d + k * d;
    }
    ModUnique(n + k * d, d, n / d + k, n % d);
  }

  lemma MulAtLeast(k: nat, d: nat)
    requires d > 0
    ensures k * d >= k
    ensures k > 1 ==> k * d > d
  {
  }

  lemma MultipleAtLeast(m: nat, d: nat)
    requires d > 0 && m > 0 && m % d == 0
    ensures d <= m
  {
  }

  lemma {:induction false} FromLittleEndianRoundTrip(b: ByteString)
    ensures FromLittleEndian(b) < Pow(256, |b|) && LittleEndian(FromLittleEndian(b), |b|) == b
  {
    if b != [] {
      FromLittleEndianRoundTrip(b[1..]);
    }
  }

  /** Byte `i` is the digit of 256^i. */
  lemma {:induction false} LittleEndianDigit(n: nat, width: nat, i: nat)
    requires i < width
    ensures Pow(256, i) > 0 && LittleEndian(n, width)[i] == n / Pow(256, i) % 256
  {
    PowPositive(256, i);
    if i > 0 {
      LittleEndianDigit(n / 256, width - 1, i - 1);
      DivTwice(n, 256, Pow(256, i - 1));
    }
  }

  lemma DivTwice(n: nat, a: nat, b: nat)
    requires a > 0 && b > 0
    ensures a * b > 0 && n / (a * b) == n / a / b
  {
    FloorParts(n, a);
    FloorParts(n / a, b);
    NestedFloor(n, a, b, n / a, n % a, n / a / b, n / a % b);
  }

  lemma NestedFloor(n: nat, a: nat, b: nat, m: nat, t: nat, q: nat, r: nat)
    requires n == m * a + t && t < a && m == q * b + r && r < b
    ensures a * b > 0 && n / (a * b) == q
  {
    Regroup(m, q, b, r, a, t);
    ModUnique(n, a * b, q, r * a + t);
  }

  lemma FloorParts(n: nat, d: nat)
    requires d > 0
    ensures n == (n / d) * d + n % d && n % d < d
  {
  }

  lemma Regroup(m: nat, q: nat, b: nat, r: nat, a: nat, t: nat)
    requires m == q * b + r && r < b && t < a
    ensures m * a + t == q * (a * b) + (r * a + t) && r * a + t < a * b
  {
    assert (q * b + r) * a == q * (a * b) + r * a;
    assert r * a <= (b - 1) * a == a * b - a;
  }

  /** Two numbers get the same encoding exactly when they agree modulo 256^width. */
  lemma LittleEndianInjective(m: nat, n: nat, width: nat)
    ensures Pow(256, width) > 0
    ensures LittleEndian(m, width) == LittleEndian(n, width)
            <==> m % Pow(256, width) == n % Pow(256, width)
  {
    LittleEndianRoundTrip(m, width);
    LittleEndianRoundTrip(n, width);
    if m % Pow(256, width) == n % Pow(256, width) {
      LittleEndianDependsOnMod(m, n, width);
    }
  }

  lemma {:induction false} LittleEndianDependsOnMod(m: nat, n: nat, width: nat)
    requires Pow(256, width) > 0
    requires m % Pow(256, width) == n % Pow(256, width)
    ensures LittleEndian(m, width) == LittleEndian(n, width)
  {
    if width > 0 {
      PowPositive(256, width - 1);
      SplitMod(m, Pow(256, width - 1));
      SplitMod(n, Pow(256, width - 1));
      LittleEndianDependsOnMod(m / 256, n / 256, width - 1);
    }
  }
}

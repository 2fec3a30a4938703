/** The common divisor by which pool quotas are scaled down. The search lowers one candidate
    over the pools in order and never goes back, so it is not always the greatest common
    divisor. */
module Quota {
  import opened Basics

  /** The largest divisor of `q` that is at most `c`. */
  function DivisorUpTo(q: nat, c: nat): (d: nat)
    requires q > 0 && c > 0
    ensures 1 <= d <= c && q % d == 0
    ensures forall e :: d < e <= c ==> q % e != 0
  {
    if q % c == 0 then c else DivisorUpTo(q, c - 1)
  }

  /** The candidate after each pool has lowered it in turn. */
  function Scan(quotas: seq<nat>, c: nat): (d: nat)
    requires c > 0
    ensures 1 <= d <= c
  {
    if quotas == [] then c
    else if quotas[0] == 0 then Scan(quotas[1..], c)
    else Scan(quotas[1..], DivisorUpTo(quotas[0], c))
  }

  /** The least non-zero quota, if there is one. */
  function Least(quotas: seq<nat>): (r: Option<nat>)
    ensures r.Some? ==> r.value > 0 && r.value in quotas
    ensures r.Some? ==> forall q :: q in quotas && q > 0 ==> r.value <= q
    ensures r.None? ==> forall q :: q in quotas ==> q == 0
  {
    if quotas == [] then None
    else
      var last := quotas[|quotas| - 1];
      assert quotas == quotas[..|quotas| - 1] + [last];
      match Least(quotas[..|quotas| - 1])
      case None => if last == 0 then None else Some(last)
      case Some(m) => if last == 0 || m <= last then Some(m) else Some(last)
  }

  function Divisor(quotas: seq<nat>): (d: nat)
    ensures d >= 1
  {
    match Least(quotas)
    case None => 1
    case Some(m) => Scan(quotas, m)
  }

  ghost predicate DividesAll(d: nat, quotas: seq<nat>)
    requires d > 0
  {
    forall q :: q in quotas ==> q % d == 0
  }

  /** `g` is the greatest common divisor of the quotas. */
  ghost predicate IsGreatest(g: nat, quotas: seq<nat>) {
    && g > 0 && DividesAll(g, quotas)
    && forall d :: d > 0 && DividesAll(d, quotas) ==> d <= g
  }

  ghost predicate SomeQuota(quotas: seq<nat>) {
    exists q :: q in quotas && q > 0
  }

  lemma {:induction false} ScanKeepsCommon(quotas: seq<nat>, c: nat, d: nat)
    requires 0 < d <= c && DividesAll(d, quotas)
    ensures d <= Scan(quotas, c)
  {
    if quotas != [] {
      assert quotas[0] in quotas && forall q :: q in quotas[1..] ==> q in quotas;
      ScanKeepsCommon(quotas[1..], if quotas[0] == 0 then c else DivisorUpTo(quotas[0], c), d);
    }
  }

  /** The result lies between every common divisor and every non-zero quota, so every
      non-zero quota keeps at least one unit. */
  lemma DivisorBounds(quotas: seq<nat>, d: nat)
    requires d > 0 && DividesAll(d, quotas) && SomeQuota(quotas)
    ensures d <= Divisor(quotas)
    ensures forall q :: q in quotas && q > 0 ==> Divisor(quotas) <= q && q / Divisor(quotas) >= 1
  {
    var m := Least(quotas).value;
    assert m % d == 0 && m > 0;
    MultipleAtLeast(m, d);
    ScanKeepsCommon(quotas, m, d);
    forall q | q in quotas && q > 0
      ensures Divisor(quotas) <= q && q / Divisor(quotas) >= 1
    {
      DivAtLeastOne(q, Divisor(quotas));
    }
  }

  /** Without any quota there is nothing to scale. */
  lemma NoQuotaNoScaling(quotas: seq<nat>)
    ensures (forall q :: q in quotas ==> q == 0) ==> Divisor(quotas) == 1
  {
  }

  lemma DivAtLeastOne(q: nat, d: nat)
    requires 0 < d <= q
    ensures q / d >= 1
  {
  }

  /** The last pool with a quota is always divided exactly. */
  lemma {:induction false} ScanDividesLast(quotas: seq<nat>, k: nat, c: nat)
    requires k < |quotas| && quotas[k] > 0 && c > 0
    requires forall i :: k < i < |quotas| ==> quotas[i] == 0
    ensures quotas[k] % Scan(quotas, c) == 0
  {
    var c' := if quotas[0] == 0 then c else DivisorUpTo(quotas[0], c);
    if k > 0 {
      ScanDividesLast(quotas[1..], k - 1, c');
    } else {
      ScanZeros(quotas[1..], c');
    }
  }

  lemma {:induction false} ScanZeros(quotas: seq<nat>, c: nat)
    requires c > 0 && forall i :: 0 <= i < |quotas| ==> quotas[i] == 0
    ensures Scan(quotas, c) == c
  {
    if quotas != [] {
      ScanZeros(quotas[1..], c);
    }
  }

  /** The search finds the greatest common divisor exactly when its result divides every
      quota; then the scaled quotas keep all ratios. */
  lemma DivisorIsGreatestIff(quotas: seq<nat>)
    requires SomeQuota(quotas)
    ensures IsGreatest(Divisor(quotas), quotas) <==> DividesAll(Divisor(quotas), quotas)
    ensures DividesAll(Divisor(quotas), quotas) ==>
              forall d :: d > 0 && DividesAll(d, quotas) ==> d <= Divisor(quotas)
    ensures DividesAll(Divisor(quotas), quotas) ==>
              forall p, q :: p in quotas && q in quotas ==>
                p * (q / Divisor(quotas)) == q * (p / Divisor(quotas))
  {
    hide Divisor;
    var g := Divisor(quotas);
    if DividesAll(g, quotas) {
      forall d | d > 0 && DividesAll(d, quotas)
        ensures d <= g
      {
        DivisorBounds(quotas, d);
      }
      forall p, q | p in quotas && q in quotas
        ensures p * (q / g) == q * (p / g)
      {
        RatioKept(p, q, g);
      }
    }
  }

  lemma RatioKept(p: nat, q: nat, g: nat)
    requires g > 0 && p % g == 0 && q % g == 0
    ensures p * (q / g) == q * (p / g)
  {
    var a, b := p / g, q / g;
    assert p == a * g && q == b * g;
    MulExchange(a, b, g);
  }

  lemma MulExchange(a: int, b: int, g: int)
    ensures (a * g) * b == (b * g) * a
  {
  }

  /** A way to go through the quotas that picks a divisor of each, never a larger one than
      before, starting at no more than `c`. */
  predicate Chain(quotas: seq<nat>, c: nat, ds: seq<nat>) {
    if quotas == [] then ds == []
    else ds != [] && 0 < ds[0] <= c && quotas[0] % ds[0] == 0 && Chain(quotas[1..], ds[0], ds[1..])
  }

  function End(c: nat, ds: seq<nat>): nat
    decreases |ds|
  {
    if ds == [] then c else End(ds[0], ds[1..])
  }

  lemma LargestDivisor(q: nat, c: nat, e: nat)
    requires q > 0 && 0 < e <= c && q % e == 0
    ensures e <= DivisorUpTo(q, c)
  {
  }

  lemma {:induction false} ChainBelowScan(quotas: seq<nat>, low: nat, c: nat, ds: seq<nat>)
    requires 0 < low <= c && Chain(quotas, low, ds)
    ensures End(low, ds) <= Scan(quotas, c)
  {
    if quotas != [] {
      if quotas[0] > 0 {
        LargestDivisor(quotas[0], c, ds[0]);
      }
      ChainBelowScan(quotas[1..], ds[0], if quotas[0] == 0 then c else DivisorUpTo(quotas[0], c), ds[1..]);
    }
  }

  /** The candidates of the search. */
  function Candidates(quotas: seq<nat>, c: nat): (ds: seq<nat>)
    requires c > 0
  {
    if quotas == [] then []
    else
      var next := if quotas[0] == 0 then c else DivisorUpTo(quotas[0], c);
      [next] + Candidates(quotas[1..], next)
  }

  lemma {:induction false} CandidatesAreChain(quotas: seq<nat>, c: nat)
    requires c > 0
    ensures Chain(quotas, c, Candidates(quotas, c)) && End(c, Candidates(quotas, c)) == Scan(quotas, c)
  {
    if quotas != [] {
      var next := if quotas[0] == 0 then c else DivisorUpTo(quotas[0], c);
      CandidatesAreChain(quotas[1..], next);
      assert Candidates(quotas, c)[1..] == Candidates(quotas[1..], next);
    }
  }

  /** On the quotas alone: the search finds their greatest common divisor exactly when no such
      way through them, from the least one on, ends above it. */
  lemma FindsGreatestIffNoChainAbove(quotas: seq<nat>, g: nat)
    requires SomeQuota(quotas) && IsGreatest(g, quotas)
    ensures Divisor(quotas) == g <==>
              forall ds :: Chain(quotas, Least(quotas).value, ds) ==> End(Least(quotas).value, ds) <= g
  {
    hide Scan, Chain, End, Candidates, DividesAll;
    var m := Least(quotas).value;
    DivisorBounds(quotas, g);
    assert Divisor(quotas) == Scan(quotas, m);
    forall ds | Chain(quotas, m, ds)
      ensures End(m, ds) <= Divisor(quotas)
    {
      ChainBelowScan(quotas, m, m, ds);
    }
    CandidatesAreChain(quotas, m);
    var cs := Candidates(quotas, m);
    if Divisor(quotas) != g {
      assert Chain(quotas, Least(quotas).value, cs) && !(End(Least(quotas).value, cs) <= g);
    }
  }

  /** A simple condition that is enough: the least one divides all others. */
  lemma LeastDividesAll(quotas: seq<nat>)
    requires SomeQuota(quotas)
    requires DividesAll(Least(quotas).value, quotas)
    ensures Divisor(quotas) == Least(quotas).value && IsGreatest(Divisor(quotas), quotas)
  {
    DivisorBounds(quotas, Least(quotas).value);
    DivisorIsGreatestIff(quotas);
  }

  /** Quotas 9 and 10 are scaled by 5, although their greatest common divisor is 1. */
  lemma NotTheGreatest()
    ensures Divisor([9, 10]) == 5
    ensures !IsGreatest(Divisor([9, 10]), [9, 10])
    ensures Divisor([10, 9]) == 3
  {
    assert Least([9, 10]) == Some(9) && Least([10, 9]) == Some(9);
    assert DivisorUpTo(10, 9) == DivisorUpTo(10, 5) == 5;
    assert DivisorUpTo(9, 5) == 3;
    assert Scan([9, 10], 9) == Scan([10], 9) == 5;
    assert [10, 9][1..] == [9];
    assert Scan([10, 9], 9) == Scan([9], 5) == Scan([], 3) == 3;
    assert 9 in [9, 10] && 9 % 5 == 4;
  }

  // ----- rescaling the used counters when the divisor changes

  const TWO_TO_31: int := 0x8000_0000
  const TWO_TO_32: int := 0x1_0000_0000
  const TWO_TO_64: int := 0x1_0000_0000_0000_0000

  /** What an unsigned long can hold: 2^32 values on 32-bit systems (and on Windows), 2^64 on
      the others. */
  type Word = w: int | w == TWO_TO_32 || w == TWO_TO_64 witness TWO_TO_64

  /** Storing an unsigned value into a 32-bit int. */
  function ToInt32(u: nat): (r: int)
    ensures Fits(r)
  {
    var low := u % TWO_TO_32;
    if low >= TWO_TO_31 then low - TWO_TO_32 else low
  }

  /** What an int can hold. */
  ghost predicate Fits(n: int) {
    -TWO_TO_31 <= n < TWO_TO_31
  }

  /** The two compound assignments of the source, with their conversions: the counter is an
      int, both divisors are unsigned long. */
  function Rescaled(word: Word, used: int, oldDivisor: nat, newDivisor: nat): (r: int)
    requires newDivisor > 0
    ensures Fits(r)
  {
    var product := ToInt32((used % word) * oldDivisor % word);
    ToInt32((product % word) / newDivisor)
  }

  lemma ModOfProduct(n: int, f: int, d: int)
    requires d > 0
    ensures (n % d) * f % d == n * f % d
  {
    var k := n / d;
    assert n * f == (n % d) * f + (k * f) * d by {
      assert n == k * d + n % d;
      assert (k * d + n % d) * f == (k * f) * d + (n % d) * f;
    }
    ModShift((n % d) * f, k * f, d);
  }

  /** The conversion gives the one value in range that has the same low 32 bits. */
  lemma SameLowBits(u: nat, n: int)
    requires Fits(n)
    ensures ToInt32(u) == n <==> u % TWO_TO_32 == n % TWO_TO_32
  {
    if n < 0 {
      ModUnique(n, TWO_TO_32, -1, n + TWO_TO_32);
    } else {
      ModUnique(n, TWO_TO_32, 0, n);
    }
  }

  lemma LowBits(word: Word, n: int)
    ensures n % word % TWO_TO_32 == n % TWO_TO_32
  {
    var k, h := n / word, word / TWO_TO_32;
    assert word == h * TWO_TO_32;
    assert n == n % word + (k * h) * TWO_TO_32 by {
      assert n == n % word + k * word;
      assert k * (h * TWO_TO_32) == (k * h) * TWO_TO_32;
    }
    ModShift(n % word, k * h, TWO_TO_32);
  }

  /** The multiplication is exact, also for a negative counter. */
  lemma ProductExact(word: Word, used: int, oldDivisor: nat)
    requires Fits(used * oldDivisor)
    ensures ToInt32((used % word) * oldDivisor % word) == used * oldDivisor
  {
    var p := used * oldDivisor;
    ModOfProduct(used, oldDivisor, word);
    LowBits(word, p);
    SameLowBits(p % word, p);
  }

  lemma QuotientFits(p: int, d: nat)
    requires d > 0 && Fits(p)
    ensures Fits(p / d) && (p >= 0 ==> p / d >= 0)
  {
    var q := p / d;
    assert p == q * d + p % d;
    if p >= 0 {
      MulAtLeast(q, d);
    } else {
      MulAtLeast(-p, d);
      assert p * d <= p < q * d + d == (q + 1) * d;
      GreaterFactor(q + 1, p, d);
    }
  }

  lemma GreaterFactor(a: int, b: int, d: nat)
    requires a * d > b * d
    ensures a > b
  {
  }

  /** Dividing a negative int as an unsigned long is right in the low 32 bits exactly for a
      divisor of what the word has beyond them: only 1 if it has 32 bits, a power of two if it
      has 64. */
  predicate Survives(word: Word, d: nat)
    requires d > 0
  {
    if word == TWO_TO_32 then d == 1 else TWO_TO_32 % d == 0
  }

  lemma NegativeQuotient(word: Word, p: int, d: nat)
    requires Fits(p) && p < 0 && 0 < d <= TWO_TO_31
    ensures ((p + word) / d) % TWO_TO_32 == (p / d) % TWO_TO_32 <==> Survives(word, d)
  {
    var h := word / TWO_TO_32;
    assert word == h * TWO_TO_32;
    assert Survives(word, d) <==> h % d == 0 by {
      if d > 1 {
        ModUnique(1, d, 0, 1);
      }
    }
    if h % d == 0 {
      var m := h / d;
      assert m * d == h;
      assert (m * TWO_TO_32) * d == word by {
        assert (m * TWO_TO_32) * d == (m * d) * TWO_TO_32;
      }
      ModShift(p, m * TWO_TO_32, d);
      ModShift(p / d, m, TWO_TO_32);
    } else if ((p + word) / d) % TWO_TO_32 == (p / d) % TWO_TO_32 {
      SameLowQuotient(word, h, p, d, (p + word) / d, p / d);
    }
  }

  /** If both quotients agree in their low 32 bits, the remainders have to be equal. */
  lemma SameLowQuotient(word: Word, h: int, p: int, d: nat, q: int, r: int)
    requires 0 < d <= TWO_TO_31 && word == h * TWO_TO_32 && q == (p + word) / d && r == p / d
    requires q % TWO_TO_32 == r % TWO_TO_32
    ensures h % d == 0
  {
    var k := q / TWO_TO_32 - r / TWO_TO_32;
    var a, b := (p + word) % d, p % d;
    assert q - r == k * TWO_TO_32;
    assert p + word == q * d + a && p == r * d + b;
    assert word == (k * d) * TWO_TO_32 + (a - b) by {
      assert q * d - r * d == (q - r) * d;
      assert (k * TWO_TO_32) * d == (k * d) * TWO_TO_32;
    }
    assert a - b == (h - k * d) * TWO_TO_32;
    assert k * d == h;
    ModUnique(h, d, k, 0);
  }

  /** Exactly when a counter is scaled as intended (rounding down): when it is not negative, or
      the new divisor is 1 on a system with a 32-bit word, a power of two with a 64-bit word. */
  lemma RescaledExactIff(word: Word, used: int, oldDivisor: nat, newDivisor: nat)
    requires Fits(used) && Fits(used * oldDivisor) && 0 < newDivisor <= TWO_TO_31
    ensures Rescaled(word, used, oldDivisor, newDivisor) == used * oldDivisor / newDivisor
            <==> used * oldDivisor >= 0 || Survives(word, newDivisor)
  {
    ProductExact(word, used, oldDivisor);
    UnsignedQuotient(word, used * oldDivisor, newDivisor);
  }

  lemma UnsignedQuotient(word: Word, p: int, d: nat)
    requires Fits(p) && 0 < d <= TWO_TO_31
    ensures ToInt32((p % word) / d) == p / d <==> p >= 0 || Survives(word, d)
  {
    assert word > 0;
    hide *;
    QuotientFits(p, d);
    SameLowBits((p % word) / d, p / d);
    AsUnsigned(word, p);
    if p < 0 {
      NegativeQuotient(word, p, d);
    }
  }

  lemma AsUnsigned(word: Word, p: int)
    requires Fits(p)
    ensures p % word == if p >= 0 then p else p + word
  {
    ModUnique(p, word, if p >= 0 then 0 else -1, if p >= 0 then p else p + word);
  }

  /** A counter that is not negative and does not overflow is always scaled as intended. */
  lemma RescaledExact(word: Word, used: nat, oldDivisor: nat, newDivisor: nat)
    requires newDivisor > 0 && Fits(used) && Fits(used * oldDivisor)
    ensures Rescaled(word, used, oldDivisor, newDivisor) == used * oldDivisor / newDivisor
  {
    if newDivisor <= TWO_TO_31 {
      RescaledExactIff(word, used, oldDivisor, newDivisor);
    } else {
      ProductExact(word, used, oldDivisor);
      ModUnique(used * oldDivisor, word, 0, used * oldDivisor);
      ModUnique(used * oldDivisor, newDivisor, 0, used * oldDivisor);
    }
  }

  /** A counter of -1 survives a divisor of 2 with a 64-bit word only, and one of 3 with none. */
  lemma NegativeCounterMisscaled()
    ensures Rescaled(TWO_TO_64, -1, 1, 2) == -1 && Rescaled(TWO_TO_32, -1, 1, 2) == 0x7FFF_FFFF
    ensures forall word: Word :: Rescaled(word, -1, 1, 3) == 0x5555_5555
  {
    RescaledExactIff(TWO_TO_64, -1, 1, 2);
    assert -1 / 2 == -1 && TWO_TO_32 % 2 == 0;
    ProductExact(TWO_TO_32, -1, 1);
    assert (TWO_TO_32 - 1) / 2 == 0x7FFF_FFFF && ToInt32(0x7FFF_FFFF) == 0x7FFF_FFFF;
    forall word: Word
      ensures Rescaled(word, -1, 1, 3) == 0x5555_5555
    {
      ProductExact(word, -1, 1);
      assert (TWO_TO_64 - 1) / 3 == 0x5555_5555_5555_5555 && (TWO_TO_32 - 1) / 3 == 0x5555_5555;
      assert ToInt32(0x5555_5555_5555_5555) == 0x5555_5555 && ToInt32(0x5555_5555) == 0x5555_5555;
    }
  }
}

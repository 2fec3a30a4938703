/** The clock divider search of the A1 driver. The chip derives its clock as
    sys = ref * fbDiv / (preDiv * 2^(postDiv - 1)). */
module A1Pll {
  import opened Basics

  const MAX_FB := 511

  const MAX_PRE := 31

  const TWO_TO_32: int := 0x1_0000_0000

  datatype Dividers = Dividers(pre: nat, post: nat, fb: nat)

  /** 1, 2 or 4. */
  function PostFactor(post: nat): nat
    requires 1 <= post <= 3
  {
    if post == 1 then 1 else if post == 2 then 2 else 4
  }

  ghost predicate Divides(d: nat, n: nat)
    requires d > 0
  {
    n % d == 0
  }

  ghost predicate IsGcd(g: nat, a: nat, b: nat) {
    && g > 0 && Divides(g, a) && Divides(g, b)
    && forall d: nat :: d > 0 && Divides(d, a) && Divides(d, b) ==> d <= g
  }

  /** The common divisors of two numbers, as a property that each step of the loop keeps. */
  ghost predicate SameDivisors(a: nat, b: nat, c: nat, d: nat) {
    forall x: nat :: x > 0 ==> (Divides(x, a) && Divides(x, b) <==> Divides(x, c) && Divides(x, d))
  }

  lemma DividesStep(x: nat, a: nat, b: nat)
    requires x > 0 && b > 0
    ensures Divides(x, a) && Divides(x, b) <==> Divides(x, b) && Divides(x, a % b)
  {
    var q, r := a / b, a % b;
    assert a == q * b + r;
    if Divides(x, b) {
      var k := b / x;
      assert b == k * x;
      assert a == (q * k) * x + r by {
        assert q * (k * x) == (q * k) * x;
      }
      ModShift(r, q * k, x);
    }
  }

  /** Euclid's loop. */
  method Gcd(ref: nat, sys: nat) returns (a: nat)
    requires ref > 0
    ensures IsGcd(a, ref, sys)
  {
    a := ref;
    var b: nat := sys;
    while b != 0
      invariant a > 0 && SameDivisors(a, b, ref, sys)
      decreases b
    {
      var h := a % b;
      forall x: nat | x > 0
        ensures Divides(x, a) && Divides(x, b) <==> Divides(x, b) && Divides(x, h)
      {
        DividesStep(x, a, b);
      }
      a, b := b, h;
    }
    GcdAtEnd(a, ref, sys);
  }

  lemma GcdAtEnd(a: nat, ref: nat, sys: nat)
    requires a > 0 && SameDivisors(a, 0, ref, sys)
    ensures IsGcd(a, ref, sys)
  {
    assert Divides(a, a) && Divides(a, 0);
    forall d: nat | d > 0 && Divides(d, ref) && Divides(d, sys)
      ensures d <= a
    {
      assert Divides(d, a) && Divides(d, 0);
      MultipleAtLeast(a, d);
    }
  }

  // ----- reduced fractions

  ghost predicate Coprime(m: nat, n: nat) {
    forall x: nat :: x > 0 && Divides(x, m) && Divides(x, n) ==> x == 1
  }

  lemma DividesScaled(d: nat, g: nat, a: nat)
    requires d > 0 && g > 0 && Divides(g, a) && Divides(d, a / g)
    ensures d * g > 0 && Divides(d * g, a)
  {
    var m := (a / g) / d;
    assert a == (a / g) * g && a / g == m * d;
    assert (m * d) * g == m * (d * g);
    MulAtLeast(d, g);
    ModUnique(a, d * g, m, 0);
  }

  /** Dividing by the greatest common divisor leaves no common divisor. */
  lemma ReducedCoprime(g: nat, a: nat, b: nat)
    requires IsGcd(g, a, b)
    ensures Coprime(a / g, b / g)
  {
    forall d: nat | d > 0 && Divides(d, a / g) && Divides(d, b / g)
      ensures d == 1
    {
      DividesScaled(d, g, a);
      DividesScaled(d, g, b);
      MulAtLeast(d, g);
    }
  }

  /** A divisor of a product that has nothing in common with one factor divides the other. */
  lemma {:induction false} DividesOtherFactor(d: nat, a: nat, b: nat)
    requires d > 0 && Coprime(d, a) && Divides(d, a * b)
    ensures Divides(d, b)
    decreases d
  {
    var q, r := a / d, a % d;
    assert a == q * d + r;
    if r == 0 {
      assert Divides(d, d) && Divides(d, a);
    } else {
      assert a * b == (q * b) * d + r * b by {
        assert (q * d + r) * b == (q * b) * d + r * b;
      }
      ModShift(r * b, q * b, d);
      var k := (r * b) / d;
      assert r * b == k * d;
      CoprimeStep(d, a);
      ModUnique(d * k, r, b, 0);
      DividesOtherFactor(r, d, k);
      var t := k / r;
      assert k == t * r;
      Cancel(r, b, t, d);
      ModUnique(b, d, t, 0);
    }
  }

  lemma CoprimeStep(d: nat, a: nat)
    requires d > 0 && Coprime(d, a) && a % d > 0
    ensures Coprime(a % d, d)
  {
    forall x: nat | x > 0 && Divides(x, a % d) && Divides(x, d)
      ensures x == 1
    {
      DividesStep(x, a, d);
    }
  }

  lemma Cancel(r: nat, b: nat, t: nat, d: nat)
    requires r > 0 && r * b == (t * r) * d
    ensures b == t * d
  {
    assert (t * r) * d == r * (t * d);
    SameFactor(r, b, t * d);
  }

  lemma SameFactor(r: nat, x: nat, y: nat)
    requires r > 0 && r * x == r * y
    ensures x == y
  {
  }

  // ----- the search

  /** The multiplier chosen when the exact feedback divider does not fit. The source's last test
      compares two constants, so a multiplier of 2 is never chosen. */
  function Multiplier(f: nat): nat {
    if f < 32 then 16 else if f < 64 then 8 else if f < 128 then 4 else 1
  }

  /** As much as possible of the divider goes to the post divider. */
  function Post(n: nat): (p: nat)
    ensures 1 <= p <= 3 && n % PostFactor(p) == 0
  {
    if n % 4 == 0 then 3 else if n % 2 == 0 then 2 else 1
  }

  /** The divider before it is split, and the feedback divider with it: the reduced fraction
      if that fits 9 bits, else an approximation with a divider of 16, 8, 4 or 1. The product
      is taken modulo 2^32. */
  function Fraction(fb: nat, n: nat): (r: (nat, nat))
    requires n > 0
    ensures r.1 > 0
  {
    if fb <= MAX_FB then (fb, n) else (WrappedProduct(Multiplier(fb / n), fb) / n, Multiplier(fb / n))
  }

  function WrappedProduct(m: nat, fb: nat): nat {
    m * fb % TWO_TO_32
  }

  /** Splits a divider: the pre divider is an 8-bit variable that is then limited to 31. */
  function Split(f: nat, d: nat): (x: Dividers)
    ensures 1 <= x.post <= 3
  {
    var pre := d / PostFactor(Post(d)) % 256;
    if pre > MAX_PRE then Dividers(MAX_PRE, Post(d), MAX_PRE * f / pre) else Dividers(pre, Post(d), f)
  }

  function Fields(fb: nat, n: nat): (x: Dividers)
    requires n > 0
    ensures 1 <= x.post <= 3
  {
    Split(Fraction(fb, n).0, Fraction(fb, n).1)
  }

  function Divider(x: Dividers): nat
    requires 1 <= x.post <= 3
  {
    x.pre * PostFactor(x.post)
  }

  /** `x` is the best choice of feedback divider for its divider, and hits the ratio f/n or not. */
  ghost predicate Approximates(x: Dividers, f: nat, n: nat, exact: bool) {
    && 1 <= x.pre <= MAX_PRE && 1 <= x.post <= 3 && x.fb <= MAX_FB
    && n * x.fb <= Divider(x) * f < n * x.fb + n
    && (n * x.fb == Divider(x) * f <==> exact)
  }

  /** A reduced fraction that fits is hit exactly, unless its pre divider is above 31; then it
      never is. */
  lemma FractionFits(f: nat, n: nat)
    requires n > 0 && f <= MAX_FB && Coprime(n, f)
    requires n / PostFactor(Post(n)) < 256
    ensures Approximates(Fields(f, n), f, n, n / PostFactor(Post(n)) <= MAX_PRE)
  {
    hide Post, Coprime, Fields;
    var p := PostFactor(Post(n));
    var q := n / p;
    assert n == q * p;
    FieldsThatFit(f, n);
    if q > MAX_PRE {
      FloorBounds(MAX_PRE * f, q);
      FloorSmaller(f, q, MAX_PRE * f / q);
      PreDividerTooBig(f, n, p, q, MAX_PRE * f / q);
    }
  }

  lemma FieldsThatFit(f: nat, n: nat)
    requires n > 0 && f <= MAX_FB && n / PostFactor(Post(n)) < 256
    ensures n / PostFactor(Post(n)) > 0
    ensures var q := n / PostFactor(Post(n));
            Fields(f, n) == if q > MAX_PRE then Dividers(MAX_PRE, Post(n), MAX_PRE * f / q)
                            else Dividers(q, Post(n), f)
  {
    hide Post;
    QuotientPositive(n, PostFactor(Post(n)));
  }

  lemma PreDividerTooBig(f: nat, n: nat, p: nat, q: nat, fb: nat)
    requires n == q * p && p > 0 && q > MAX_PRE && Coprime(n, f)
    requires q * fb <= MAX_PRE * f < q * fb + q
    ensures n * fb < (MAX_PRE * p) * f < n * fb + n
  {
    hide Coprime;
    Scale(q * fb, MAX_PRE * f, q * fb + q, p);
    Reorder(q, p, fb);
    Reorder(MAX_PRE, p, f);
    assert (q * fb + q) * p == (q * fb) * p + q * p;
    if q * fb == MAX_PRE * f {
      CoprimePart(n, q, p, f);
      ModUnique(f * MAX_PRE, q, fb, 0);
      DividesOtherFactor(q, f, MAX_PRE);
    }
  }

  lemma Reorder(a: nat, b: nat, c: nat)
    ensures (a * b) * c == (a * c) * b
  {
  }

  lemma FloorBounds(x: nat, q: nat)
    requires q > 0
    ensures q * (x / q) <= x < q * (x / q) + q
  {
  }

  lemma FloorSmaller(f: nat, q: nat, k: nat)
    requires q > MAX_PRE && q * k <= MAX_PRE * f
    ensures k <= f
  {
    AtMost(k, MAX_PRE + 1, q);
  }

  lemma Scale(a: nat, b: nat, c: nat, p: nat)
    requires a <= b < c && p > 0
    ensures a * p <= b * p < c * p
    ensures a * p == b * p <==> a == b
  {
  }

  lemma CoprimePart(n: nat, q: nat, p: nat, f: nat)
    requires n == q * p && p > 0 && q > 0 && Coprime(n, f)
    ensures Coprime(q, f)
  {
    forall x: nat | x > 0 && Divides(x, q) && Divides(x, f)
      ensures x == 1
    {
      var k := q / x;
      assert q == k * x;
      Reorder(k, x, p);
      assert n == (k * p) * x;
      ModUnique(n, x, k * p, 0);
    }
  }

  /** A fraction that does not fit is never hit. */
  lemma FractionTooBig(f: nat, n: nat)
    requires n > 0 && MAX_FB < f < 0x1000_0000 && f / n < 512 && Coprime(n, f)
    ensures Approximates(Fields(f, n), f, n, false)
  {
    hide Fields, Coprime, Multiplier;
    var m := Multiplier(f / n);
    var fb := m * f / n;
    FieldsTooBig(f, n, m, Fields(f, n));
    FloorBounds(m * f, n);
    ApproximationFits(f, n);
    assert n * fb != m * f by {
      NeverExact(f, n, m, fb);
    }
  }

  /** A reduced fraction has no smaller numerator. */
  lemma NeverExact(f: nat, n: nat, m: nat, fb: nat)
    requires n > 0 && m > 0 && Coprime(n, f) && fb < f
    ensures n * fb != m * f
  {
    hide Coprime;
    if n * fb == m * f {
      ModUnique(f * m, n, fb, 0);
      DividesOtherFactor(n, f, m);
      var t := m / n;
      assert m == t * n;
      Reorder(t, n, f);
      SameFactor(n, fb, t * f);
      assert t > 0;
      MulAtLeast(f, t);
    }
  }

  lemma FieldsTooBig(f: nat, n: nat, m: nat, x: Dividers)
    requires n > 0 && MAX_FB < f < 0x1000_0000
    requires m == Multiplier(f / n) && x == Fields(f, n)
    ensures m > 0 && 1 <= x.pre <= MAX_PRE && Divider(x) == m
    ensures x.fb == m * f / n
  {
    assert m * f < TWO_TO_32;
    ModSmall(m * f, TWO_TO_32);
  }

  lemma ModSmall(x: nat, d: nat)
    requires x < d
    ensures x % d == x
  {
  }

  lemma MultiplierBound(q: nat)
    requires q < 512
    ensures Multiplier(q) > 0 && Multiplier(q) * (q + 1) <= 512
  {
  }

  /** The multiplier is the largest of the four for which the feedback divider still fits. */
  lemma MultiplierIsLargest(q: nat, m: nat)
    requires q < 512 && m in {1, 4, 8, 16}
    ensures Multiplier(q) in {1, 4, 8, 16}
    ensures m <= Multiplier(q) <==> m * (q + 1) <= 512
  {
  }

  lemma ApproximationFits(f: nat, n: nat)
    requires n > 0 && f / n < 512
    ensures Multiplier(f / n) * f / n <= MAX_FB
  {
    hide Multiplier;
    var q, m := f / n, Multiplier(f / n);
    MultiplierBound(q);
    FloorBounds(f, n);
    FloorBounds(m * f, n);
    assert f < n * (q + 1);
    assert m * f < m * (n * (q + 1)) == n * (m * (q + 1)) by {
      StrictScale(f, n * (q + 1), m);
      Reorder(m, n, q + 1);
    }
    assert m * (q + 1) <= 512;
    AtMost(n, m * (q + 1), 512);
    if m * f / n >= 512 {
      AtMost(n, 512, m * f / n);
    }
  }

  lemma StrictScale(a: nat, b: nat, m: nat)
    requires a < b && m > 0
    ensures m * a < m * b
  {
  }

  lemma AtMost(n: nat, a: nat, b: nat)
    requires a <= b
    ensures n * a <= n * b
  {
  }

  /** The replacement fits 9 bits exactly when the clock ratio is below 512: from there on the
      multiplier is 1, and the ratio itself is the feedback divider. */
  lemma ReplacementFitsIff(f: nat, n: nat)
    requires n > 0
    ensures Multiplier(f / n) * f / n <= MAX_FB <==> f / n < 512
  {
    if f / n < 512 {
      ApproximationFits(f, n);
    }
  }

  /** What the source relies on: the clock ratio is in range, nothing overflows 32 bits, and the
      pre divider of a fraction that fits is within its 8-bit variable. */
  ghost predicate InRange(ref: nat, sys: nat, g: nat) {
    && IsGcd(g, ref, sys) && ref > 0 && sys < 0x1000_0000 && sys / ref < 512
    && (sys / g <= MAX_FB ==> ref / g / PostFactor(Post(ref / g)) < 256)
  }

  /** For the divider that the search ends with, the feedback divider is the largest one that
      does not overshoot the wanted clock, and the fields fit their registers. The clock is hit
      exactly when both guards of the search pass. */
  lemma SearchIsTight(ref: nat, sys: nat, g: nat)
    requires InRange(ref, sys, g)
    ensures ref / g > 0
    ensures var x, n := Fields(sys / g, ref / g), ref / g;
            && 1 <= x.pre <= MAX_PRE && 1 <= x.post <= 3 && x.fb <= MAX_FB
            && Divider(x) * sys - ref < ref * x.fb <= Divider(x) * sys
            && (ref * x.fb == Divider(x) * sys <==>
                  sys / g <= MAX_FB && n / PostFactor(Post(n)) <= MAX_PRE)
  {
    hide Fields, Coprime;
    var f, n := sys / g, ref / g;
    assert ref == n * g && sys == f * g;
    ReducedCoprime(g, ref, sys);
    QuotientPositive(ref, g);
    SameRatio(ref, sys, g, n, f);
    FloorSmall(sys, g);
    if f <= MAX_FB {
      FractionFits(f, n);
    } else {
      FractionTooBig(f, n);
    }
    ScaleBack(Divider(Fields(f, n)), Fields(f, n).fb, f, n, g);
  }

  lemma PostFactorIsPower(post: nat)
    requires 1 <= post <= 3
    ensures PostFactor(post) == Pow(2, post - 1)
  {
    assert Pow(2, 1) == 2 && Pow(2, 2) == 4;
  }

  /** The search hits the wanted clock exactly whenever any dividers that fit the registers do. */
  lemma HitsWheneverPossible(ref: nat, sys: nat, g: nat)
    requires InRange(ref, sys, g)
    ensures ref / g > 0
    ensures var x := Fields(sys / g, ref / g);
            && 1 <= x.pre <= 31 && 1 <= x.post <= 3 && x.fb <= 511
            && (ref * x.fb == x.pre * Pow(2, x.post - 1) * sys <==>
                  exists y: Dividers :: 1 <= y.pre <= 31 && 1 <= y.post <= 3 && y.fb <= 511
                                        && ref * y.fb == y.pre * Pow(2, y.post - 1) * sys)
  {
    hide Fields, Pow, Post;
    SearchIsTight(ref, sys, g);
    var x := Fields(sys / g, ref / g);
    PostFactorIsPower(x.post);
    hide *;
    if y: Dividers :| 1 <= y.pre <= 31 && 1 <= y.post <= 3 && y.fb <= 511
                      && ref * y.fb == y.pre * Pow(2, y.post - 1) * sys {
      PostFactorIsPower(y.post);
      PossibleMeansFits(ref, sys, g, y);
    }
  }

  lemma PossibleMeansFits(ref: nat, sys: nat, g: nat, y: Dividers)
    requires IsGcd(g, ref, sys) && ref > 0 && 1 <= y.pre <= MAX_PRE && 1 <= y.post <= 3 && y.fb <= MAX_FB
    requires ref * y.fb == y.pre * PostFactor(y.post) * sys
    ensures g > 0 && ref / g > 0
    ensures sys / g <= MAX_FB && ref / g / PostFactor(Post(ref / g)) <= MAX_PRE
  {
    hide Coprime, IsGcd, Post;
    GcdParts(g, ref, sys);
    MulAtLeast(y.pre, PostFactor(y.post));
    ReducedCoprime(g, ref, sys);
    Cancelled(ref, sys, g, y.fb, y.pre * PostFactor(y.post));
    ReducedDivides(ref / g, sys / g, y.pre * PostFactor(y.post), y.fb);
    FitsAfterSplit(ref / g, y.pre, y.post);
  }

  lemma GcdParts(g: nat, a: nat, b: nat)
    requires IsGcd(g, a, b) && a > 0
    ensures g > 0 && a == (a / g) * g && b == (b / g) * g && a / g > 0
  {
  }

  lemma Cancelled(ref: nat, sys: nat, g: nat, fb: nat, d: nat)
    requires g > 0 && ref == (ref / g) * g && sys == (sys / g) * g && ref * fb == d * sys
    ensures (ref / g) * fb == d * (sys / g)
  {
    var n, f := ref / g, sys / g;
    Reorder(n, g, fb);
    Reorder(d, f, g);
    assert d * (f * g) == (d * f) * g;
    SameFactor(g, n * fb, d * f);
  }

  lemma ReducedDivides(n: nat, f: nat, d: nat, fb: nat)
    requires n > 0 && d > 0 && Coprime(n, f) && n * fb == d * f
    ensures Divides(n, d) && f <= fb
  {
    hide Coprime;
    ModUnique(f * d, n, fb, 0);
    DividesOtherFactor(n, f, d);
    if fb < f {
      NeverExact(f, n, d, fb);
    }
  }

  /** A divisor of what pre and post divider can make is split within their ranges. */
  lemma FitsAfterSplit(n: nat, pre: nat, post: nat)
    requires n > 0 && 1 <= pre <= MAX_PRE && 1 <= post <= 3 && Divides(n, pre * PostFactor(post))
    ensures n / PostFactor(Post(n)) <= MAX_PRE
  {
    var p, q := PostFactor(post), PostFactor(Post(n));
    assert p in {1, 2, 4} && q in {1, 2, 4} && n == q * (n / q) && (q == 4 || (n / q) % 2 == 1);
    QuotientOf(n, pre * p, q, n / q, pre, p);
  }

  lemma QuotientOf(n: nat, d: nat, q: nat, u: nat, pre: nat, p: nat)
    requires n == q * u && n > 0 && d == pre * p && Divides(n, d) && pre > 0
    requires q in {1, 2, 4} && p in {1, 2, 4} && (q == 4 || u % 2 == 1)
    ensures u <= pre
  {
    var k := d / n;
    assert d == k * n;
    Regrouped(k, q, u);
    QuotientAtMost(u, q, k, k * u, pre, p);
  }

  lemma Regrouped(k: nat, q: nat, u: nat)
    ensures k * (q * u) == q * (k * u)
  {
  }

  lemma QuotientAtMost(u: nat, q: nat, k: nat, c: nat, pre: nat, p: nat)
    requires c == k * u && pre * p == q * c && pre > 0
    requires q in {1, 2, 4} && p in {1, 2, 4} && (q == 4 || u % 2 == 1)
    ensures u <= pre
  {
    assert k > 0;
    if c <= pre {
      AtLeastOnce(u, k);
    } else if c == 2 * pre {
      OddFactor(k, u, pre);
      AtLeastOnce(u, k / 2);
    } else {
      OddFactor(k, u, 2 * pre);
      OddFactor(k / 2, u, pre);
      AtLeastOnce(u, k / 2 / 2);
    }
  }

  lemma AtLeastOnce(u: nat, k: nat)
    ensures k > 0 ==> u <= k * u
  {
  }

  lemma OddFactor(k: nat, u: nat, p: nat)
    requires u % 2 == 1 && k * u == 2 * p
    ensures k % 2 == 0 && (k / 2) * u == p
  {
    var h := u / 2;
    assert u == 2 * h + 1 && k * u == 2 * (k * h) + k;
    assert k == 2 * (k / 2);
    assert (2 * (k / 2)) * u == 2 * ((k / 2) * u);
  }

  lemma QuotientPositive(x: nat, g: nat)
    requires g > 0 && x > 0 && x % g == 0
    ensures x / g > 0
  {
  }

  lemma ScaleBack(d: nat, fb: nat, f: nat, n: nat, g: nat)
    requires g > 0 && n * fb <= d * f < n * fb + n
    ensures d * (f * g) - n * g < (n * g) * fb <= d * (f * g)
    ensures (n * g) * fb == d * (f * g) <==> n * fb == d * f
  {
    Scale(n * fb, d * f, n * fb + n, g);
    Reorder(n, fb, g);
    assert (d * f) * g == d * (f * g);
    assert (n * fb + n) * g == (n * fb) * g + n * g;
  }

  lemma SameRatio(ref: nat, sys: nat, g: nat, n: nat, f: nat)
    requires g > 0 && n > 0 && ref == n * g && sys == f * g
    ensures sys / ref == f / n
  {
    var q, r := f / n, f % n;
    assert f == q * n + r;
    assert sys == q * (n * g) + r * g by {
      assert (q * n + r) * g == (q * n) * g + r * g;
      Reorder(q, n, g);
    }
    StrictScale(r, n, g);
    ModUnique(sys, ref, q, r * g);
  }

  lemma FloorSmall(x: nat, g: nat)
    requires g > 0
    ensures x / g <= x
  {
    FloorBounds(x, g);
    MulAtLeast(x / g, g);
  }

  // ----- the two register bytes

  function HighByte(pre: bv8, post: bv8, fb: bv16): bv8 {
    (post << 6) | (pre << 1) | ((fb >> 8) as bv8)
  }

  function LowByte(fb: bv16): bv8 {
    (fb & 0xff) as bv8
  }

  /** Fields that fit are recovered from the two bytes. */
  lemma RegistersDecode(pre: bv8, post: bv8, fb: bv16)
    requires pre <= 31 && post <= 3 && fb <= 511
    ensures var hi, lo := HighByte(pre, post, fb), LowByte(fb);
            && hi >> 6 == post && (hi >> 1) & 0x1f == pre && (((hi & 1) as bv16) << 8) | (lo as bv16) == fb
  {
  }

  /** The search and the registers it writes. */
  method GetPllReg(ref: nat, sys: nat, ghost g: nat) returns (x: Dividers, w0: bv8, w1: bv8)
    requires InRange(ref, sys, g)
    ensures ref / g > 0 && x == Fields(sys / g, ref / g)
    ensures x.pre < 256 && x.post < 256 && x.fb < 65536
    ensures w0 == HighByte(x.pre as bv8, x.post as bv8, x.fb as bv16) && w1 == LowByte(x.fb as bv16)
  {
    hide IsGcd, HighByte, LowByte, Split, WrappedProduct, Multiplier;
    SearchIsTight(ref, sys, g);
    var a := Gcd(ref, sys);
    GcdUnique(a, g, ref, sys);
    var fb, n := sys / a, ref / a;
    if fb > MAX_FB {
      var m := Multiplier(fb / n);
      fb := WrappedProduct(m, fb) / n;
      n := m;
    }
    x := SplitDivider(fb, n);
    w0, w1 := HighByte(x.pre as bv8, x.post as bv8, x.fb as bv16), LowByte(x.fb as bv16);
  }

  method SplitDivider(f: nat, d: nat) returns (x: Dividers)
    ensures x == Split(f, d)
  {
    var post: nat := if d % 4 == 0 then 3 else if d % 2 == 0 then 2 else 1;
    var pre, fb := d / PostFactor(post) % 256, f;
    if pre > MAX_PRE {
      fb := MAX_PRE * fb / pre;
      pre := MAX_PRE;
    }
    x := Dividers(pre, post, fb);
  }

  lemma GcdUnique(g: nat, h: nat, a: nat, b: nat)
    requires IsGcd(g, a, b) && IsGcd(h, a, b)
    ensures g == h
  {
  }
}

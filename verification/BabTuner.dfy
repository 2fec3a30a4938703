/** The speed tuner of the BaB driver: each chip has a speed, and a speed it must stay below
    because it gave only bad results there. */
module BabTuner {
  import opened Basics

  const MAX_SPEED := 57

  const DEFAULT_MAX := 55

  const DEFAULT_SPEED := 53

  const ABS_MIN := 32

  const BAD_COUNT := 100

  /** Times in seconds: how long history is kept, and when a chip with only bad results is
      slowed down to the minimum and then given up. */
  const HISTORY_S := 300

  const BAD_TO_MIN := 310

  const BAD_DEAD := 620

  datatype Speeds = Speeds(max: nat, def: nat, min: nat)

  ghost predicate Ordered(s: Speeds) {
    ABS_MIN <= s.min <= s.def <= s.max <= MAX_SPEED
  }

  predicate IsDigit(c: char) {
    '0' <= c <= '9'
  }

  /** atoi, on text that begins with a digit; `n` is what was read before. */
  function Atoi(text: string, n: int): int
    decreases |text|
  {
    if text == "" || !IsDigit(text[0]) then n else Atoi(text[1..], 10 * n + (text[0] - '0') as int)
  }

  /** An empty option, or one that begins with a "d", keeps its default. */
  predicate KeepsDefault(text: string) {
    text == "" || text[0] == 'd' || text[0] == 'D'
  }

  /** What the text of one option asks for; text that does not begin with a digit is refused. */
  function Wanted(text: string): Option<int>
    requires !KeepsDefault(text)
  {
    if IsDigit(text[0]) then Some(Atoi(text, 0)) else None
  }

  function Asked(text: string): Option<int> {
    if KeepsDefault(text) then None else Wanted(text)
  }

  predicate Refused(text: string) {
    !KeepsDefault(text) && Wanted(text).None?
  }

  function Decimal(n: nat): string {
    if n < 10 then ["0123456789"[n]] else Decimal(n / 10) + ["0123456789"[n % 10]]
  }

  /** A number in decimal digits, up to the first other character, is what is asked for. */
  lemma AskedDecimal(n: nat, tail: string)
    requires tail == "" || !IsDigit(tail[0])
    ensures Asked(Decimal(n) + tail) == Some(n) && !Refused(Decimal(n) + tail)
  {
    hide Atoi, Decimal;
    AtoiDecimal(n, tail);
    AtoiEnd(tail, n);
    StartsWithDigit(n, tail);
  }

  lemma AtoiEnd(tail: string, n: int)
    requires tail == "" || !IsDigit(tail[0])
    ensures Atoi(tail, n) == n
  {
  }

  lemma {:induction false} StartsWithDigit(n: nat, tail: string)
    ensures var text := Decimal(n) + tail; text != "" && IsDigit(text[0])
  {
    if n >= 10 {
      StartsWithDigit(n / 10, ["0123456789"[n % 10]] + tail);
      assert Decimal(n) + tail == Decimal(n / 10) + (["0123456789"[n % 10]] + tail);
    }
  }

  lemma {:induction false} AtoiDecimal(n: nat, tail: string)
    ensures Atoi(Decimal(n) + tail, 0) == Atoi(tail, n)
  {
    hide *;
    var last := "0123456789"[n % 10];
    DigitStep(last, tail, n);
    DecimalDef(n);
    if n < 10 {
      assert n / 10 == 0;
    } else {
      AtoiDecimal(n / 10, [last] + tail);
      assert (Decimal(n / 10) + [last]) + tail == Decimal(n / 10) + ([last] + tail);
    }
  }

  lemma DecimalDef(n: nat)
    ensures var last := "0123456789"[n % 10]; Decimal(n) == if n < 10 then [last] else Decimal(n / 10) + [last]
  {
  }

  lemma DigitStep(c: char, tail: string, n: nat)
    requires c == "0123456789"[n % 10]
    ensures Atoi([c] + tail, n / 10) == Atoi(tail, n)
  {
    hide Atoi;
    assert IsDigit(c) && (c - '0') as int == n % 10;
    AtoiStep(c, tail, n / 10);
  }

  lemma AtoiStep(c: char, tail: string, n: int)
    requires IsDigit(c)
    ensures Atoi([c] + tail, n) == Atoi(tail, 10 * n + (c - '0') as int)
  {
    assert ([c] + tail)[1..] == tail;
  }

  /** An empty text, or one that begins with a d, asks for nothing, and any other that begins
      with no digit is refused. */
  lemma AskedOrRefused(text: string)
    ensures Refused(text) <==> text != "" && text[0] != 'd' && text[0] != 'D' && !('0' <= text[0] <= '9')
    ensures Asked(text).Some? <==> text != "" && '0' <= text[0] <= '9'
  {
  }

  /** The first three fields of the option text, in order: a field that is missing is empty.
      Anything refused ends the program. */
  method ReadOptions(max: string, def: string, min: string) returns (r: Option<Speeds>)
    ensures r.Some? ==> Ordered(r.value) && !Refused(max) && !Refused(def) && !Refused(min)
    ensures r.None? <==>
              || Refused(max) || Refused(def) || Refused(min)
              || !InRange(Asked(max), Asked(def), Asked(min))
    ensures r.Some? && Asked(max).Some? ==> r.value.max == Asked(max).value
    ensures r.Some? && Asked(def).Some? ==> r.value.def == Asked(def).value
    ensures r.Some? && Asked(min).Some? ==> r.value.min == Asked(min).value
  {
    hide Atoi;
    if Refused(max) || Refused(def) || Refused(min) {
      return None;
    }
    r := GetOptions(Asked(max), Asked(def), Asked(min));
  }

  /** Each speed given is within the limits that the ones before it set. */
  predicate InRange(max: Option<int>, def: Option<int>, min: Option<int>) {
    var top := max.GetOr(DEFAULT_MAX);
    var mid := def.GetOr(Min(DEFAULT_SPEED, top));
    ABS_MIN <= top <= MAX_SPEED && ABS_MIN <= mid <= top && (min.Some? ==> ABS_MIN <= min.value <= mid)
  }

  /** The three speeds, as far as they are given. A value out of range ends the program. */
  method GetOptions(max: Option<int>, def: Option<int>, min: Option<int>) returns (r: Option<Speeds>)
    ensures r.Some? ==> Ordered(r.value)
    ensures r.Some? && max.Some? ==> r.value.max == max.value
    ensures r.Some? && def.Some? ==> r.value.def == def.value
    ensures r.Some? && min.Some? ==> r.value.min == min.value
    ensures max.None? && def.None? && min.None? ==> r == Some(Speeds(DEFAULT_MAX, DEFAULT_SPEED, ABS_MIN))
    ensures r.None? <==> !InRange(max, def, min)
    ensures var top := if max.Some? then max.value else 55;
            var mid := if def.Some? then def.value else if top < 53 then top else 53;
            var low := if min.Some? then min.value else 32;
            && (r.Some? <==> 32 <= low <= mid <= top <= 57)
            && (r.Some? ==> (r.value.max, r.value.def, r.value.min) == (top, mid, low))
  {
    var s := Speeds(DEFAULT_MAX, DEFAULT_SPEED, ABS_MIN);
    if max.Some? {
      if max.value < ABS_MIN || max.value > MAX_SPEED {
        return None;
      }
      s := Speeds(max.value, Min(s.def, max.value), Min(s.min, max.value));
    }
    if def.Some? {
      if def.value < ABS_MIN || def.value > s.max {
        return None;
      }
      s := Speeds(s.max, def.value, Min(s.min, def.value));
    }
    if min.Some? {
      if min.value < ABS_MIN || min.value > s.def {
        return None;
      }
      s := s.(min := min.value);
    }
    r := Some(s);
  }

  function CountTrue(s: seq<bool>): nat {
    if s == [] then 0 else CountTrue(s[..|s| - 1]) + if s[|s| - 1] then 1 else 0
  }

  lemma {:induction false} CountTrueSet(s: seq<bool>, i: nat)
    requires i < |s| && !s[i]
    ensures CountTrue(s[i := true]) == CountTrue(s) + 1
  {
    var last := |s| - 1;
    if i < last {
      CountTrueSet(s[..last], i);
      assert s[i := true][..last] == s[..last][i := true];
    } else {
      assert s[i := true][..last] == s[..last];
    }
  }

  lemma {:induction false} CountTrueIs(s: seq<bool>)
    ensures CountTrue(s) == |set i | 0 <= i < |s| && s[i]|
  {
    if s != [] {
      var last := |s| - 1;
      CountTrueIs(s[..last]);
      var front := set i | 0 <= i < |s[..last]| && s[..last][i];
      assert (set i | 0 <= i < |s| && s[i]) == front + if s[last] then {last} else {};
    }
  }

  lemma {:induction false} CountTrueBound(s: seq<bool>)
    ensures CountTrue(s) <= |s|
  {
    if s != [] {
      CountTrueBound(s[..|s| - 1]);
    }
  }

  lemma {:induction false} CountTrueNone(s: seq<bool>)
    requires forall i :: 0 <= i < |s| ==> !s[i]
    ensures CountTrue(s) == 0
  {
    if s != [] {
      CountTrueNone(s[..|s| - 1]);
    }
  }

  class Tuner {
    const speeds: Speeds
    const tuneUp: real
    const tuneDown: real
    var chipFast: array<nat>
    var badFast: array<nat>
    var badMsg: array<bool>
    var disabled: array<bool>
    var totalDisabled: nat
    var chipGood: array<nat>
    var chipBad: array<nat>

    /** Every speed at which a chip has been marked bad. */
    ghost var marked: seq<set<nat>>

    ghost predicate Arrays()
      reads this
    {
      && chipFast != badFast && chipFast != chipGood && chipFast != chipBad
      && badFast != chipGood && badFast != chipBad && chipGood != chipBad && badMsg != disabled
      && badFast.Length == badMsg.Length == disabled.Length == chipGood.Length == chipBad.Length == chipFast.Length
      && |marked| == chipFast.Length
    }

    ghost predicate Valid()
      reads this, chipFast, badFast, disabled
    {
      && Ordered(speeds) && Arrays()
      && (forall c :: 0 <= c < chipFast.Length ==> ChipOk(chipFast[c], badFast[c], marked[c]))
      && totalDisabled == CountTrue(disabled[..])
    }

    /** A chip runs within the limits and below every speed it was bad at. */
    ghost predicate ChipOk(fast: nat, bad: nat, marks: set<nat>) {
      && speeds.min <= fast <= speeds.max
      && fast < bad <= speeds.max + 1
      && forall s :: s in marks ==> bad <= s
    }

    constructor (n: nat, speeds: Speeds, tuneUp: real, tuneDown: real)
      requires Ordered(speeds)
      ensures Valid() && chipFast.Length == n && fresh(chipFast) && fresh(badFast) && fresh(disabled)
      ensures fresh(badMsg) && fresh(chipGood) && fresh(chipBad)
      ensures forall c :: 0 <= c < n ==> chipFast[c] == speeds.def && marked[c] == {}
    {
      this.speeds, this.tuneUp, this.tuneDown := speeds, tuneUp, tuneDown;
      chipFast := new nat[n](_ => speeds.def);
      badFast := new nat[n](_ => speeds.max + 1);
      badMsg, disabled := new bool[n](_ => false), new bool[n](_ => false);
      chipGood, chipBad := new nat[n](_ => 0), new nat[n](_ => 0);
      totalDisabled := 0;
      marked := seq(n, _ => {});
      new;
      CountTrueNone(disabled[..]);
    }

    function Repaired(bad: nat, fast: nat): nat {
      if bad <= fast then fast + 1 else bad
    }

    /** The speed of a chip after one tuning, with the error rate over the kept history. */
    function Tuned(fast: nat, bad: nat, goodNonces: nat, badNonces: nat): int
      requires goodNonces + badNonces > 0
    {
      var rate := badNonces as real / (goodNonces + badNonces) as real * 100.0;
      if goodNonces == 0 then (if fast > speeds.min then fast - 1 else fast)
      else if rate >= tuneDown && fast > speeds.min then fast - 1
      else if rate <= tuneUp && fast < speeds.max && fast < bad - 1 then fast + 1
      else fast
    }

    /** The error rate compared without a division. */
    lemma RateIs(goodNonces: nat, badNonces: nat, limit: real)
      requires goodNonces + badNonces > 0
      ensures var rate := badNonces as real / (goodNonces + badNonces) as real * 100.0;
              && (rate >= limit <==> 100.0 * badNonces as real >= limit * (goodNonces + badNonces) as real)
              && (rate <= limit <==> 100.0 * badNonces as real <= limit * (goodNonces + badNonces) as real)
    {
      var b, n := badNonces as real, (goodNonces + badNonces) as real;
      var q := b / n;
      assert b == q * n;
      assert 100.0 * b == (q * 100.0) * n;
      SameSign(q * 100.0, limit, n);
    }

    lemma SameSign(x: real, y: real, n: real)
      requires n > 0.0
      ensures x >= y <==> x * n >= y * n
      ensures x <= y <==> x * n <= y * n
    {
      assert (x - y) * n == x * n - y * n;
    }

    /** With more bad results, or fewer good ones, a chip never comes out faster. */
    lemma MoreBadNeverFaster(fast: nat, bad: nat, good1: nat, bad1: nat, good2: nat, bad2: nat)
      requires tuneUp <= tuneDown && fast >= speeds.min
      requires good1 + bad1 > 0 && good2 + bad2 > 0 && good1 >= good2 && bad1 <= bad2
      ensures Tuned(fast, bad, good2, bad2) <= Tuned(fast, bad, good1, bad1)
    {
      RateGrows(good1, bad1, good2, bad2);
    }

    lemma RateGrows(good1: nat, bad1: nat, good2: nat, bad2: nat)
      requires good1 + bad1 > 0 && good2 + bad2 > 0 && good1 >= good2 && bad1 <= bad2
      ensures bad1 as real / (good1 + bad1) as real <= bad2 as real / (good2 + bad2) as real
    {
      var n1, n2 := (good1 + bad1) as real, (good2 + bad2) as real;
      CrossProduct(good1, bad1, good2, bad2);
      CrossDivide(bad1 as real, n1, bad2 as real, n2);
    }

    lemma CrossDivide(a: real, m: real, b: real, n: real)
      requires m > 0.0 && n > 0.0 && a * n <= b * m
      ensures a / m <= b / n
    {
      var x, y := a / m, b / n;
      assert a == x * m && b == y * n;
      assert (x * m) * n == x * (m * n) && (y * n) * m == y * (m * n);
      SameSign(x, y, m * n);
    }

    lemma CrossProduct(good1: nat, bad1: nat, good2: nat, bad2: nat)
      requires good1 >= good2 && bad1 <= bad2
      ensures bad1 * (good2 + bad2) <= bad2 * (good1 + bad1)
      ensures bad1 as real * (good2 + bad2) as real <= bad2 as real * (good1 + bad1) as real
    {
      assert bad1 * good2 <= bad2 * good1;
      RealProduct(bad1, good2 + bad2);
      RealProduct(bad2, good1 + bad1);
    }

    lemma RealProduct(a: nat, b: nat)
      ensures a as real * b as real == (a * b) as real
    {
      if a > 0 {
        RealProduct(a - 1, b);
      }
    }

    lemma OrderedSpeeds()
      requires Valid()
      ensures speeds.min <= speeds.def <= speeds.max
    {
    }

    /** Tunes a chip, when it is time to: `goodNonces` and `badNonces` are what is left of its
        history. With only bad results the speed is marked and lowered. */
    method ProcessHistory(c: nat, due: bool, goodNonces: nat, badNonces: nat)
      requires Valid() && c < chipFast.Length
      modifies this`marked, chipFast, badFast, badMsg
      ensures Valid() && chipFast.Length == old(chipFast.Length)
      ensures chipFast[c] == if due && goodNonces + badNonces > 0
                             then Tuned(old(chipFast[c]), old(badFast[c]), goodNonces, badNonces)
                             else old(chipFast[c])
      ensures due && goodNonces == 0 && badNonces > 0 ==> chipFast[c] == Max(speeds.min, old(chipFast[c]) - 1)
      ensures due && goodNonces > 0 ==>
                var fast, errors, all := old(chipFast[c]), 100.0 * badNonces as real, (goodNonces + badNonces) as real;
                chipFast[c] == if errors >= tuneDown * all && fast > speeds.min then fast - 1
                               else if errors <= tuneUp * all && fast < speeds.max && fast + 1 < old(badFast[c])
                               then fast + 1 else fast
      ensures forall d :: 0 <= d < chipFast.Length ==> badFast[d] <= old(badFast[d]) && old(marked[d]) <= marked[d]
      ensures forall d :: 0 <= d < chipFast.Length && d != c ==>
                chipFast[d] == old(chipFast[d]) && badFast[d] == old(badFast[d])
      ensures badFast[c] == if due && goodNonces == 0 && badNonces > 0 && old(chipFast[c]) > speeds.min
                            then Min(old(badFast[c]), old(chipFast[c])) else old(badFast[c])
      ensures goodNonces > 0 ==> badFast[c] == old(badFast[c])
      ensures forall d :: 0 <= d < badMsg.Length && d != c ==> badMsg[d] == old(badMsg[d])
      ensures badMsg[c] <==> if !due || goodNonces + badNonces == 0 then old(badMsg[c])
                             else goodNonces == 0 && (old(badMsg[c]) || old(chipFast[c]) == speeds.min)
      ensures due && goodNonces == 0 && badNonces > 0 && old(chipFast[c]) > speeds.min ==>
                old(chipFast[c]) in marked[c]
      ensures unchanged(this`totalDisabled) && unchanged(chipGood) && unchanged(chipBad) && unchanged(disabled)
    {
      hide CountTrue, Ordered, ChipOk, Tuned;
      if !due || goodNonces + badNonces == 0 {
        return;
      }
      if goodNonces == 0 {
        MarkBad(c, badNonces);
      } else {
        TuneByRate(c, goodNonces, badNonces);
      }
    }

    /** Only bad results: the speed is marked and left, unless it is the lowest. */
    method MarkBad(c: nat, badNonces: nat)
      requires Valid() && c < chipFast.Length && badNonces > 0
      modifies this`marked, chipFast, badFast, badMsg
      ensures Valid() && chipFast[c] == Tuned(old(chipFast[c]), old(badFast[c]), 0, badNonces)
      ensures chipFast[c] == Max(speeds.min, old(chipFast[c]) - 1)
      ensures forall d :: 0 <= d < chipFast.Length ==> badFast[d] <= old(badFast[d]) && old(marked[d]) <= marked[d]
      ensures forall d :: 0 <= d < chipFast.Length && d != c ==>
                chipFast[d] == old(chipFast[d]) && badFast[d] == old(badFast[d])
      ensures badFast[c] == if old(chipFast[c]) > speeds.min then Min(old(badFast[c]), old(chipFast[c]))
                            else old(badFast[c])
      ensures old(chipFast[c]) > speeds.min ==> old(chipFast[c]) in marked[c]
      ensures forall d :: 0 <= d < badMsg.Length && d != c ==> badMsg[d] == old(badMsg[d])
      ensures badMsg[c] <==> old(badMsg[c]) || old(chipFast[c]) == speeds.min
    {
      hide CountTrue, Ordered;
      OrderedSpeeds();
      var fast := chipFast[c];
      if fast > speeds.min {
        if badFast[c] > fast {
          badFast[c] := fast;
        }
        chipFast[c] := chipFast[c] - 1;
        marked := marked[c := marked[c] + {fast}];
      } else if !badMsg[c] {
        badMsg[c] := true;
      }
    }

    /** Some good results: the speed follows the error rate. */
    method TuneByRate(c: nat, goodNonces: nat, badNonces: nat)
      requires Valid() && c < chipFast.Length && goodNonces > 0
      modifies chipFast, badFast, badMsg
      ensures Valid() && chipFast[c] == Tuned(old(chipFast[c]), old(badFast[c]), goodNonces, badNonces)
      ensures var fast, errors, all := old(chipFast[c]), 100.0 * badNonces as real, (goodNonces + badNonces) as real;
              chipFast[c] == if errors >= tuneDown * all && fast > speeds.min then fast - 1
                             else if errors <= tuneUp * all && fast < speeds.max && fast + 1 < old(badFast[c])
                             then fast + 1 else fast
      ensures forall d :: 0 <= d < chipFast.Length ==> badFast[d] == old(badFast[d])
      ensures !badMsg[c] && forall d :: 0 <= d < badMsg.Length && d != c ==> badMsg[d] == old(badMsg[d])
      ensures forall d :: 0 <= d < chipFast.Length && d != c ==> chipFast[d] == old(chipFast[d])
    {
      hide CountTrue, Ordered;
      OrderedSpeeds();
      RateIs(goodNonces, badNonces, tuneDown);
      RateIs(goodNonces, badNonces, tuneUp);
      var fast := chipFast[c];
      if badMsg[c] {
        badMsg[c] := false;
      }
      // The repair: it changes nothing, since a chip always runs below its bad speed.
      badFast[c] := Repaired(badFast[c], fast);
      var rate := badNonces as real / (goodNonces + badNonces) as real * 100.0;
      if rate >= tuneDown && fast > speeds.min {
        chipFast[c] := chipFast[c] - 1;
        return;
      }
      if rate <= tuneUp && fast < speeds.max && fast < badFast[c] - 1 {
        chipFast[c] := chipFast[c] + 1;
      }
    }

    /** The bookkeeping for one nonce of a chip. A chip with nothing but bad results is slowed
        down to the minimum, and given up when that does not help in time. */
    method ProcessNonce(c: nat, matched: bool, notFirstReply: bool, elapsed: int,
                        due: bool, goodNonces: nat, badNonces: nat)
      requires Valid() && c < chipFast.Length
      modifies this`marked, this`totalDisabled, chipFast, badFast, badMsg, disabled, chipGood, chipBad
      ensures Valid() && chipFast.Length == old(chipFast.Length)
      ensures forall d :: 0 <= d < chipFast.Length ==> badFast[d] <= old(badFast[d]) && old(marked[d]) <= marked[d]
      ensures forall d :: 0 <= d < chipFast.Length && d != c ==>
                && chipFast[d] == old(chipFast[d]) && badFast[d] == old(badFast[d])
                && disabled[d] == old(disabled[d])
                && chipGood[d] == old(chipGood[d]) && chipBad[d] == old(chipBad[d])
      ensures chipGood[c] == old(chipGood[c]) + if matched then 1 else 0
      ensures chipBad[c] == old(chipBad[c]) + if !matched && notFirstReply then 1 else 0
      ensures disabled[c] <==> old(disabled[c]) || (!matched && notFirstReply && elapsed > BAD_DEAD
                                                    && old(chipGood[c]) == 0 && old(chipBad[c]) + 1 >= BAD_COUNT
                                                    && old(chipFast[c]) == speeds.min)
      ensures chipFast[c] ==
              var slow := !matched && notFirstReply && !old(disabled[c]) && elapsed >= BAD_TO_MIN
                          && old(chipGood[c]) == 0 && old(chipBad[c]) + 1 >= BAD_COUNT;
              var fast := if slow then speeds.min else old(chipFast[c]);
              if (matched || notFirstReply) && due && goodNonces + badNonces > 0
              then Tuned(fast, old(badFast[c]), goodNonces, badNonces) else fast
    {
      hide Tuned, ChipOk, CountTrue;
      if matched {
        chipGood[c] := chipGood[c] + 1;
        ProcessHistory(c, due, goodNonces, badNonces);
      } else if notFirstReply {
        chipBad[c] := chipBad[c] + 1;
        if !disabled[c] && chipGood[c] == 0 && chipBad[c] >= BAD_COUNT && elapsed >= BAD_TO_MIN {
          SlowDown(c, elapsed);
        }
        ProcessHistory(c, due, goodNonces, badNonces);
      }
    }

    method SlowDown(c: nat, elapsed: int)
      requires Valid() && c < chipFast.Length && !disabled[c]
      modifies this`totalDisabled, chipFast, disabled
      ensures Valid() && chipFast[c] == speeds.min
      ensures disabled[c] <==> old(chipFast[c]) == speeds.min && elapsed > BAD_DEAD
      ensures forall d :: 0 <= d < chipFast.Length && d != c ==>
                chipFast[d] == old(chipFast[d]) && disabled[d] == old(disabled[d])
    {
      hide CountTrue;
      if chipFast[c] > speeds.min {
        chipFast[c] := speeds.min;
      } else if elapsed > BAD_DEAD {
        Disable(c);
      }
    }

    method Disable(c: nat)
      requires Valid() && c < chipFast.Length && !disabled[c]
      modifies this`totalDisabled, disabled
      ensures Valid() && disabled[c]
      ensures forall d :: 0 <= d < disabled.Length && d != c ==> disabled[d] == old(disabled[d])
    {
      CountTrueSet(disabled[..], c);
      disabled[c] := true;
      totalDisabled := totalDisabled + 1;
      assert disabled[..] == old(disabled[..])[c := true];
    }

    /** Every chip runs within the limits, below its bad speed, and what is counted as given up
        are the chips given up. */
    lemma WithinLimits(c: nat)
      requires Valid() && c < chipFast.Length
      ensures 32 <= speeds.min <= chipFast[c] <= speeds.max <= 57 && chipFast[c] < badFast[c] <= speeds.max + 1
      ensures totalDisabled == |set d | 0 <= d < disabled.Length && disabled[d]|
    {
      CountTrueIs(disabled[..]);
      assert (set d | 0 <= d < |disabled[..]| && disabled[..][d]) == set d | 0 <= d < disabled.Length && disabled[d];
    }

    /** So a chip never runs again at a speed it was bad at, nor above one. */
    lemma NeverAtBadSpeed(c: nat, s: nat)
      requires Valid() && c < chipFast.Length && s in marked[c]
      ensures speeds.min <= chipFast[c] < s
    {
    }
  }
}

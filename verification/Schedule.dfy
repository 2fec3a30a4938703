/** Quota scheduling over pools: one call picks a pool in rotation while it has quota left.
    States are values here; the pool manager's method is proved to take these steps. */
module Schedule {
  import opened Basics

  /** How much of its quota each pool has used, and where the rotation stands. */
  datatype State = State(used: seq<int>, cursor: nat)

  /** What one call sees: which pools can work, and the pool it falls back on when no pool
      with quota can. */
  datatype Input = Input(workable: seq<bool>, fallback: nat)

  datatype Outcome = Outcome(next: State, pick: nat, refilled: bool)

  ghost predicate Fits(s: State, gcds: seq<nat>) {
    |gcds| > 0 && |s.used| == |gcds| && s.cursor < |gcds|
  }

  /** The cursor is on a pool, or will be after the refill. */
  ghost predicate Ready(s: State, gcds: seq<nat>) {
    |gcds| > 0 && |s.used| == |gcds| && (s.cursor < |gcds| || !SomeQuota(s.used, gcds))
  }

  ghost predicate InTable(spare: Option<nat>, gcds: seq<nat>) {
    spare.Some? ==> spare.value < |gcds|
  }

  predicate HasQuota(used: seq<int>, gcds: seq<nat>, i: nat)
    requires |used| == |gcds| && i < |gcds|
  {
    used[i] < gcds[i]
  }

  predicate SomeQuota(used: seq<int>, gcds: seq<nat>)
    requires |used| == |gcds|
  {
    exists i :: 0 <= i < |gcds| && HasQuota(used, gcds, i)
  }

  function Next(cursor: nat, n: nat): nat {
    if cursor + 1 >= n then 0 else cursor + 1
  }

  function NoneUsed(n: nat): (used: seq<int>)
    ensures |used| == n && forall i :: 0 <= i < n ==> used[i] == 0
  {
    seq(n, _ => 0)
  }

  function Refill(s: State, gcds: seq<nat>): (r: State)
    requires |s.used| == |gcds|
    ensures |r.used| == |gcds| && (Ready(s, gcds) ==> Fits(r, gcds))
    ensures r.cursor >= |gcds| > 0 ==> r == s && SomeQuota(s.used, gcds)
  {
    if SomeQuota(s.used, gcds) then s else State(NoneUsed(|gcds|), Next(s.cursor, |gcds|))
  }

  /** Tests the pool under the cursor. Every test uses up quota; a pool that had some and can
      work ends the search, otherwise the cursor moves on. With `spare` set, quota used up on
      a pool that cannot work is given to that pool instead. */
  function Test(s: State, gcds: seq<nat>, workable: seq<bool>, spare: Option<nat>): (r: (State, bool))
    requires Fits(s, gcds) && |workable| == |gcds|
    requires spare.Some? ==> spare.value < |gcds|
    ensures Fits(r.0, gcds)
  {
    var hit := HasQuota(s.used, gcds, s.cursor) && workable[s.cursor];
    (State(Charged(s.used, gcds, workable, spare, s.cursor), if hit then s.cursor else Next(s.cursor, |gcds|)), hit)
  }

  lemma TestParts(s: State, gcds: seq<nat>, workable: seq<bool>, spare: Option<nat>)
    requires Fits(s, gcds) && |workable| == |gcds| && InTable(spare, gcds)
    ensures var hit := HasQuota(s.used, gcds, s.cursor) && workable[s.cursor];
            var next := if hit then s.cursor else Next(s.cursor, |gcds|);
            Test(s, gcds, workable, spare)
            == (State(Charged(s.used, gcds, workable, spare, s.cursor), next), hit)
  {
  }

  /** The counters after a charge of pool `i`. */
  function Charged(used: seq<int>, gcds: seq<nat>, workable: seq<bool>, spare: Option<nat>, i: nat): (r: seq<int>)
    requires |used| == |gcds| == |workable| && i < |gcds|
    requires spare.Some? ==> spare.value < |gcds|
    ensures |r| == |used|
  {
    var spent := used[i := used[i] + 1];
    if HasQuota(used, gcds, i) && !workable[i] && spare.Some?
    then spent[spare.value := spent[spare.value] - 1] else spent
  }

  lemma ChargedPointwise(used: seq<int>, gcds: seq<nat>, workable: seq<bool>, spare: Option<nat>, i: nat)
    requires |used| == |gcds| == |workable| && i < |gcds|
    requires spare.Some? ==> spare.value < |gcds|
    ensures forall j :: 0 <= j < |gcds| ==>
              Charged(used, gcds, workable, spare, i)[j] == used[j] + (if j == i then 1 else 0)
                - if used[i] < gcds[i] && !workable[i] && spare == Some(j) then 1 else 0
  {
  }

  /** Tests at most `left` pools. */
  function Rotate(s: State, gcds: seq<nat>, workable: seq<bool>, left: nat, spare: Option<nat>)
    : (r: (State, Option<nat>))
    requires Fits(s, gcds) && |workable| == |gcds|
    requires spare.Some? ==> spare.value < |gcds|
    ensures Fits(r.0, gcds) && (r.1.Some? ==> r.1.value < |gcds|)
    decreases left
  {
    if left == 0 then (s, None)
    else
      var (next, hit) := Test(s, gcds, workable, spare);
      if hit then (next, Some(s.cursor)) else Rotate(next, gcds, workable, left - 1, spare)
  }

  lemma RotateStep(s: State, gcds: seq<nat>, workable: seq<bool>, left: nat, spare: Option<nat>)
    requires Fits(s, gcds) && |workable| == |gcds| && InTable(spare, gcds)
    ensures Rotate(s, gcds, workable, 0, spare) == (s, None)
    ensures left > 0 ==>
              var (next, hit) := Test(s, gcds, workable, spare);
              Rotate(s, gcds, workable, left, spare)
              == if hit then (next, Some(s.cursor)) else Rotate(next, gcds, workable, left - 1, spare)
  {
  }

  /** One call: refill if there is no quota left, then rotate. */
  ghost function Select(s: State, gcds: seq<nat>, input: Input, spare: Option<nat>): (r: Outcome)
    requires Ready(s, gcds) && |input.workable| == |gcds| && InTable(spare, gcds)
    ensures Fits(r.next, gcds)
  {
    var start := Refill(s, gcds);
    var (next, found) := Rotate(start, gcds, input.workable, |gcds|, spare);
    Outcome(next, if found.Some? then found.value else input.fallback, !SomeQuota(s.used, gcds))
  }

  lemma SelectParts(s: State, gcds: seq<nat>, input: Input, spare: Option<nat>, start: State)
    requires Ready(s, gcds) && |input.workable| == |gcds| && InTable(spare, gcds)
    requires start == Refill(s, gcds)
    ensures var r, rotated := Select(s, gcds, input, spare), Rotate(start, gcds, input.workable, |gcds|, spare);
            r.next == rotated.0 && r.pick == match rotated.1 case Some(k) => k case None => input.fallback
  {
  }

  // ----- a cursor left behind

  /** What a rotation sees in the slot its cursor was left on, beyond the table: the pool there
      may still have a slot in the table, and has quota or not, and can work or not. */
  datatype Stray = Stray(at: Option<nat>, quota: bool, works: bool)

  /** The counters after a test of that pool. Its own counter is not among them if it has no
      slot any more; a charge given back is. */
  function AfterStray(used: seq<int>, spare: Option<nat>, stray: Stray): (r: seq<int>)
    requires stray.at.Some? ==> stray.at.value < |used|
    requires spare.Some? ==> spare.value < |used|
    ensures |r| == |used|
  {
    var spent := if stray.at.Some? then used[stray.at.value := used[stray.at.value] + 1] else used;
    if stray.quota && !stray.works && spare.Some?
    then spent[spare.value := spent[spare.value] - 1] else spent
  }

  /** The rest of a call whose first test, of a stray pool, did not end it: the cursor is back
      at the first pool, and one test fewer is left. */
  ghost function AfterMiss(used: seq<int>, gcds: seq<nat>, input: Input, spare: Option<nat>, stray: Stray): (r: Outcome)
    requires |used| == |gcds| == |input.workable| && |gcds| > 0 && InTable(spare, gcds)
    requires stray.at.Some? ==> stray.at.value < |used|
    ensures Fits(r.next, gcds)
  {
    var back := State(AfterStray(used, spare, stray), 0);
    var (next, found) := Rotate(back, gcds, input.workable, |gcds| - 1, spare);
    Outcome(next, if found.Some? then found.value else input.fallback, false)
  }

  lemma MissParts(used: seq<int>, gcds: seq<nat>, input: Input, spare: Option<nat>, stray: Stray)
    requires |used| == |gcds| == |input.workable| && |gcds| > 0 && InTable(spare, gcds)
    requires stray.at.Some? ==> stray.at.value < |used|
    ensures var back := State(AfterStray(used, spare, stray), 0);
            var r := AfterMiss(used, gcds, input, spare, stray);
            var rotated := Rotate(back, gcds, input.workable, |gcds| - 1, spare);
            r.next == rotated.0 && r.pick == match rotated.1 case Some(k) => k case None => input.fallback
  {
  }

  lemma AfterStrayPointwise(used: seq<int>, spare: Option<nat>, stray: Stray)
    requires stray.at.Some? ==> stray.at.value < |used|
    requires spare.Some? ==> spare.value < |used|
    ensures forall j :: 0 <= j < |used| ==>
              AfterStray(used, spare, stray)[j] == used[j] + (if stray.at == Some(j) then 1 else 0)
                - if stray.quota && !stray.works && spare == Some(j) then 1 else 0
  {
  }

  // ----- one call

  function Left(used: seq<int>, gcds: seq<nat>): (r: nat)
    requires |used| == |gcds|
  {
    if used == [] then 0 else Max(0, gcds[0] - used[0]) + Left(used[1..], gcds[1..])
  }

  function Sum(gcds: seq<nat>): nat {
    if gcds == [] then 0 else gcds[0] + Sum(gcds[1..])
  }

  /** Quota that counts as used: the counter runs past the quota of a pool without any. */
  function Spent(used: seq<int>, gcds: seq<nat>, i: nat): int
    requires |used| == |gcds| && i < |gcds|
  {
    Min(used[i], gcds[i])
  }

  ghost predicate Grown(used: seq<int>, used': seq<int>) {
    |used| == |used'| && forall i :: 0 <= i < |used| ==> used[i] <= used'[i]
  }

  lemma {:induction false} LeftMonotone(used: seq<int>, used': seq<int>, gcds: seq<nat>)
    requires |used| == |gcds| && Grown(used, used')
    ensures Left(used', gcds) <= Left(used, gcds)
  {
    if used != [] {
      LeftMonotone(used[1..], used'[1..], gcds[1..]);
    }
  }

  lemma {:induction false} LeftStrict(used: seq<int>, used': seq<int>, gcds: seq<nat>, k: nat)
    requires |used| == |gcds| && Grown(used, used')
    requires k < |gcds| && used[k] < used'[k] && HasQuota(used, gcds, k)
    ensures Left(used', gcds) < Left(used, gcds)
  {
    if k == 0 {
      LeftMonotone(used[1..], used'[1..], gcds[1..]);
    } else {
      assert HasQuota(used[1..], gcds[1..], k - 1);
      LeftStrict(used[1..], used'[1..], gcds[1..], k - 1);
    }
  }

  lemma {:induction false} LeftZeroIff(used: seq<int>, gcds: seq<nat>)
    requires |used| == |gcds|
    ensures Left(used, gcds) == 0 <==> !SomeQuota(used, gcds)
  {
    if used != [] {
      LeftZeroIff(used[1..], gcds[1..]);
      assert gcds[0] > used[0] ==> HasQuota(used, gcds, 0);
      if SomeQuota(used[1..], gcds[1..]) {
        var i :| 0 <= i < |gcds| - 1 && HasQuota(used[1..], gcds[1..], i);
        assert HasQuota(used, gcds, i + 1);
      }
      if SomeQuota(used, gcds) {
        var i :| 0 <= i < |gcds| && HasQuota(used, gcds, i);
        assert i > 0 ==> HasQuota(used[1..], gcds[1..], i - 1);
      }
    }
  }

  lemma {:induction false} LeftOfZeros(gcds: seq<nat>)
    ensures Left(NoneUsed(|gcds|), gcds) == Sum(gcds)
  {
    if gcds != [] {
      assert NoneUsed(|gcds|)[1..] == NoneUsed(|gcds| - 1);
      LeftOfZeros(gcds[1..]);
    }
  }

  /** A search only ever uses quota up, apart from what it gives back; when it ends with a pool,
      that pool had quota. */
  lemma {:induction false} RotateGrows(s: State, gcds: seq<nat>, workable: seq<bool>, left: nat, spare: Option<nat>)
    requires Fits(s, gcds) && |workable| == |gcds| && InTable(spare, gcds)
    ensures var (next, found) := Rotate(s, gcds, workable, left, spare);
            && (forall i :: 0 <= i < |gcds| && spare != Some(i) ==> s.used[i] <= next.used[i])
            && (found.Some? && spare != found ==>
                  s.used[found.value] < next.used[found.value] && HasQuota(s.used, gcds, found.value))
    decreases left
  {
    if left > 0 {
      RotateGrows(Test(s, gcds, workable, spare).0, gcds, workable, left - 1, spare);
    }
  }

  /** A search that finds nothing has used quota of every pool it tested, except the one that
      charges are given back to. */
  lemma {:induction false} RotateTestsAll(s: State, gcds: seq<nat>, workable: seq<bool>, left: nat,
                                          spare: Option<nat>, i: nat)
    requires Fits(s, gcds) && |workable| == |gcds| && InTable(spare, gcds) && i < |gcds| && spare != Some(i)
    requires if s.cursor <= i then i - s.cursor < left else i + |gcds| - s.cursor < left
    requires Rotate(s, gcds, workable, left, spare).1.None?
    ensures s.used[i] < Rotate(s, gcds, workable, left, spare).0.used[i]
    decreases left
  {
    var next := Test(s, gcds, workable, spare).0;
    if i == s.cursor {
      RotateGrows(next, gcds, workable, left - 1, spare);
    } else {
      RotateTestsAll(next, gcds, workable, left - 1, spare, i);
    }
  }

  /** While a pool can work, only the calls that pick it use up its quota, each by one. Nothing
      else does, unless the pool is given charges back. */
  lemma {:induction false} RotateCharges(s: State, gcds: seq<nat>, workable: seq<bool>, left: nat,
                                         spare: Option<nat>, p: nat)
    requires Fits(s, gcds) && |workable| == |gcds| && InTable(spare, gcds) && p < |gcds| && workable[p]
    ensures var (next, found) := Rotate(s, gcds, workable, left, spare);
            var picked := if found == Some(p) then 1 else 0;
            && Spent(next.used, gcds, p) <= Spent(s.used, gcds, p) + picked
            && (spare != Some(p) ==> Spent(next.used, gcds, p) == Spent(s.used, gcds, p) + picked)
    decreases left
  {
    if left > 0 {
      RotateCharges(Test(s, gcds, workable, spare).0, gcds, workable, left - 1, spare, p);
    }
  }

  /** Among pools that can all work nothing is given back. */
  lemma {:induction false} NothingGivenBack(s: State, gcds: seq<nat>, workable: seq<bool>, left: nat,
                                            spare: Option<nat>)
    requires Fits(s, gcds) && |workable| == |gcds| && InTable(spare, gcds)
    requires forall i :: 0 <= i < |gcds| ==> workable[i]
    ensures Rotate(s, gcds, workable, left, spare) == Rotate(s, gcds, workable, left, None)
    decreases left
  {
    if left > 0 {
      assert Test(s, gcds, workable, spare) == Test(s, gcds, workable, None);
      NothingGivenBack(Test(s, gcds, workable, spare).0, gcds, workable, left - 1, spare);
    }
  }

  /** How far slot `i` is ahead of the cursor, and the slot `k` places ahead. */
  function Ahead(i: nat, c: nat, n: nat): nat
    requires n > 0
  {
    (i - c) % n
  }

  function Onward(c: nat, k: nat, n: nat): nat
    requires n > 0
  {
    (c + k) % n
  }

  lemma OneFurther(i: nat, c: nat, n: nat)
    requires i < n && c < n
    ensures Ahead(i, c, n) < n && (Ahead(i, c, n) == 0 <==> i == c)
    ensures Ahead(i, Next(c, n), n) == if i == c then n - 1 else Ahead(i, c, n) - 1
  {
    var d := if i >= c then i - c else i - c + n;
    ModUnique(i - c, n, if i >= c then 0 else -1, d);
    var q := (if i > c then 0 else -1) + if c + 1 >= n then 1 else 0;
    ModUnique(i - Next(c, n), n, q, if i == c then n - 1 else d - 1);
  }

  lemma OnwardStep(c: nat, k: nat, n: nat)
    requires c < n
    ensures Onward(c, 0, n) == c && Onward(Next(c, n), k, n) == Onward(c, k + 1, n)
  {
    ModUnique(c, n, 0, c);
    if c + 1 >= n {
      ModShift(k, 1, n);
    }
  }

  lemma {:induction false} RotateAhead(s: State, gcds: seq<nat>, workable: seq<bool>, left: nat, spare: Option<nat>)
    requires Fits(s, gcds) && |workable| == |gcds| && InTable(spare, gcds) && left <= |gcds|
    ensures var (next, found) := Rotate(s, gcds, workable, left, spare);
            var n := |gcds|;
            var tested := if found.Some? then Ahead(found.value, s.cursor, n) + 1 else left;
            && tested <= left && next.cursor == (if found.Some? then found.value else Onward(s.cursor, left, n))
            && (found.Some? ==> workable[found.value] && (spare != found ==> HasQuota(s.used, gcds, found.value)))
            && (forall i :: 0 <= i < n && Ahead(i, s.cursor, n) < tested && found != Some(i) ==>
                  !workable[i] || !HasQuota(s.used, gcds, i))
            && (forall i :: 0 <= i < n && spare != Some(i) ==>
                  next.used[i] == s.used[i] + if Ahead(i, s.cursor, n) < tested then 1 else 0)
    decreases left
  {
    hide Ahead, Onward, Next, Rotate, Test, Charged;
    RotateStep(s, gcds, workable, left, spare);
    TestParts(s, gcds, workable, spare);
    ChargedPointwise(s.used, gcds, workable, spare, s.cursor);
    var n, c := |gcds|, s.cursor;
    forall i | 0 <= i < n
      ensures Ahead(i, c, n) < n && (Ahead(i, c, n) == 0 <==> i == c)
      ensures Ahead(i, Next(c, n), n) == if i == c then n - 1 else Ahead(i, c, n) - 1
    {
      OneFurther(i, c, n);
    }
    OnwardStep(c, left, n);
    if left > 0 {
      OnwardStep(c, left - 1, n);
      var (t, hit) := Test(s, gcds, workable, spare);
      if !hit {
        RotateAhead(t, gcds, workable, left - 1, spare);
      }
    }
  }

  /** A rotation, told without its steps: it ends with the first pool from the cursor on that
      has quota and can work, and has charged the pools up to that one once each; if there is
      none within its reach, all pools there. What is given back is apart. */
  lemma RotateIsFirst(s: State, gcds: seq<nat>, workable: seq<bool>, left: nat, spare: Option<nat>)
    requires Fits(s, gcds) && |workable| == |gcds| && InTable(spare, gcds) && left <= |gcds|
    ensures var (next, found) := Rotate(s, gcds, workable, left, spare);
            var n := |gcds|;
            var tested := if found.Some? then (found.value - s.cursor) % n + 1 else left;
            && tested <= left && next.cursor == (if found.Some? then found.value else (s.cursor + left) % n)
            && (found.Some? ==> workable[found.value] && (spare != found ==> s.used[found.value] < gcds[found.value]))
            && (forall i :: 0 <= i < n && (i - s.cursor) % n < tested && found != Some(i) ==>
                  !workable[i] || s.used[i] >= gcds[i])
            && (forall i :: 0 <= i < n && spare != Some(i) ==>
                  next.used[i] == s.used[i] + if (i - s.cursor) % n < tested then 1 else 0)
  {
    hide Rotate;
    RotateAhead(s, gcds, workable, left, spare);
    assert forall i: nat :: i < |gcds| ==> Ahead(i, s.cursor, |gcds|) == (i - s.cursor) % |gcds|;
  }

  /** A whole call by a load balancer: with quota left, the first pool from the cursor on that
      has quota and can work; with none left, the same from the next slot on, with all counters
      at zero; and the fallback if there is no such pool. */
  lemma SelectPicksFirst(s: State, gcds: seq<nat>, input: Input)
    requires Ready(s, gcds) && |input.workable| == |gcds|
    ensures var r, n := Select(s, gcds, input, None), |gcds|;
            var left := exists i :: 0 <= i < n && s.used[i] < gcds[i];
            var from := if left then s.cursor else if s.cursor + 1 >= n then 0 else s.cursor + 1;
            && (r.refilled <==> !left)
            && (forall i :: 0 <= i < n && input.workable[i] && (if left then s.used[i] else 0) < gcds[i] ==>
                  && r.pick < n && input.workable[r.pick] && (if left then s.used[r.pick] else 0) < gcds[r.pick]
                  && (r.pick - from) % n <= (i - from) % n && r.next.cursor == r.pick)
            && (r.pick != input.fallback ==> r.pick < n && input.workable[r.pick])
  {
    var start := Refill(s, gcds);
    assert SomeQuota(s.used, gcds) <==> exists i :: 0 <= i < |gcds| && s.used[i] < gcds[i] by {
      if i: nat :| i < |gcds| && s.used[i] < gcds[i] {
        assert HasQuota(s.used, gcds, i);
      }
    }
    hide Rotate, SomeQuota;
    RotateIsFirst(start, gcds, input.workable, |gcds|, None);
  }

  /** After a stray pool, whose test counts as one, the last slot of the table is not tested. */
  lemma MissSkipsLast(used: seq<int>, gcds: seq<nat>, input: Input, spare: Option<nat>, stray: Stray)
    requires |used| == |gcds| == |input.workable| && |gcds| > 0 && InTable(spare, gcds)
    requires stray.at.Some? ==> stray.at.value < |used|
    ensures var r, last := AfterMiss(used, gcds, input, spare, stray), |gcds| - 1;
            && (r.pick == last ==> input.fallback == last)
            && (spare != Some(last) ==> r.next.used[last] == used[last] + if stray.at == Some(last) then 1 else 0)
  {
    hide Rotate, AfterMiss, AfterStray;
    var back, last := State(AfterStray(used, spare, stray), 0), |gcds| - 1;
    MissParts(used, gcds, input, spare, stray);
    AfterStrayPointwise(used, spare, stray);
    RotateIsFirst(back, gcds, input.workable, last, spare);
    ModUnique(last, |gcds|, 0, last);
  }

  lemma SearchLowersLeft(s: State, gcds: seq<nat>, workable: seq<bool>)
    requires Fits(s, gcds) && |workable| == |gcds| && SomeQuota(s.used, gcds)
    ensures Left(Rotate(s, gcds, workable, |gcds|, None).0.used, gcds) < Left(s.used, gcds)
  {
    var (next, found) := Rotate(s, gcds, workable, |gcds|, None);
    RotateGrows(s, gcds, workable, |gcds|, None);
    var k :| 0 <= k < |gcds| && HasQuota(s.used, gcds, k);
    if found.Some? {
      LeftStrict(s.used, next.used, gcds, found.value);
    } else {
      RotateTestsAll(s, gcds, workable, |gcds|, None, k);
      LeftStrict(s.used, next.used, gcds, k);
    }
  }

  /** When all pools can work and one has quota, the search always finds one. */
  lemma AllWorkableFinds(s: State, gcds: seq<nat>, workable: seq<bool>, spare: Option<nat>)
    requires Fits(s, gcds) && |workable| == |gcds| && InTable(spare, gcds) && SomeQuota(s.used, gcds)
    requires forall i :: 0 <= i < |gcds| ==> workable[i]
    ensures Rotate(s, gcds, workable, |gcds|, spare).1.Some?
  {
    NothingGivenBack(s, gcds, workable, |gcds|, spare);
    var (next, found) := Rotate(s, gcds, workable, |gcds|, None);
    var k :| 0 <= k < |gcds| && HasQuota(s.used, gcds, k);
    if found.None? {
      RotateTestsAll(s, gcds, workable, |gcds|, None, k);
      RotateCharges(s, gcds, workable, |gcds|, None, k);
      assert false;
    }
  }

  /** Each call strictly lowers the total unused quota, or finds it at zero and refills. */
  lemma CallLowersOrRefills(s: State, gcds: seq<nat>, input: Input)
    requires Ready(s, gcds) && |input.workable| == |gcds|
    ensures var r := Select(s, gcds, input, None);
            && (r.refilled <==> Left(s.used, gcds) == 0)
            && (!r.refilled ==> Left(r.next.used, gcds) < Left(s.used, gcds))
            && (r.refilled ==> Left(r.next.used, gcds) <= Sum(gcds))
            && (r.refilled && Sum(gcds) > 0 ==> Left(r.next.used, gcds) < Sum(gcds))
  {
    LeftZeroIff(s.used, gcds);
    var start := Refill(s, gcds);
    LeftOfZeros(gcds);
    LeftZeroIff(start.used, gcds);
    RotateGrows(start, gcds, input.workable, |gcds|, None);
    LeftMonotone(start.used, Select(s, gcds, input, None).next.used, gcds);
    if SomeQuota(start.used, gcds) {
      SearchLowersLeft(start, gcds, input.workable);
    }
  }

  // ----- giving back, in failover-only mode

  function Total(used: seq<int>): int {
    if used == [] then 0 else used[0] + Total(used[1..])
  }

  lemma {:induction false} TotalUpdate(used: seq<int>, i: nat, v: int)
    requires i < |used|
    ensures Total(used[i := v]) == Total(used) - used[i] + v
  {
    if i > 0 {
      TotalUpdate(used[1..], i - 1, v);
      assert used[i := v][1..] == used[1..][i - 1 := v];
    } else {
      assert used[i := v][1..] == used[1..];
    }
  }

  /** Testing a pool that has quota but cannot work moves a charge from one pool to another. */
  lemma GivingBackKeepsTotal(s: State, gcds: seq<nat>, workable: seq<bool>, p: nat)
    requires Fits(s, gcds) && |workable| == |gcds| && p < |gcds|
    requires HasQuota(s.used, gcds, s.cursor) && !workable[s.cursor]
    ensures Total(Test(s, gcds, workable, Some(p)).0.used) == Total(s.used)
  {
    var i := s.cursor;
    TotalUpdate(s.used, i, s.used[i] + 1);
    var spent := s.used[i := s.used[i] + 1];
    TotalUpdate(spent, p, spent[p] - 1);
  }

  lemma {:induction false} LeftUpdate(used: seq<int>, gcds: seq<nat>, i: nat, v: int)
    requires |used| == |gcds| && i < |used|
    ensures Left(used[i := v], gcds) == Left(used, gcds) - Max(0, gcds[i] - used[i]) + Max(0, gcds[i] - v)
  {
    if i > 0 {
      LeftUpdate(used[1..], gcds[1..], i - 1, v);
      assert used[i := v][1..] == used[1..][i - 1 := v];
    } else {
      assert used[i := v][1..] == used[1..];
    }
  }

  /** Unused quota, counted twice except for the pool that is given charges back. */
  function Weight(used: seq<int>, gcds: seq<nat>, p: nat): int
    requires |used| == |gcds| && p < |gcds|
  {
    2 * Left(used, gcds) - Max(0, gcds[p] - used[p])
  }

  lemma {:induction false} LeftIncludes(used: seq<int>, gcds: seq<nat>, p: nat)
    requires |used| == |gcds| && p < |gcds|
    ensures Max(0, gcds[p] - used[p]) <= Left(used, gcds)
  {
    if p > 0 {
      LeftIncludes(used[1..], gcds[1..], p - 1);
    }
  }

  /** Testing a pool with quota lowers the weight; another pool's test changes nothing. */
  lemma TestLowersWeight(s: State, gcds: seq<nat>, workable: seq<bool>, p: nat)
    requires Fits(s, gcds) && |workable| == |gcds| && p < |gcds| && workable[p]
    ensures var next, i := Test(s, gcds, workable, Some(p)).0, s.cursor;
            && (HasQuota(s.used, gcds, i) ==> Weight(next.used, gcds, p) < Weight(s.used, gcds, p))
            && (!HasQuota(s.used, gcds, i) ==>
                  && Weight(next.used, gcds, p) == Weight(s.used, gcds, p)
                  && forall k :: 0 <= k < |gcds| ==> (HasQuota(next.used, gcds, k) <==> HasQuota(s.used, gcds, k)))
  {
    var i := s.cursor;
    LeftUpdate(s.used, gcds, i, s.used[i] + 1);
    var spent := s.used[i := s.used[i] + 1];
    LeftUpdate(spent, gcds, p, spent[p] - 1);
  }

  /** A rotation that gets to a pool with quota lowers the weight. */
  lemma {:induction false} RotateLowersWeight(s: State, gcds: seq<nat>, workable: seq<bool>, left: nat, p: nat, i: nat)
    requires Fits(s, gcds) && |workable| == |gcds| && p < |gcds| && workable[p] && i < |gcds|
    ensures var next := Rotate(s, gcds, workable, left, Some(p)).0;
            && Weight(next.used, gcds, p) <= Weight(s.used, gcds, p)
            && (HasQuota(s.used, gcds, i) && (if s.cursor <= i then i - s.cursor else i + |gcds| - s.cursor) < left ==>
                  Weight(next.used, gcds, p) < Weight(s.used, gcds, p))
    decreases left
  {
    if left > 0 {
      hide Weight;
      TestLowersWeight(s, gcds, workable, p);
      var (next, hit) := Test(s, gcds, workable, Some(p));
      if !hit {
        RotateLowersWeight(next, gcds, workable, left - 1, p, i);
      }
    }
  }

  /** In failover-only mode, while the pool of priority 0 can work, each call lowers the weight,
      or refills because no quota is left. */
  lemma FailoverCallLowersOrRefills(s: State, gcds: seq<nat>, input: Input, p: nat)
    requires Ready(s, gcds) && |input.workable| == |gcds| && p < |gcds| && input.workable[p]
    ensures var r, top := Select(s, gcds, input, Some(p)), 2 * Sum(gcds) - gcds[p];
            && Weight(s.used, gcds, p) >= 0
            && (r.refilled <==> Weight(s.used, gcds, p) == 0)
            && (!r.refilled ==> Weight(r.next.used, gcds, p) < Weight(s.used, gcds, p))
            && (r.refilled ==> Weight(r.next.used, gcds, p) <= top)
            && (r.refilled && Sum(gcds) > 0 ==> Weight(r.next.used, gcds, p) < top)
  {
    var start := Refill(s, gcds);
    LeftIncludes(s.used, gcds, p);
    LeftZeroIff(s.used, gcds);
    LeftOfZeros(gcds);
    LeftZeroIff(start.used, gcds);
    RotateLowersWeight(start, gcds, input.workable, |gcds|, p, p);
    if SomeQuota(start.used, gcds) {
      var k :| 0 <= k < |gcds| && HasQuota(start.used, gcds, k);
      RotateLowersWeight(start, gcds, input.workable, |gcds|, p, k);
    }
  }

  /** A pool of priority 0 that cannot work gets every charge of its own back at once, and so
      never runs out of quota. */
  lemma {:induction false} DeadSpareKeepsQuota(s: State, gcds: seq<nat>, workable: seq<bool>, left: nat, p: nat)
    requires Fits(s, gcds) && |workable| == |gcds| && p < |gcds| && !workable[p] && HasQuota(s.used, gcds, p)
    ensures HasQuota(Rotate(s, gcds, workable, left, Some(p)).0.used, gcds, p)
    decreases left
  {
    if left > 0 {
      DeadSpareKeepsQuota(Test(s, gcds, workable, Some(p)).0, gcds, workable, left - 1, p);
    }
  }

  // ----- whole runs

  ghost predicate Inputs(ins: seq<Input>, gcds: seq<nat>) {
    forall k :: 0 <= k < |ins| ==> |ins[k].workable| == |gcds|
  }

  ghost predicate Runs(s: State, gcds: seq<nat>, ins: seq<Input>, spare: Option<nat>) {
    Ready(s, gcds) && Inputs(ins, gcds) && InTable(spare, gcds)
  }

  ghost function After(s: State, gcds: seq<nat>, ins: seq<Input>, spare: Option<nat>): (r: State)
    requires Runs(s, gcds, ins, spare)
    ensures Ready(r, gcds)
    decreases |ins|
  {
    if ins == [] then s else After(Select(s, gcds, ins[0], spare).next, gcds, ins[1..], spare)
  }

  /** No call of the run refills. */
  ghost predicate NoRefill(s: State, gcds: seq<nat>, ins: seq<Input>, spare: Option<nat>)
    requires Runs(s, gcds, ins, spare)
    decreases |ins|
  {
    ins != [] ==>
      && !Select(s, gcds, ins[0], spare).refilled
      && NoRefill(Select(s, gcds, ins[0], spare).next, gcds, ins[1..], spare)
  }

  /** The run from one refill to just before the next. */
  ghost predicate Round(s: State, gcds: seq<nat>, ins: seq<Input>, spare: Option<nat>)
    requires Runs(s, gcds, ins, spare)
  {
    && ins != []
    && Select(s, gcds, ins[0], spare).refilled
    && NoRefill(Select(s, gcds, ins[0], spare).next, gcds, ins[1..], spare)
  }

  ghost function Picks(s: State, gcds: seq<nat>, ins: seq<Input>, spare: Option<nat>, p: nat): nat
    requires Runs(s, gcds, ins, spare)
    decreases |ins|
  {
    if ins == [] then 0
    else
      var r := Select(s, gcds, ins[0], spare);
      (if r.pick == p then 1 else 0) + Picks(r.next, gcds, ins[1..], spare, p)
  }

  lemma {:induction false} NoRefillBound(s: State, gcds: seq<nat>, ins: seq<Input>)
    requires Runs(s, gcds, ins, None) && NoRefill(s, gcds, ins, None)
    ensures |ins| <= Left(s.used, gcds)
    decreases |ins|
  {
    if ins != [] {
      CallLowersOrRefills(s, gcds, ins[0]);
      NoRefillBound(Select(s, gcds, ins[0], None).next, gcds, ins[1..]);
    }
  }

  /** Counting the refilling call, a round has at most sum(gcds) calls (or just one, when no
      pool has any quota). */
  lemma RoundBound(s: State, gcds: seq<nat>, ins: seq<Input>)
    requires Runs(s, gcds, ins, None) && Round(s, gcds, ins, None)
    ensures |ins| <= Max(1, Sum(gcds))
  {
    CallLowersOrRefills(s, gcds, ins[0]);
    NoRefillBound(Select(s, gcds, ins[0], None).next, gcds, ins[1..]);
  }

  ghost predicate AlwaysWorkable(ins: seq<Input>, p: nat) {
    forall k :: 0 <= k < |ins| ==> p < |ins[k].workable| && ins[k].workable[p]
  }

  ghost predicate NeverWorkable(ins: seq<Input>, p: nat) {
    forall k :: 0 <= k < |ins| ==> p < |ins[k].workable| && !ins[k].workable[p]
  }

  ghost predicate AllWorkable(ins: seq<Input>) {
    forall k, i :: 0 <= k < |ins| && 0 <= i < |ins[k].workable| ==> ins[k].workable[i]
  }

  lemma {:induction false} FailoverNoRefillBound(s: State, gcds: seq<nat>, ins: seq<Input>, p: nat)
    requires Runs(s, gcds, ins, Some(p)) && NoRefill(s, gcds, ins, Some(p)) && AlwaysWorkable(ins, p)
    ensures |ins| <= Weight(s.used, gcds, p)
    decreases |ins|
  {
    hide Weight, Select, Left;
    if ins != [] {
      FailoverCallLowersOrRefills(s, gcds, ins[0], p);
      FailoverNoRefillBound(Select(s, gcds, ins[0], Some(p)).next, gcds, ins[1..], p);
    } else {
      WeightNotNegative(s.used, gcds, p);
    }
  }

  lemma WeightNotNegative(used: seq<int>, gcds: seq<nat>, p: nat)
    requires |used| == |gcds| && p < |gcds|
    ensures Weight(used, gcds, p) >= 0
  {
    LeftIncludes(used, gcds, p);
  }

  /** In failover-only mode a round can be longer, since quota that goes back to the pool of
      priority 0 is used again: as long as that pool can work, quota of the others counts twice. */
  lemma FailoverRoundBound(s: State, gcds: seq<nat>, ins: seq<Input>, p: nat)
    requires Runs(s, gcds, ins, Some(p)) && Round(s, gcds, ins, Some(p)) && AlwaysWorkable(ins, p)
    ensures |ins| <= Max(1, 2 * Sum(gcds) - gcds[p])
  {
    hide Weight, Select, Left, Sum;
    FailoverCallLowersOrRefills(s, gcds, ins[0], p);
    FailoverNoRefillBound(Select(s, gcds, ins[0], Some(p)).next, gcds, ins[1..], p);
    SumIncludes(gcds, p);
  }

  lemma {:induction false} SumIncludes(gcds: seq<nat>, p: nat)
    requires p < |gcds|
    ensures gcds[p] <= Sum(gcds)
  {
    if p > 0 {
      SumIncludes(gcds[1..], p - 1);
    }
  }

  /** And while that pool has quota but cannot work, there is no refill at all. */
  lemma {:induction false} DeadSpareNeverRefills(s: State, gcds: seq<nat>, ins: seq<Input>, p: nat)
    requires Runs(s, gcds, ins, Some(p)) && NeverWorkable(ins, p) && HasQuota(s.used, gcds, p)
    ensures NoRefill(s, gcds, ins, Some(p))
    decreases |ins|
  {
    if ins != [] {
      DeadSpareKeepsQuota(s, gcds, ins[0].workable, |gcds|, p);
      DeadSpareNeverRefills(Select(s, gcds, ins[0], Some(p)).next, gcds, ins[1..], p);
    }
  }

  /** Between refills a pool that can always work is picked at least as often as its used
      quota grows, and exactly so when all pools can always work. */
  lemma {:induction false} PicksAreCharged(s: State, gcds: seq<nat>, ins: seq<Input>, spare: Option<nat>, p: nat)
    requires Runs(s, gcds, ins, spare) && NoRefill(s, gcds, ins, spare)
    requires p < |gcds| && AlwaysWorkable(ins, p)
    ensures Picks(s, gcds, ins, spare, p) >= Spent(After(s, gcds, ins, spare).used, gcds, p) - Spent(s.used, gcds, p)
    ensures AllWorkable(ins) ==>
              Picks(s, gcds, ins, spare, p) == Spent(After(s, gcds, ins, spare).used, gcds, p) - Spent(s.used, gcds, p)
    decreases |ins|
  {
    if ins != [] {
      hide Spent, Rotate;
      var r := Select(s, gcds, ins[0], spare);
      PicksAreCharged(r.next, gcds, ins[1..], spare, p);
      RotateCharges(s, gcds, ins[0].workable, |gcds|, spare, p);
      if AllWorkable(ins) {
        AllWorkableCharges(s, gcds, ins[0].workable, spare, p);
        assert AllWorkable(ins[1..]);
      }
    }
  }

  lemma AllWorkableCharges(s: State, gcds: seq<nat>, workable: seq<bool>, spare: Option<nat>, p: nat)
    requires Fits(s, gcds) && |workable| == |gcds| && InTable(spare, gcds) && p < |gcds|
    requires SomeQuota(s.used, gcds) && forall i :: 0 <= i < |gcds| ==> workable[i]
    ensures var (next, found) := Rotate(s, gcds, workable, |gcds|, spare);
            && found.Some?
            && Spent(next.used, gcds, p) == Spent(s.used, gcds, p) + if found == Some(p) then 1 else 0
  {
    NothingGivenBack(s, gcds, workable, |gcds|, spare);
    AllWorkableFinds(s, gcds, workable, spare);
    RotateCharges(s, gcds, workable, |gcds|, None, p);
  }

  /** Fairness: over one complete round, a pool that stays workable is picked at least
      `gcds[p]` times whatever the others do, and exactly that often when all pools stay
      workable. Giving charges back changes neither. */
  lemma RoundIsFair(s: State, gcds: seq<nat>, ins: seq<Input>, spare: Option<nat>, p: nat)
    requires Runs(s, gcds, ins, spare) && Round(s, gcds, ins, spare)
    requires !SomeQuota(After(s, gcds, ins, spare).used, gcds)
    requires p < |gcds| && AlwaysWorkable(ins, p)
    ensures Picks(s, gcds, ins, spare, p) >= gcds[p]
    ensures AllWorkable(ins) && Sum(gcds) > 0 ==> Picks(s, gcds, ins, spare, p) == gcds[p]
  {
    var r := Select(s, gcds, ins[0], spare);
    var start := Refill(s, gcds);
    assert start.used[p] == 0;
    RotateCharges(start, gcds, ins[0].workable, |gcds|, spare, p);
    PicksAreCharged(r.next, gcds, ins[1..], spare, p);
    assert !HasQuota(After(s, gcds, ins, spare).used, gcds, p);
    if AllWorkable(ins) && Sum(gcds) > 0 {
      assert AllWorkable(ins[1..]);
      LeftOfZeros(gcds);
      LeftZeroIff(start.used, gcds);
      AllWorkableCharges(start, gcds, ins[0].workable, spare, p);
    }
  }
}

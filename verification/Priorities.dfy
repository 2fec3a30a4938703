/** Pool priorities as a sequence: entry i is the priority of the pool in slot i. */
module Priorities {
  import opened Basics

  ghost predicate InRange(p: seq<int>) {
    forall i :: 0 <= i < |p| ==> 0 <= p[i] < |p|
  }

  /** The priorities are 0, 1, ..., |p| - 1 in some order. */
  ghost predicate IsPermutation(p: seq<int>) {
    InRange(p) && Distinct(p)
  }

  ghost function Values(p: seq<int>): (r: set<int>)
    ensures forall v :: v in r <==> v in p
  {
    if p == [] then {} else Values(p[..|p| - 1]) + {p[|p| - 1]}
  }

  ghost function Upto(n: nat): (r: set<int>)
    ensures |r| == n
    ensures forall v :: v in r <==> 0 <= v < n
  {
    if n == 0 then {} else Upto(n - 1) + {n - 1}
  }

  lemma {:induction false} ValuesSize(p: seq<int>)
    requires Distinct(p)
    ensures |Values(p)| == |p|
  {
    if p != [] {
      ValuesSize(p[..|p| - 1]);
    }
  }

  lemma SubsetOfSameSize(a: set<int>, b: set<int>)
    requires a <= b && |a| == |b|
    ensures a == b
  {
    assert b == a + (b - a);
    assert |b| == |a| + |b - a|;
  }

  /** Every priority below the number of pools belongs to some pool. */
  lemma PermutationCovers(p: seq<int>, v: nat)
    requires IsPermutation(p) && v < |p|
    ensures exists i :: 0 <= i < |p| && p[i] == v
  {
    ValuesSize(p);
    SubsetOfSameSize(Values(p), Upto(|p|));
    assert v in Values(p);
  }

  /** A new pool comes last. */
  lemma AppendedPermutation(p: seq<int>)
    requires IsPermutation(p)
    ensures IsPermutation(p + [|p|])
  {
  }

  // ----- switching

  /** The pool in slot k goes first, the ones before it move back by one. */
  function Promoted(p: seq<int>, k: nat): (r: seq<int>)
    requires k < |p|
    ensures |r| == |p|
  {
    seq(|p|, i requires 0 <= i < |p| => if i == k then 0 else if p[i] < p[k] then p[i] + 1 else p[i])
  }

  /** Promotion keeps the permutation and the relative order of all other pools. */
  lemma PromotedPermutation(p: seq<int>, k: nat)
    requires k < |p| && IsPermutation(p)
    ensures IsPermutation(Promoted(p, k)) && Promoted(p, k)[k] == 0
    ensures forall i, j :: 0 <= i < |p| && 0 <= j < |p| && i != k && j != k ==>
              (Promoted(p, k)[i] < Promoted(p, k)[j] <==> p[i] < p[j])
  {
  }

  /** The pool that is already first stays there. */
  lemma PermutationHasOne(p: seq<int>, k: nat)
    requires k < |p| && IsPermutation(p) && p[k] == 0
    ensures Promoted(p, k) == p
  {
  }

  // ----- removing

  /** The pool in slot k goes; the ones after it move up; the last slot fills the gap. */
  function Removed(p: seq<int>, k: nat): (r: seq<int>)
    requires k < |p|
    ensures |r| == |p| - 1
  {
    var last := |p| - 1;
    seq(last, i requires 0 <= i < last => Closed(p[if i == k then last else i], p[k]))
  }

  function Closed(v: int, gap: int): int {
    if v > gap then v - 1 else v
  }

  /** Removal keeps the permutation and the relative order of all remaining pools. */
  lemma RemovedPermutation(p: seq<int>, k: nat)
    requires k < |p| && IsPermutation(p)
    ensures IsPermutation(Removed(p, k))
    ensures forall i, j :: 0 <= i < |p| - 1 && 0 <= j < |p| - 1 ==>
              (Removed(p, k)[i] < Removed(p, k)[j] <==>
                p[if i == k then |p| - 1 else i] < p[if j == k then |p| - 1 else j])
  {
    var r, last := Removed(p, k), |p| - 1;
    forall a, b | 0 <= a < |p| && 0 <= b < |p| && a != b
      ensures p[a] != p[b]
    {
      assert a < b || b < a;
    }
    forall i | 0 <= i < |r|
      ensures 0 <= r[i] < |r|
    {
      var a := if i == k then last else i;
      assert r[i] == Closed(p[a], p[k]) && p[a] != p[k];
    }
    forall i, j | 0 <= i < |r| && 0 <= j < |r|
      ensures r[i] < r[j] <==> p[if i == k then last else i] < p[if j == k then last else j]
    {
      var a, b := if i == k then last else i, if j == k then last else j;
      assert r[i] == Closed(p[a], p[k]) && r[j] == Closed(p[b], p[k]) && p[a] != p[k] && p[b] != p[k];
    }
    forall i, j | 0 <= i < j < |r|
      ensures r[i] != r[j]
    {
      var a, b := if i == k then last else i, if j == k then last else j;
      assert r[i] == Closed(p[a], p[k]) && r[j] == Closed(p[b], p[k]) && p[a] != p[k] && p[b] != p[k] && p[a] != p[b];
    }
  }

  // ----- the priority command

  ghost predicate ValidIds(ids: seq<int>, n: nat) {
    Distinct(ids) && forall k :: 0 <= k < |ids| ==> 0 <= ids[k] < n
  }

  /** `q` is what a list of pool numbers turns the priorities `p` into: listed pools come
      first, in list order, and the others follow in their old order. */
  ghost predicate Reordered(p: seq<int>, ids: seq<int>, q: seq<int>)
    requires ValidIds(ids, |p|)
  {
    && |q| == |p|
    && IsPermutation(q)
    && (forall k :: 0 <= k < |ids| ==> q[ids[k]] == k)
    && (forall i, j :: 0 <= i < |p| && 0 <= j < |p| && i !in ids && j !in ids && p[i] < p[j] ==> q[i] < q[j])
  }

  lemma ReorderedOrder(p: seq<int>, ids: seq<int>, q: seq<int>)
    requires ValidIds(ids, |p|) && Reordered(p, ids, q)
    ensures |q| == |p| && forall k :: 0 <= k < |ids| ==> 0 <= ids[k] < |p| && q[ids[k]] == k
    ensures forall i, j :: 0 <= i < |p| && 0 <= j < |p| && i !in ids && j !in ids && p[i] < p[j] ==>
              |ids| <= q[i] < q[j]
  {
    forall i | 0 <= i < |p| && i !in ids
      ensures q[i] >= |ids|
    {
      if q[i] < |ids| {
        NotListed(p, ids, q, i, q[i]);
      }
    }
  }

  lemma NotListed(p: seq<int>, ids: seq<int>, q: seq<int>, i: nat, k: nat)
    requires ValidIds(ids, |p|) && Reordered(p, ids, q)
    requires i < |p| && i !in ids && k < |ids|
    ensures q[i] != k
  {
    var j := ids[k];
    assert j in ids && q[j] == k;
    assert i < j || j < i;
  }

  /** These conditions leave no choice: they determine the new priorities. */
  lemma ReorderedUnique(p: seq<int>, ids: seq<int>, q: seq<int>, r: seq<int>)
    requires ValidIds(ids, |p|) && IsPermutation(p)
    requires Reordered(p, ids, q) && Reordered(p, ids, r)
    ensures q == r
  {
    forall i | 0 <= i < |p|
      ensures q[i] == r[i]
    {
      ReorderedAgree(p, ids, q, r, q[i]);
    }
  }

  /** By induction on the priority: the pool that gets v in q gets v in r. */
  lemma {:induction false} ReorderedAgree(p: seq<int>, ids: seq<int>, q: seq<int>, r: seq<int>, v: nat)
    requires ValidIds(ids, |p|) && IsPermutation(p)
    requires Reordered(p, ids, q) && Reordered(p, ids, r)
    ensures forall i :: 0 <= i < |p| && q[i] == v ==> r[i] == v
    decreases v
  {
    forall i | 0 <= i < |p| && q[i] < v
      ensures r[i] == q[i]
    {
      ReorderedAgree(p, ids, q, r, q[i]);
    }
    forall i | 0 <= i < |p| && q[i] == v
      ensures r[i] == v
    {
      if i in ids {
        ListedAgree(p, ids, q, r);
      } else {
        NotBelow(p, ids, q, r, i);
        NotAbove(p, ids, q, r, i);
      }
    }
  }

  lemma NotBelow(p: seq<int>, ids: seq<int>, q: seq<int>, r: seq<int>, i: nat)
    requires ValidIds(ids, |p|) && IsPermutation(p)
    requires Reordered(p, ids, q) && Reordered(p, ids, r)
    requires i < |p| && forall x :: 0 <= x < |p| && q[x] < q[i] ==> r[x] == q[x]
    ensures r[i] >= q[i]
  {
    PermutationCovers(q, r[i]);
    var k :| 0 <= k < |p| && q[k] == r[i];
    assert k < i || k == i || k > i;
  }

  lemma NotAbove(p: seq<int>, ids: seq<int>, q: seq<int>, r: seq<int>, i: nat)
    requires ValidIds(ids, |p|) && IsPermutation(p)
    requires Reordered(p, ids, q) && Reordered(p, ids, r)
    requires i < |p| && i !in ids && forall x :: 0 <= x < |p| && q[x] < q[i] ==> r[x] == q[x]
    ensures r[i] <= q[i]
  {
    PermutationCovers(r, q[i]);
    var j :| 0 <= j < |p| && r[j] == q[i];
    ListedAgree(p, ids, q, r);
    assert j < i || j == i || j > i;
  }

  lemma ListedAgree(p: seq<int>, ids: seq<int>, q: seq<int>, r: seq<int>)
    requires ValidIds(ids, |p|) && Reordered(p, ids, q) && Reordered(p, ids, r)
    ensures forall j :: 0 <= j < |p| && j in ids ==> q[j] == r[j]
  {
    forall j | 0 <= j < |p| && j in ids
      ensures q[j] == r[j]
    {
      var k :| 0 <= k < |ids| && ids[k] == j;
      assert q[ids[k]] == k && r[ids[k]] == k;
    }
  }

  /** The state of the command while the unlisted pools are appended: those with an old
      priority below `pr` are done, as are the listed ones, and have got 0, ..., prio - 1. */
  ghost predicate Partial(p: seq<int>, ids: seq<int>, q: seq<int>, done: set<int>, prio: nat, pr: nat) {
    && |q| == |p| && ValidIds(ids, |p|) && |done| == prio
    && (forall i :: i in done ==> 0 <= i < |p| && 0 <= q[i] < prio)
    && (forall i :: 0 <= i < |p| ==> (i in done <==> i in ids || p[i] < pr))
    && (forall i, j :: i in done && j in done && i != j ==> q[i] != q[j])
    && (forall i :: 0 <= i < |p| && i !in done ==> q[i] == p[i])
    && (forall k :: 0 <= k < |ids| ==> q[ids[k]] == k)
    && (forall i, j :: i in done && j in done && i !in ids && j !in ids && p[i] < p[j] ==> q[i] < q[j])
  }

  lemma PartialStart(p: seq<int>, ids: seq<int>, q: seq<int>)
    requires IsPermutation(p) && ValidIds(ids, |p|) && |q| == |p|
    requires forall i :: 0 <= i < |p| && i !in ids ==> q[i] == p[i]
    requires forall k :: 0 <= k < |ids| ==> q[ids[k]] == k
    ensures Partial(p, ids, q, Values(ids), |ids|, 0)
  {
    ValuesSize(ids);
    forall i | i in ids
      ensures 0 <= i < |p| && 0 <= q[i] < |ids|
    {
      var k :| 0 <= k < |ids| && ids[k] == i;
      assert q[ids[k]] == k;
    }
    forall i, j | i in ids && j in ids && i != j
      ensures q[i] != q[j]
    {
      var k, l :| 0 <= k < |ids| && ids[k] == i && 0 <= l < |ids| && ids[l] == j;
      assert q[ids[k]] == k && q[ids[l]] == l;
    }
  }

  /** The unlisted pool whose old priority is `pr` gets the next new one. */
  lemma PartialStep(p: seq<int>, ids: seq<int>, q: seq<int>, done: set<int>, prio: nat, pr: nat, k: nat)
    requires IsPermutation(p) && Partial(p, ids, q, done, prio, pr)
    requires k < |p| && k !in done && p[k] == pr
    ensures Partial(p, ids, q[k := prio], done + {k}, prio + 1, pr + 1)
  {
    var q', done' := q[k := prio], done + {k};
    forall i | 0 <= i < |p|
      ensures i in done' <==> i in ids || p[i] < pr + 1
    {
      if p[i] == pr {
        assert !(i < k) && !(k < i);
      }
    }
    forall i, j | i in done' && j in done' && i != j
      ensures q'[i] != q'[j]
    {
    }
    forall j | 0 <= j < |ids|
      ensures q'[ids[j]] == j
    {
      assert ids[j] in ids;
    }
  }

  lemma PartialSlots(p: seq<int>, ids: seq<int>, q: seq<int>, done: set<int>, prio: nat, pr: nat)
    requires Partial(p, ids, q, done, prio, pr)
    ensures forall i :: 0 <= i < |p| && i !in done ==> q[i] == p[i]
  {
  }

  lemma PartialSkip(p: seq<int>, ids: seq<int>, q: seq<int>, done: set<int>, prio: nat, pr: nat)
    requires Partial(p, ids, q, done, prio, pr)
    requires forall i :: 0 <= i < |p| && i !in done ==> p[i] != pr
    ensures Partial(p, ids, q, done, prio, pr + 1)
  {
  }

  lemma PartialEnd(p: seq<int>, ids: seq<int>, q: seq<int>, done: set<int>, prio: nat)
    requires IsPermutation(p) && Partial(p, ids, q, done, prio, |p|)
    ensures Reordered(p, ids, q)
  {
    assert done == Upto(|p|);
    forall i | 0 <= i < |q|
      ensures 0 <= q[i] < |q|
    {
      assert i in done;
    }
    forall i, j | 0 <= i < j < |q|
      ensures q[i] != q[j]
    {
      assert i in done && j in done;
    }
  }

  // ----- choosing by priority

  /** The slot of the acceptable pool of least priority. */
  ghost predicate IsBest(p: seq<int>, ok: seq<bool>, k: nat)
    requires |p| == |ok|
  {
    k < |p| && ok[k] && forall i :: 0 <= i < |p| && ok[i] ==> p[k] <= p[i]
  }

  /** The slot with priority `v`, searched from slot `i` on. */
  function SlotOf(p: seq<int>, v: int, i: nat): (r: Option<nat>)
    ensures r.Some? ==> i <= r.value < |p| && p[r.value] == v
    ensures r.None? ==> forall k :: i <= k < |p| ==> p[k] != v
    decreases |p| - i
  {
    if i >= |p| then None else if p[i] == v then Some(i) else SlotOf(p, v, i + 1)
  }

  /** Tries the priorities from `v` on, in order. */
  function BestSlot(p: seq<int>, ok: seq<bool>, v: nat): (r: Option<nat>)
    requires |p| == |ok|
    ensures r.Some? ==> r.value < |p| && ok[r.value]
    decreases |p| - v
  {
    if v >= |p| then None
    else
      match SlotOf(p, v, 0)
      case Some(k) => if ok[k] then Some(k) else BestSlot(p, ok, v + 1)
      case None => BestSlot(p, ok, v + 1)
  }

  lemma {:induction false} BestSlotFrom(p: seq<int>, ok: seq<bool>, v: nat)
    requires |p| == |ok| && IsPermutation(p)
    ensures match BestSlot(p, ok, v)
            case Some(k) => p[k] >= v && forall i :: 0 <= i < |p| && ok[i] && p[i] >= v ==> p[k] <= p[i]
            case None => forall i :: 0 <= i < |p| && p[i] >= v ==> !ok[i]
    decreases |p| - v
  {
    if v < |p| {
      BestSlotFrom(p, ok, v + 1);
      PermutationCovers(p, v);
      var k := SlotOf(p, v, 0).value;
      assert forall i :: 0 <= i < |p| && p[i] == v ==> i == k;
    }
  }

  /** Trying all priorities finds the acceptable pool of least priority, if there is one. */
  lemma BestSlotIsBest(p: seq<int>, ok: seq<bool>)
    requires |p| == |ok| && IsPermutation(p)
    ensures match BestSlot(p, ok, 0)
            case Some(k) => IsBest(p, ok, k)
            case None => forall i :: 0 <= i < |p| ==> !ok[i]
  {
    BestSlotFrom(p, ok, 0);
  }

  // ----- cycling

  /** The slot `step` places after slot `from`, going round. */
  function Around(from: nat, step: nat, n: nat): (r: nat)
    ensures from < n && step <= n ==> r < n
  {
    if from + step < n then from + step else from + step - n
  }

  /** The first acceptable slot strictly after `from`, going round once. */
  function NextSlot(ok: seq<bool>, from: nat, step: nat): (r: Option<nat>)
    requires from < |ok| && step > 0
    ensures r.Some? ==> r.value < |ok| && ok[r.value] && r.value != from
    decreases |ok| - step
  {
    if step >= |ok| then None
    else if ok[Around(from, step, |ok|)] then Some(Around(from, step, |ok|))
    else NextSlot(ok, from, step + 1)
  }

  lemma NextSlotStep(ok: seq<bool>, from: nat, step: nat)
    requires from < |ok| && 0 < step < |ok|
    ensures NextSlot(ok, from, step)
            == if ok[Around(from, step, |ok|)] then Some(Around(from, step, |ok|)) else NextSlot(ok, from, step + 1)
  {
  }

  lemma NextSlotEnd(ok: seq<bool>, from: nat, step: nat)
    requires from < |ok| <= step && step > 0
    ensures NextSlot(ok, from, step) == None
  {
  }

  lemma {:induction false} NextSlotAround(ok: seq<bool>, from: nat, step: nat)
    requires from < |ok| && step > 0
    ensures match NextSlot(ok, from, step)
            case Some(k) => exists s :: step <= s < |ok| && k == Around(from, s, |ok|)
                                        && forall t :: step <= t < s ==> !ok[Around(from, t, |ok|)]
            case None => forall t :: step <= t < |ok| ==> !ok[Around(from, t, |ok|)]
    decreases |ok| - step
  {
    if step < |ok| {
      NextSlotAround(ok, from, step + 1);
    }
  }

  /** Every slot is reached in as many steps as it is ahead. */
  lemma AroundReaches(from: nat, j: nat, n: nat)
    requires from < n && j < n
    ensures Around(from, (j - from) % n, n) == j
    ensures (j - from) % n == 0 <==> j == from
  {
    ModUnique(j - from, n, if j >= from then 0 else -1, if j >= from then j - from else j - from + n);
  }

  lemma AroundDistance(from: nat, s: nat, n: nat)
    requires from < n && s < n
    ensures Around(from, s, n) < n && (Around(from, s, n) - from) % n == s
  {
    ModUnique(Around(from, s, n) - from, n, if from + s < n then 0 else -1, s);
  }

  /** Of all other acceptable slots it is the one least far ahead, going up and round. */
  lemma NextSlotIsFirst(ok: seq<bool>, from: nat)
    requires from < |ok|
    ensures match NextSlot(ok, from, 1)
            case Some(k) =>
              && k < |ok| && k != from && ok[k]
              && forall j :: 0 <= j < |ok| && j != from && ok[j] ==> (k - from) % |ok| <= (j - from) % |ok|
            case None => forall j :: 0 <= j < |ok| && j != from ==> !ok[j]
  {
    hide NextSlot, Around;
    NextSlotAround(ok, from, 1);
    var n, r := |ok|, NextSlot(ok, from, 1);
    var s := if r.None? then n
             else var s :| 1 <= s < n && r.value == Around(from, s, n)
                           && forall t :: 1 <= t < s ==> !ok[Around(from, t, n)]; s;
    if r.Some? {
      AroundDistance(from, s, n);
    }
    forall j | 0 <= j < n && j != from && ok[j]
      ensures s <= (j - from) % n < n
    {
      AroundReaches(from, j, n);
    }
  }
}

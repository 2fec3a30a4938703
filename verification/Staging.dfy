/** The table of staged work, sorted by staging time, and the counter of rollable items in it.
    The counter is not lowered everywhere it could be, so it can be too high, never too low. */
module Staging {
  import opened Basics
  import opened Ntime
  import opened WorkItem

  ghost function Rollables(ws: seq<Work>): (n: nat)
    reads ws`clone, ws`rolltime
    ensures n <= |ws|
  {
    if ws == [] then 0
    else Rollables(ws[..|ws| - 1]) + if ws[|ws| - 1].Rollable() then 1 else 0
  }

  ghost predicate Sorted(ws: seq<Work>)
    reads ws`stagedAt
  {
    forall i, j :: 0 <= i < j < |ws| ==> ws[i].stagedAt <= ws[j].stagedAt
  }

  lemma {:induction false} RollablesAppend(a: seq<Work>, b: seq<Work>)
    ensures Rollables(a + b) == Rollables(a) + Rollables(b)
  {
    if b == [] {
      assert a + b == a;
    } else {
      var last := |b| - 1;
      RollablesAppend(a, b[..last]);
      assert (a + b)[..|a| + last] == a + b[..last];
    }
  }

  lemma RollablesOfOne(w: Work)
    ensures Rollables([w]) == if w.Rollable() then 1 else 0
  {
    assert [w][..0] == [];
  }

  lemma RollablesSplit(ws: seq<Work>, i: nat)
    requires i < |ws|
    ensures Rollables(ws) == Rollables(ws[..i] + ws[i + 1..]) + if ws[i].Rollable() then 1 else 0
  {
    hide Rollables;
    var front, back := ws[..i], ws[i + 1..];
    Rejoin(ws, i);
    RollablesMiddle(front, ws[i], back);
  }

  lemma RollablesMiddle(front: seq<Work>, w: Work, back: seq<Work>)
    ensures Rollables((front + [w]) + back) == Rollables(front + back) + if w.Rollable() then 1 else 0
  {
    hide Rollables;
    RollablesAppend(front + [w], back);
    RollablesAppend(front, [w]);
    RollablesAppend(front, back);
    RollablesOfOne(w);
  }

  lemma {:induction false} AllRollable(ws: seq<Work>)
    ensures Rollables(ws) == |ws| <==> forall w :: w in ws ==> w.Rollable()
  {
    if ws != [] {
      AllRollable(ws[..|ws| - 1]);
      assert ws == ws[..|ws| - 1] + [ws[|ws| - 1]];
    }
  }

  lemma {:induction false} RollablesAre(ws: seq<Work>)
    ensures Rollables(ws) == |set i | 0 <= i < |ws| && !ws[i].clone && ws[i].rolltime != 0|
  {
    if ws != [] {
      var last := |ws| - 1;
      var front := ws[..last];
      RollablesAre(front);
      var before := set i | 0 <= i < |front| && !front[i].clone && front[i].rolltime != 0;
      assert (set i | 0 <= i < |ws| && !ws[i].clone && ws[i].rolltime != 0)
             == before + if !ws[last].clone && ws[last].rolltime != 0 then {last} else {};
    }
  }

  /** Where the stable sort of the hash table puts an item appended to a sorted table: after
      all items staged no later. */
  function Position(ws: seq<Work>, at: int): (k: nat)
    reads ws`stagedAt
    ensures k <= |ws| && (k > 0 ==> ws[k - 1].stagedAt <= at)
    ensures forall i :: k <= i < |ws| ==> ws[i].stagedAt > at
  {
    if ws == [] || ws[|ws| - 1].stagedAt <= at then |ws| else Position(ws[..|ws| - 1], at)
  }

  class Stage {
    var staged: seq<Work>
    var stagedRollable: int
    var frozen: bool
    /** Rollable items that left the table, or were never put in, without the counter going
        down again. */
    ghost var uncounted: nat

    ghost predicate Valid()
      reads this, staged`clone, staged`rolltime, staged`stagedAt
    {
      && stagedRollable == Rollables(staged) + uncounted
      && Sorted(staged)
      && Distinct(staged)
    }

    constructor ()
      ensures Valid() && staged == [] && stagedRollable == 0 && !frozen
    {
      staged, stagedRollable, frozen, uncounted := [], 0, false, 0;
    }

    /** The counter is never too low, and the table is sorted and free of repetitions. */
    lemma NeverTooLow()
      requires Valid()
      ensures |set i | 0 <= i < |staged| && !staged[i].clone && staged[i].rolltime != 0| <= stagedRollable
      ensures forall i, j :: 0 <= i < j < |staged| ==>
                staged[i] != staged[j] && staged[i].stagedAt <= staged[j].stagedAt
    {
      RollablesAre(staged);
    }

    /** Adds an item to the table, unless the queue is frozen: then the item is lost, but
        already counted. */
    method HashPush(work: Work) returns (ok: bool)
      requires Valid() && work !in staged
      modifies this`staged, this`stagedRollable, this`uncounted
      ensures Valid() && ok == !frozen
      ensures staged == if frozen then old(staged)
                        else Inserted(old(staged), work, Position(old(staged), work.stagedAt))
      ensures stagedRollable == old(stagedRollable) + if !work.clone && work.rolltime != 0 then 1 else 0
      ensures uncounted == old(uncounted) + if frozen && work.Rollable() then 1 else 0
    {
      hide Rollables, Sorted, Distinct, Position, Inserted;
      if work.Rollable() {
        stagedRollable := stagedRollable + 1;
      }
      if !frozen {
        var k := PlaceFor(work);
        InsertKeeps(staged, work, k);
        staged := Inserted(staged, work, k);
      } else if work.Rollable() {
        uncounted := uncounted + 1;
      }
      return !frozen;
    }

    method PlaceFor(work: Work) returns (k: nat)
      ensures k == Position(staged, work.stagedAt)
    {
      k := |staged|;
      assert staged[..k] == staged;
      while k > 0 && staged[k - 1].stagedAt > work.stagedAt
        invariant 0 <= k <= |staged|
        invariant Position(staged[..k], work.stagedAt) == Position(staged, work.stagedAt)
      {
        assert staged[..k][..k - 1] == staged[..k - 1];
        k := k - 1;
      }
    }

    /** Takes an item out. A non-rollable item is preferred when the counter shows that there
        is one; the search for it then always succeeds. */
    method HashPop() returns (work: Option<Work>)
      requires Valid()
      modifies this`staged, this`stagedRollable
      ensures Valid() && uncounted == old(uncounted)
      ensures work.None? <==> old(staged) == []
      ensures work.None? ==> staged == []
      ensures work.Some? ==>
                exists i :: 0 <= i < |old(staged)| && work.value == old(staged)[i]
                            && staged == old(staged)[..i] + old(staged)[i + 1..]
                            && (forall k :: 0 <= k < i ==> !old(staged)[k].clone && old(staged)[k].rolltime != 0)
                            && (i > 0 ==> work.value.clone || work.value.rolltime == 0)
      ensures work.Some? && work.value.Rollable() ==>
                |old(staged)| - Rollables(old(staged)) <= uncounted
    {
      hide Rollables, Sorted, Distinct;
      if |staged| == 0 {
        return None;
      }
      var i := 0;
      AllRollable(staged);
      if |staged| > stagedRollable {
        i := FirstNonRollable();
      }
      var found := staged[i];
      RemoveKeeps(staged, i);
      staged := staged[..i] + staged[i + 1..];
      if found.Rollable() {
        stagedRollable := stagedRollable - 1;
      }
      work := Some(found);
    }

    method FirstNonRollable() returns (i: nat)
      requires exists w :: w in staged && !w.Rollable()
      ensures i < |staged| && !staged[i].Rollable()
      ensures forall k :: 0 <= k < i ==> staged[k].Rollable()
    {
      i := 0;
      while staged[i].Rollable()
        invariant 0 <= i < |staged|
        invariant forall k :: 0 <= k < i ==> staged[k].Rollable()
        invariant exists k :: i <= k < |staged| && !staged[k].Rollable()
        decreases |staged| - i
      {
        i := i + 1;
      }
    }

    /** Rolls the first item that may be rolled, in place, and stages the clone taken between
        the two rolls. Nothing happens when the counter shows no rollable item. */
    method CloneAvailable(allowed: set<Work>, nextId: nat) returns (copy: Option<Work>)
      requires Valid() && forall i :: 0 <= i < |staged| ==> staged[i].Valid()
      modifies this`staged, this`stagedRollable, this`uncounted
      modifies staged`id, staged`bytes, staged`ntime, staged`rolls
      ensures Valid() && (copy.Some? <==> old(Source(allowed)).Some?)
      ensures copy.None? ==> staged == old(staged)
      ensures copy.None? ==>
                forall k :: 0 <= k < |staged| ==>
                  var w := staged[k];
                  w.stratum || w.pool.None? || w.rolltime == 0 || w.clone || w.rolls >= MAX_ROLLS || w !in allowed
      ensures copy.Some? ==>
                var w := old(staged)[old(Source(allowed)).value];
                w in allowed && !w.stratum && w.pool.Some? && w.rolltime != 0 && !w.clone && old(w.rolls) < MAX_ROLLS
      ensures copy.Some? ==>
                var m := old(Source(allowed)).value;
                && m < |old(staged)| && fresh(copy.value)
                && old(staged)[m].rolls == old(staged[m].rolls) + 2 <= MAX_ROLLS + 1
                && copy.value.IsCloneAt(Shifted(old(staged[m].Time()), 1))
                && old(staged)[m].Time() == Shifted(old(staged[m].Time()), 2)
                && staged == (if frozen then old(staged)
                              else Inserted(old(staged), copy.value, Position(old(staged), copy.value.stagedAt)))
      ensures stagedRollable == old(stagedRollable) && uncounted == old(uncounted)
      ensures forall k :: 0 <= k < |old(staged)| && old(Source(allowed)) != Some(k) ==>
                var w := old(staged)[k];
                w.id == old(w.id) && w.bytes == old(w.bytes) && w.ntime == old(w.ntime) && w.rolls == old(w.rolls)
    {
      hide Rollables, Sorted, Distinct, Position, Inserted;
      if stagedRollable == 0 {
        NoneRollable(allowed);
        return None;
      }
      var m := FirstAllowed(allowed);
      if m == |staged| {
        return None;
      }
      NoOther(m);
      var clone := staged[m].RollCloneRoll(nextId);
      var _ := HashPush(clone);
      copy := Some(clone);
    }

    /** The item that CloneAvailable rolls. */
    ghost function Source(allowed: set<Work>): (m: Option<nat>)
      reads this`staged, staged`stratum, staged`pool, staged`rolltime, staged`clone, staged`rolls
    {
      if exists m :: IsSource(allowed, m) then Some(var m :| IsSource(allowed, m); m) else None
    }

    ghost predicate IsSource(allowed: set<Work>, m: nat)
      reads this`staged, staged`stratum, staged`pool, staged`rolltime, staged`clone, staged`rolls
    {
      && m < |staged| && staged[m].CanRoll(staged[m] !in allowed)
      && forall k :: 0 <= k < m ==> !staged[k].CanRoll(staged[k] !in allowed)
    }

    lemma NoOther(m: nat)
      requires Valid() && m < |staged|
      ensures forall k :: 0 <= k < |staged| && k != m ==> staged[k] != staged[m]
    {
      hide Rollables, Sorted;
      forall k | 0 <= k < |staged| && k != m
        ensures staged[k] != staged[m]
      {
        assert k < m || m < k;
      }
    }

    lemma NoneRollable(allowed: set<Work>)
      requires Valid() && stagedRollable == 0
      ensures Source(allowed) == None
      ensures forall k :: 0 <= k < |staged| ==> !staged[k].CanRoll(staged[k] !in allowed)
    {
      hide Rollables;
      forall m: nat | m < |staged|
        ensures !staged[m].Rollable() && !IsSource(allowed, m)
      {
        RollablesSplit(staged, m);
      }
    }

    method FirstAllowed(allowed: set<Work>) returns (m: nat)
      ensures if m < |staged| then Source(allowed) == Some(m) else m == |staged| && Source(allowed) == None
      ensures m < |staged| ==> staged[m].CanRoll(staged[m] !in allowed)
      ensures m == |staged| ==> forall k :: 0 <= k < |staged| ==> !staged[k].CanRoll(staged[k] !in allowed)
    {
      m := 0;
      while m < |staged| && !staged[m].CanRoll(staged[m] !in allowed)
        invariant 0 <= m <= |staged|
        invariant forall k :: 0 <= k < m ==> !staged[k].CanRoll(staged[k] !in allowed)
      {
        m := m + 1;
      }
      assert m < |staged| ==> IsSource(allowed, m);
    }

    /** Drops every item of a set: those found stale, or those of one pool. The counter is
        left alone. */
    method Drop(gone: set<Work>) returns (dropped: nat)
      requires Valid()
      modifies this`staged, this`uncounted
      ensures Valid() && stagedRollable == old(stagedRollable)
      ensures staged == Kept(old(staged), gone) && dropped == |old(staged)| - |staged|
      ensures uncounted == old(uncounted) + Rollables(old(staged)) - Rollables(staged)
    {
      hide Rollables, Sorted, Distinct, Kept;
      KeptRollables(staged, gone);
      KeptSorted(staged, gone);
      var keep := FilterOut(gone);
      dropped := |staged| - |keep|;
      uncounted := uncounted + Rollables(staged) - Rollables(keep);
      staged := keep;
    }

    /** The table without the items of a set, in the same order. */
    method FilterOut(gone: set<Work>) returns (keep: seq<Work>)
      ensures keep == Kept(staged, gone) && |keep| <= |staged|
    {
      keep := [];
      for i := 0 to |staged|
        invariant keep == Kept(staged[..i], gone) && |keep| <= i
      {
        assert staged[..i + 1][..i] == staged[..i];
        if staged[i] !in gone {
          keep := keep + [staged[i]];
        }
      }
      assert staged[..|staged|] == staged;
    }
  }

  function Kept(ws: seq<Work>, gone: set<Work>): seq<Work> {
    if ws == [] then []
    else
      var last := ws[|ws| - 1];
      Kept(ws[..|ws| - 1], gone) + if last in gone then [] else [last]
  }

  lemma {:induction false} KeptRollables(ws: seq<Work>, gone: set<Work>)
    ensures Rollables(Kept(ws, gone)) <= Rollables(ws)
  {
    if ws != [] {
      var last := ws[|ws| - 1];
      KeptRollables(ws[..|ws| - 1], gone);
      RollablesAppend(Kept(ws[..|ws| - 1], gone), if last in gone then [] else [last]);
      RollablesOfOne(last);
    }
  }

  lemma {:induction false} KeptSorted(ws: seq<Work>, gone: set<Work>)
    requires Sorted(ws) && Distinct(ws)
    ensures Sorted(Kept(ws, gone)) && Distinct(Kept(ws, gone))
    ensures forall i :: 0 <= i < |Kept(ws, gone)| ==> Kept(ws, gone)[i] in ws && Kept(ws, gone)[i] !in gone
  {
    if ws != [] {
      var front, last := ws[..|ws| - 1], ws[|ws| - 1];
      assert ws == front + [last];
      assert Sorted(front) && Distinct(front);
      KeptSorted(front, gone);
      AppendKeeps(Kept(front, gone), ws, last);
    }
  }

  lemma NoneKept(gone: set<Work>)
    ensures Kept([], gone) == []
  {
  }

  lemma KeptStep(front: seq<Work>, w: Work, gone: set<Work>)
    ensures Kept(front + [w], gone) == Kept(front, gone) + if w in gone then [] else [w]
  {
    assert (front + [w])[..|front|] == front;
  }

  /** Each item is dropped or stays where it is among the others. */
  lemma {:induction false} KeptConcat(a: seq<Work>, b: seq<Work>, gone: set<Work>)
    ensures Kept(a + b, gone) == Kept(a, gone) + Kept(b, gone)
    ensures |b| == 1 ==> Kept(b, gone) == if b[0] in gone then [] else b
  {
    hide Kept;
    if b == [] {
      assert a + b == a;
      NoneKept(gone);
    } else {
      var front, last := b[..|b| - 1], b[|b| - 1];
      KeptConcat(a, front, gone);
      KeptStep(a + front, last, gone);
      KeptStep(front, last, gone);
      assert a + b == (a + front) + [last] && b == front + [last];
      NoneKept(gone);
    }
  }

  /** What is not dropped stays. */
  lemma {:induction false} KeptAll(ws: seq<Work>, gone: set<Work>, i: nat)
    requires i < |ws| && ws[i] !in gone
    ensures ws[i] in Kept(ws, gone)
  {
    if i < |ws| - 1 {
      KeptAll(ws[..|ws| - 1], gone, i);
    }
  }

  lemma AppendKeeps(kept: seq<Work>, ws: seq<Work>, last: Work)
    requires ws != [] && last == ws[|ws| - 1] && Sorted(ws) && Distinct(ws)
    requires Sorted(kept) && Distinct(kept) && forall i :: 0 <= i < |kept| ==> kept[i] in ws[..|ws| - 1]
    ensures Sorted(kept + [last]) && Distinct(kept + [last])
  {
    forall i | 0 <= i < |kept|
      ensures kept[i].stagedAt <= last.stagedAt && kept[i] != last
    {
      assert kept[i] in ws[..|ws| - 1];
      var k :| 0 <= k < |ws| - 1 && ws[k] == kept[i];
    }
  }

  function Inserted(ws: seq<Work>, w: Work, k: nat): seq<Work>
    requires k <= |ws|
  {
    ws[..k] + [w] + ws[k..]
  }

  /** A new item keeps the table sorted and goes behind those staged at the same time. */
  lemma InsertKeeps(ws: seq<Work>, w: Work, k: nat)
    requires Sorted(ws) && Distinct(ws) && w !in ws && k == Position(ws, w.stagedAt)
    ensures Sorted(Inserted(ws, w, k)) && Distinct(Inserted(ws, w, k))
    ensures Rollables(Inserted(ws, w, k)) == Rollables(ws) + if w.Rollable() then 1 else 0
  {
    hide Rollables, Position;
    RollablesInsert(ws, w, k);
    var r := Inserted(ws, w, k);
    InsertSorts(ws, w, k, r);
  }

  lemma InsertSorts(ws: seq<Work>, w: Work, k: nat, r: seq<Work>)
    requires Sorted(ws) && Distinct(ws) && w !in ws && k <= |ws| && |r| == |ws| + 1
    requires k > 0 ==> ws[k - 1].stagedAt <= w.stagedAt
    requires forall i :: k <= i < |ws| ==> ws[i].stagedAt > w.stagedAt
    requires r[k] == w && (forall i :: 0 <= i < k ==> r[i] == ws[i]) && forall i :: k < i < |r| ==> r[i] == ws[i - 1]
    ensures Sorted(r) && Distinct(r)
  {
    forall i, j | 0 <= i < j < |r|
      ensures r[i].stagedAt <= r[j].stagedAt && r[i] != r[j]
    {
      if i < k && j == k {
        assert r[i] == ws[i] && r[j] == w && ws[i] in ws;
        assert ws[i].stagedAt <= ws[k - 1].stagedAt;
      } else if i == k {
        assert r[i] == w && r[j] == ws[j - 1] && ws[j - 1] in ws;
      } else {
        var a, b := if i < k then i else i - 1, if j < k then j else j - 1;
        assert r[i] == ws[a] && r[j] == ws[b];
      }
    }
  }

  lemma RollablesInsert(ws: seq<Work>, w: Work, k: nat)
    requires k <= |ws|
    ensures Rollables(ws[..k] + [w] + ws[k..]) == Rollables(ws) + if w.Rollable() then 1 else 0
  {
    hide *;
    var front, back := ws[..k], ws[k..];
    assert front + back == ws;
    RollablesMiddle(front, w, back);
  }

  lemma RemoveKeeps(ws: seq<Work>, i: nat)
    requires i < |ws| && Sorted(ws) && Distinct(ws)
    ensures var r := ws[..i] + ws[i + 1..];
            Sorted(r) && Distinct(r) && Rollables(ws) == Rollables(r) + if ws[i].Rollable() then 1 else 0
  {
    RollablesSplit(ws, i);
  }
}

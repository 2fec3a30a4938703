/** Short runs of the pool table that end in the states in which its scheduling goes wrong. */
module PoolRuns {
  import opened Basics
  import opened PoolManager
  import Priorities
  import Quota
  import Schedule

  /** Two pools with quota 1 that can work: the second call of a load balancer takes the second
      pool and leaves the cursor there. */
  lemma SecondCallMovesCursor(s: Schedule.State, gcds: seq<nat>, input: Schedule.Input)
    requires gcds == [1, 1] && s == Schedule.State([0, 0], 0)
    requires input.workable == [true, true]
    ensures var r := Schedule.Select(s, gcds, input, None);
            && r.next == Schedule.State([1, 0], 0) && r.pick == 0
            && Schedule.Select(r.next, gcds, input, None).next == Schedule.State([2, 1], 1)
  {
    var works := input.workable;
    var t, u := Schedule.State([1, 0], 0), Schedule.State([2, 0], 1);
    assert Schedule.HasQuota(s.used, gcds, 0) && Schedule.HasQuota(t.used, gcds, 1);
    assert Schedule.Charged([0, 0], gcds, works, None, 0) == [1, 0];
    assert Schedule.Charged([1, 0], gcds, works, None, 0) == [2, 0];
    assert Schedule.Charged([2, 0], gcds, works, None, 1) == [2, 1];
    assert Schedule.Test(s, gcds, works, None) == (t, true);
    assert Schedule.Test(t, gcds, works, None) == (u, false);
    assert Schedule.Test(u, gcds, works, None) == (Schedule.State([2, 1], 1), true);
  }

  /** Removing that pool then leaves the cursor behind the table. */
  lemma RemovalStrandsCursor(s: Schedule.State, gcds: seq<nat>, input: Schedule.Input)
    requires gcds == [1, 1] && s == Schedule.State([0, 0], 0)
    requires input.workable == [true, true]
    ensures var twice := Schedule.Select(Schedule.Select(s, gcds, input, None).next, gcds, input, None).next;
            twice.cursor < |gcds| && !(twice.cursor < |gcds| - 1)
  {
    SecondCallMovesCursor(s, gcds, input);
  }

  /** In failover-only mode a counter becomes negative: after a refill, two pools that cannot
      work give their charges back to the pool of priority 0, which uses one of them. When the
      third quota is then set to 3 like the others, the divisor changes from 1 to 3, and the
      counter of that pool ends far above its quota, where it has none until the next refill. */
  lemma NegativeCounterReached()
    ensures var gcds: seq<nat> := [3, 3, 1];
            var input := Schedule.Input([true, false, false], 0);
            var r := Schedule.Select(Schedule.State([3, 3, 1], 0), gcds, input, Some(0));
            && Quota.Divisor([3, 3, 1]) == 1 && r.refilled && r.next.used == [-1, 1, 1]
            && Quota.Divisor([3, 3, 3]) == 3
            && forall word: Quota.Word :: Quota.Rescaled(word, r.next.used[0], 1, 3) > 3 / 3
  {
    var gcds: seq<nat>, works := [3, 3, 1], [true, false, false];
    assert !Schedule.SomeQuota([3, 3, 1], gcds);
    var s1 := Schedule.State(Schedule.NoneUsed(3), 1);
    assert s1.used == [0, 0, 0];
    assert Schedule.Charged([0, 0, 0], gcds, works, Some(0), 1) == [-1, 1, 0];
    assert Schedule.Charged([-1, 1, 0], gcds, works, Some(0), 2) == [-2, 1, 1];
    assert Schedule.Charged([-2, 1, 1], gcds, works, Some(0), 0) == [-1, 1, 1];
    assert Schedule.Test(s1, gcds, works, Some(0)) == (Schedule.State([-1, 1, 0], 2), false);
    assert Schedule.Test(Schedule.State([-1, 1, 0], 2), gcds, works, Some(0)) == (Schedule.State([-2, 1, 1], 0), false);
    assert Schedule.Test(Schedule.State([-2, 1, 1], 0), gcds, works, Some(0)) == (Schedule.State([-1, 1, 1], 0), true);
    Divisors();
    Quota.NegativeCounterMisscaled();
  }

  lemma Divisors()
    ensures Quota.Divisor([3, 3, 1]) == 1 && Quota.Divisor([3, 3, 3]) == 3
  {
    assert 1 in [3, 3, 1] && 3 in [3, 3, 3];
    Quota.DivisorBounds([3, 3, 1], 1);
    Quota.DivisorBounds([3, 3, 3], 3);
  }

  /** The same on a table: it starts from nothing, and ends with one pool, the cursor behind it
      and a disabled pool there. */
  method StrandCursor(m: Manager) returns (r: Response)
    requires m.Valid() && m.StaleOk() && m.strategy == LoadBalance && !m.failOnly && m.rotating == 0
    requires |m.pools| == 2 && m.current == m.pools[0] && GcdsOf(m.pools) == [1, 1] && UsedOf(m.pools) == [0, 0]
    requires WorkablesOf(m.pools) == [true, true]
    modifies m, m.pools, m.stale
    ensures m.Valid() && m.StaleOk() && r == Done
    ensures |m.pools| == 1 && m.rotating == 1 && m.InArray() && m.stale[0].removed && m.stale[0].enabled == Disabled
  {
    hide *;
    TwoCalls(m);
    r := RemoveSecond(m);
  }

  /** Counters and cursor after `k` of those calls. */
  function StateAfter(k: nat): Schedule.State {
    if k == 0 then Schedule.State([0, 0], 0)
    else if k == 1 then Schedule.State([1, 0], 0)
    else Schedule.State([2, 1], 1)
  }

  method TwoCalls(m: Manager)
    requires m.Valid() && m.StaleOk() && m.strategy == LoadBalance && !m.failOnly && m.rotating == 0
    requires |m.pools| == 2 && m.current == m.pools[0] && GcdsOf(m.pools) == [1, 1] && UsedOf(m.pools) == [0, 0]
    requires WorkablesOf(m.pools) == [true, true]
    modifies m`rotating, m.pools`quotaUsed, m.pools`shares, m.stale`quotaUsed
    ensures m.Valid() && m.StaleOk() && m.rotating == 1 && m.pools[0] != m.pools[1]
  {
    AtStart(m);
    hide *;
    OneCall(m, 0);
    OneCall(m, 1);
    AtCursor(m, 2);
  }

  /** One call of a load balancer on two pools that can work. */
  method OneCall(m: Manager, k: nat)
    requires m.Valid() && m.StaleOk() && m.strategy == LoadBalance && !m.failOnly && |m.pools| == 2
    requires m.current == m.pools[0] && GcdsOf(m.pools) == [1, 1] && WorkablesOf(m.pools) == [true, true]
    requires k < 2 && m.Schedules() == StateAfter(k)
    modifies m`rotating, m.pools`quotaUsed, m.pools`shares, m.stale`quotaUsed
    ensures m.Valid() && m.StaleOk() && m.Schedules() == StateAfter(k + 1)
    ensures GcdsOf(m.pools) == [1, 1] && WorkablesOf(m.pools) == [true, true]
  {
    hide *;
    AtCursor(m, k);
    var pool := m.SelectPool(false);
    NextState(m, k);
  }

  lemma AtStart(m: Manager)
    requires m.Valid() && m.rotating == 0 && |m.pools| == 2 && UsedOf(m.pools) == [0, 0]
    ensures m.Schedules() == StateAfter(0) && m.pools[0] != m.pools[1]
  {
    hide UsedOf;
  }

  lemma AtCursor(m: Manager, k: nat)
    requires m.Schedules() == StateAfter(k) && k <= 2 && |m.pools| == 2 && GcdsOf(m.pools) == [1, 1]
    ensures m.rotating == (if k < 2 then 0 else 1) && m.InArray() && Schedule.Ready(m.Schedules(), GcdsOf(m.pools))
    ensures m.strategy == LoadBalance ==> m.Rotates(false)
    ensures Schedule.SomeQuota(UsedOf(m.pools), GcdsOf(m.pools)) ==> m.InArray()
  {
    hide UsedOf, GcdsOf;
  }

  lemma NextState(m: Manager, k: nat)
    requires k < 2 && |m.pools| == 2 && m.current != null && !m.failOnly
    requires GcdsOf(m.pools) == [1, 1] && WorkablesOf(m.pools) == [true, true]
    ensures m.Spare() == None && |m.Inputs().workable| == 2
    ensures Schedule.Ready(StateAfter(k), GcdsOf(m.pools))
    ensures Schedule.Select(StateAfter(k), GcdsOf(m.pools), m.Inputs(), m.Spare()).next == StateAfter(k + 1)
  {
    hide UsedOf, GcdsOf, WorkablesOf, PriosOf, UsablesOf, Schedule.Select;
    SecondCallMovesCursor(StateAfter(0), GcdsOf(m.pools), m.Inputs());
  }

  method RemoveSecond(m: Manager) returns (r: Response)
    requires m.Valid() && m.StaleOk() && |m.pools| == 2 && m.current == m.pools[0] != m.pools[1] && m.rotating == 1
    modifies m, m.pools
    ensures m.Valid() && m.StaleOk() && r == Done
    ensures |m.pools| == 1 && m.rotating == 1 && m.InArray() && m.stale[0].removed && m.stale[0].enabled == Disabled
  {
    hide *;
    r := m.RemovePoolCommand(1);
    StrandedPool(m);
  }

  lemma StrandedPool(m: Manager)
    requires m.StaleOk() && |m.stale| > 0 && m.stale[0] !in m.pools && m.rotating == |m.pools|
    ensures m.stale[0].removed && m.stale[0].enabled == Disabled && m.InArray()
  {
  }

  /** And the cursor can be left beyond the array: three removals of the last pool, and then a
      new pool, for which the array is cut to the slots of two pools and one more. The next
      call with quota left would read outside the array. */
  method LoseCursor(m: Manager) returns (pool: Pool)
    requires m.Valid() && m.StaleOk() && |m.pools| == 4 && m.stale == [] && m.rotating == 3 && m.current == m.pools[0]
    modifies m, m.pools
    ensures m.Valid() && m.StaleOk() && |m.pools| == 2 && |m.stale| == 1 && m.rotating == 3 && !m.InArray()
    ensures Schedule.SomeQuota(UsedOf(m.pools), GcdsOf(m.pools))
  {
    RemoveAllButFirst(m);
    ghost var before := m.globalGcd;
    hide *;
    ValidTable(m);
    pool := m.AddPool();
    ValidTable(m);
    NewPoolHasQuota(m, before);
    CutOff(m);
  }

  method RemoveAllButFirst(m: Manager)
    requires m.Valid() && m.StaleOk() && |m.pools| == 4 && m.stale == [] && m.rotating == 3 && m.current == m.pools[0]
    modifies m, m.pools
    ensures m.Valid() && m.StaleOk() && m.pools == old(m.pools)[..1] && |m.stale| == 3 && m.rotating == 3
  {
    hide *;
    ghost var ps := m.pools;
    ValidTable(m);
    var r := m.RemovePoolCommand(3);
    ValidTable(m);
    assert m.pools == ps[..3];
    r := m.RemovePoolCommand(2);
    ValidTable(m);
    assert m.pools == ps[..2];
    r := m.RemovePoolCommand(1);
    assert m.pools == ps[..1];
  }

  lemma ValidTable(m: Manager)
    requires m.Valid()
    ensures m.globalGcd > 0 && forall i, j :: 0 <= i < j < |m.pools| ==> m.pools[i] != m.pools[j]
  {
  }

  lemma CutOff(m: Manager)
    requires m.rotating >= |m.pools| + |m.stale|
    ensures !m.InArray()
  {
  }

  lemma NewPoolHasQuota(m: Manager, before: nat)
    requires m.QuotasScaled() && |m.pools| > 0 && m.pools[|m.pools| - 1].quota == 1
    requires m.globalGcd > 0
    requires m.pools[|m.pools| - 1].quotaUsed == Quota.Rescaled(m.word, 0, before, m.globalGcd)
    ensures Schedule.SomeQuota(UsedOf(m.pools), GcdsOf(m.pools))
  {
    hide UsedOf, GcdsOf, QuotasOf, Quota.Divisor, Quota.Rescaled;
    var n := |m.pools| - 1;
    assert m.Quotas()[n] == 1 && 1 in m.Quotas();
    Quota.DivisorBounds(m.Quotas(), 1);
    Quota.RescaledExact(m.word, 0, before, m.globalGcd);
    assert Schedule.HasQuota(UsedOf(m.pools), GcdsOf(m.pools), n);
  }

  /** A cursor on a slot behind the table is back in it after at most one call more than the
      pool there has quota left. */
  method CallCursorBack(m: Manager, ghost q: Pool) returns (calls: nat)
    requires m.Valid() && m.StaleOk() && m.current != null && m.strategy == LoadBalance
    requires |m.pools| <= m.rotating < |m.pools| + |m.stale| && q == m.StrayPool()
    modifies m`rotating, m.pools`quotaUsed, m.pools`shares, m.stale`quotaUsed
    ensures m.Valid() && m.rotating < |m.pools|
    ensures calls <= Max(0, q.quotaGcd - old(q.quotaUsed)) + 1
  {
    hide Manager.Valid, Manager.StaleOk, Manager.StrayCall, Manager.StraySeen, Manager.Schedules, Manager.Inputs,
      Manager.Spare, Schedule.Ready, Schedule.SomeQuota, Schedule.Select, Schedule.InTable, UsedOf, GcdsOf;
    calls := 0;
    while m.rotating >= |m.pools|
      invariant m.Valid() && m.StaleOk() && m.current != null
      invariant m.rotating >= |m.pools| ==>
                  && m.rotating == old(m.rotating) && q == m.StrayPool()
                  && q.quotaUsed == old(q.quotaUsed) + calls
      invariant calls <= Max(0, q.quotaGcd - old(q.quotaUsed)) + if m.rotating < |m.pools| then 1 else 0
      decreases if m.rotating >= |m.pools| then Max(0, q.quotaGcd - q.quotaUsed + 1) else 0,
                if m.rotating >= |m.pools| then 1 else 0
    {
      var pool := m.SelectPool(false);
      calls := calls + 1;
    }
  }
}

/** The set of pools the miner draws work from: which are in use, in which order of
    priority, and which one is current. */
module PoolManager {
  import opened Basics
  import opened Priorities
  import Quota
  import Schedule

  datatype Enable = Disabled | Enabled | Rejecting

  datatype Strategy = Failover | RoundRobin | Rotate | LoadBalance | Balance

  datatype Response = NoPools | InvalidId(id: int) | DuplicateId(id: int) | MissingId | LastPool | ActivePool
    | NegativeQuota(quota: int) | Done

  class Pool {
    var poolNo: nat
    var prio: int
    var quota: nat
    var quotaGcd: nat
    var quotaUsed: int
    var shares: int
    var idle: bool
    var enabled: Enable
    var hasStratum: bool
    var stratumActive: bool
    var removed: bool

    constructor (no: nat)
      ensures poolNo == prio == no && quota == 1 && quotaUsed == 0
      ensures !removed && !idle && enabled == Disabled && !hasStratum
    {
      poolNo, prio, quota, quotaGcd, quotaUsed, shares := no, no, 1, 0, 0, 0;
      idle, enabled, removed := false, Disabled, false;
      hasStratum, stratumActive := false, false;
    }

    predicate Usable()
      reads this`idle, this`enabled
    {
      !idle && enabled == Enabled
    }

    predicate Workable()
      reads this`idle, this`enabled, this`hasStratum, this`stratumActive
    {
      !idle && enabled == Enabled && (hasStratum ==> stratumActive)
    }
  }

  // One attribute of all pools of a table, by slot.

  ghost function PriosOf(ps: seq<Pool>): (r: seq<int>)
    reads ps`prio
    ensures |r| == |ps| && forall i :: 0 <= i < |r| ==> r[i] == ps[i].prio
  {
    if ps == [] then [] else PriosOf(ps[..|ps| - 1]) + [ps[|ps| - 1].prio]
  }

  ghost function UsablesOf(ps: seq<Pool>): (r: seq<bool>)
    reads ps`idle, ps`enabled
    ensures |r| == |ps| && forall i :: 0 <= i < |r| ==> r[i] == ps[i].Usable()
  {
    if ps == [] then [] else UsablesOf(ps[..|ps| - 1]) + [ps[|ps| - 1].Usable()]
  }

  ghost function QuotasOf(ps: seq<Pool>): (r: seq<nat>)
    reads ps`quota
    ensures |r| == |ps| && forall i :: 0 <= i < |r| ==> r[i] == ps[i].quota
  {
    if ps == [] then [] else QuotasOf(ps[..|ps| - 1]) + [ps[|ps| - 1].quota]
  }

  ghost function UsedOf(ps: seq<Pool>): (r: seq<int>)
    reads ps`quotaUsed
    ensures |r| == |ps| && forall i :: 0 <= i < |r| ==> r[i] == ps[i].quotaUsed
  {
    if ps == [] then [] else UsedOf(ps[..|ps| - 1]) + [ps[|ps| - 1].quotaUsed]
  }

  ghost function GcdsOf(ps: seq<Pool>): (r: seq<nat>)
    reads ps`quotaGcd
    ensures |r| == |ps| && forall i :: 0 <= i < |r| ==> r[i] == ps[i].quotaGcd
  {
    if ps == [] then [] else GcdsOf(ps[..|ps| - 1]) + [ps[|ps| - 1].quotaGcd]
  }

  ghost function WorkablesOf(ps: seq<Pool>): (r: seq<bool>)
    reads ps`idle, ps`enabled, ps`hasStratum, ps`stratumActive
    ensures |r| == |ps| && forall i :: 0 <= i < |r| ==> r[i] == ps[i].Workable()
  {
    if ps == [] then [] else WorkablesOf(ps[..|ps| - 1]) + [ps[|ps| - 1].Workable()]
  }

  class Manager {
    var pools: seq<Pool>
    /** What the array of pools still holds behind the table, after pools were removed. */
    var stale: seq<Pool>
    var current: Pool?
    var strategy: Strategy
    var failOnly: bool
    var globalGcd: nat
    var rotating: nat
    /** How many values an unsigned long has on this system. */
    const word: Quota.Word

    /** Slot numbers agree with the table (so no pool is in it twice), the priorities are
        0, 1, ..., n - 1 in some order, and the current pool is one of the pools. */
    ghost predicate Valid()
      reads this`pools, this`current, this`globalGcd, pools`poolNo, pools`prio
    {
      && (forall i :: 0 <= i < |pools| ==> pools[i].poolNo == i)
      && IsPermutation(Prios())
      && (current != null ==> current in pools)
      && globalGcd > 0
    }

    ghost function Prios(): (r: seq<int>)
      reads this`pools, pools`prio
      ensures |r| == |pools| && forall i :: 0 <= i < |r| ==> r[i] == pools[i].prio
    {
      PriosOf(pools)
    }

    ghost function Usables(): (r: seq<bool>)
      reads this`pools, pools`idle, pools`enabled
      ensures |r| == |pools| && forall i :: 0 <= i < |r| ==> r[i] == pools[i].Usable()
    {
      UsablesOf(pools)
    }

    constructor (strategy: Strategy, failOnly: bool, word: Quota.Word)
      ensures Valid() && pools == [] && stale == [] && current == null && rotating == 0 && globalGcd == 1
      ensures this.strategy == strategy && this.failOnly == failOnly && this.word == word
    {
      this.strategy, this.failOnly, this.word := strategy, failOnly, word;
      pools, stale, current, globalGcd, rotating := [], [], null, 1, 0;
    }

    /** The rotation cursor is on a slot of the array, in the table or behind it. */
    predicate InArray()
      reads this`pools, this`stale, this`rotating
    {
      rotating < |pools| + |stale|
    }

    /** What is behind the table was moved to another slot, or was removed and so disabled. */
    ghost predicate StaleOk()
      reads this`pools, this`stale, stale`removed, stale`enabled
    {
      forall k :: 0 <= k < |stale| ==> stale[k] in pools || (stale[k].removed && stale[k].enabled == Disabled)
    }

    /** The first pool becomes current once the configuration is read. */
    method Start()
      requires Valid() && pools != []
      modifies this`current
      ensures Valid() && current == pools[0]
    {
      hide PriosOf, UsablesOf, QuotasOf;
      current := pools[0];
    }

    /** The pool with a given priority. In a valid state the search never fails, so the
        fallback on the slot of that number is never used. */
    method PriorityPool(choice: nat) returns (ret: Pool, fellBack: bool)
      requires Valid() && choice < |pools|
      ensures ret in pools && ret.prio == choice && !fellBack
      ensures SlotOf(Prios(), choice, 0) == Some(ret.poolNo) && pools[ret.poolNo] == ret
    {
      hide PriosOf, UsablesOf, QuotasOf;
      var found: Pool? := null;
      for i := 0 to |pools|
        invariant found == null
        invariant forall k :: 0 <= k < i ==> pools[k].prio != choice
      {
        if pools[i].prio == choice {
          found := pools[i];
          break;
        }
      }
      fellBack := found == null;
      ret := if found == null then pools[choice] else found;
      PermutationCovers(Prios(), choice);
    }

    /** A new pool comes last. The array is cut to one slot more than the table needs. */
    method AddPool() returns (pool: Pool)
      requires Valid()
      modifies this`pools, this`stale, this`globalGcd, pools`quotaUsed, pools`quotaGcd
      ensures Valid() && fresh(pool) && pools == old(pools) + [pool]
      ensures stale == if |old(stale)| > 1 then [old(stale)[1]] else []
      ensures old(StaleOk()) ==> StaleOk()
      ensures InArray() <==> rotating <= |old(pools)| || (rotating == |pools| && |old(stale)| > 1)
      ensures pool.quota == 1 && !pool.removed && !pool.idle && pool.enabled == Disabled && !pool.hasStratum
      ensures pool.quotaUsed == Quota.Rescaled(word, 0, old(globalGcd), globalGcd)
      ensures forall i :: 0 <= i < |old(pools)| ==>
                pools[i].quotaUsed == Quota.Rescaled(word, old(pools[i].quotaUsed), old(globalGcd), globalGcd)
      ensures Prios() == old(Prios()) + [|old(pools)|]
      ensures QuotasScaled()
    {
      hide PriosOf, UsablesOf, QuotasOf, IsPermutation, QuotasScaled, Quota.Rescaled, Quota.Divisor, StaleOk;
      pool := Append();
      ghost var n := |pools| - 1;
      assert pools[n] == pool;
      AdjustQuotaGcd();
    }

    method Append() returns (pool: Pool)
      requires Valid()
      modifies this`pools, this`stale
      ensures Valid() && fresh(pool) && pools == old(pools) + [pool]
      ensures stale == if |old(stale)| > 1 then [old(stale)[1]] else []
      ensures old(StaleOk()) ==> StaleOk()
      ensures pool.quota == 1 && !pool.removed && !pool.idle && pool.enabled == Disabled && !pool.hasStratum
      ensures pool.quotaUsed == 0 && Prios() == old(Prios()) + [|old(pools)|]
    {
      hide PriosOf, IsPermutation;
      AppendedPermutation(Prios());
      pool := new Pool(|pools|);
      ghost var before := pools;
      pools := pools + [pool];
      stale := if |stale| > 1 then [stale[1]] else [];
      assert Prios() == old(Prios()) + [|before|];
    }

    // ----- quotas

    ghost function Quotas(): (r: seq<nat>)
      reads this`pools, pools`quota
      ensures |r| == |pools| && forall i :: 0 <= i < |r| ==> r[i] == pools[i].quota
    {
      QuotasOf(pools)
    }

    ghost predicate QuotasScaled()
      reads this`pools, this`globalGcd, pools`quota, pools`quotaGcd
    {
      && globalGcd == Quota.Divisor(Quotas())
      && forall i :: 0 <= i < |pools| ==> pools[i].quotaGcd == pools[i].quota / globalGcd
    }

    method AdjustQuotaGcd()
      requires forall i :: 0 <= i < |pools| ==> pools[i].poolNo == i
      modifies this`globalGcd, pools`quotaUsed, pools`quotaGcd
      ensures globalGcd > 0 && QuotasScaled() && Prios() == old(Prios()) && Quotas() == old(Quotas())
      ensures globalGcd == Quota.Divisor(Quotas())
      ensures forall i :: 0 <= i < |pools| ==> pools[i].quotaGcd == pools[i].quota / globalGcd
      ensures forall i :: 0 <= i < |pools| ==>
                pools[i].quotaUsed == Quota.Rescaled(word, old(pools[i].quotaUsed), old(globalGcd), globalGcd)
    {
      hide PriosOf, UsablesOf, QuotasOf;
      var lowest := LowestQuota();
      var gcd: nat := 1;
      if lowest.Some? {
        gcd := SearchDivisor(lowest.value);
      }
      ScaleQuotas(gcd);
    }

    /** The API command: sets the quota of a pool and scales all quotas again. */
    method PoolQuota(id: int, quota: int) returns (r: Response)
      requires Valid()
      modifies this`globalGcd, pools`quota, pools`quotaUsed, pools`quotaGcd
      ensures Valid()
      ensures r == Done <==> 0 <= id < |pools| && quota >= 0
      ensures r == NoPools <==> pools == []
      ensures r == InvalidId(id) <==> pools != [] && !(0 <= id < |pools|)
      ensures r == NegativeQuota(quota) <==> 0 <= id < |pools| && quota < 0
      ensures r != Done ==> globalGcd == old(globalGcd) && Quotas() == old(Quotas())
      ensures r != Done ==> forall q :: q in pools ==>
                q.quotaUsed == old(q.quotaUsed) && q.quotaGcd == old(q.quotaGcd)
      ensures r == Done ==> Quotas() == old(Quotas())[id := quota] && QuotasScaled()
      ensures r == Done ==> forall i :: 0 <= i < |pools| ==>
                pools[i].quotaUsed == Quota.Rescaled(word, old(pools[i].quotaUsed), old(globalGcd), globalGcd)
    {
      hide PriosOf, UsablesOf, QuotasOf, IsPermutation, QuotasScaled;
      if |pools| == 0 {
        return NoPools;
      }
      if id < 0 || id >= |pools| {
        return InvalidId(id);
      }
      if quota < 0 {
        return NegativeQuota(quota);
      }
      SlotNumbers();
      ghost var before := Quotas();
      pools[id].quota := quota;
      assert Quotas() == before[id := quota];
      AdjustQuotaGcd();
      r := Done;
    }

    method LowestQuota() returns (lowest: Option<nat>)
      ensures lowest == Quota.Least(Quotas())
    {
      hide PriosOf, UsablesOf, QuotasOf;
      ghost var quotas := Quotas();
      lowest := None;
      for i := 0 to |pools|
        invariant lowest == Quota.Least(quotas[..i])
      {
        assert quotas[..i + 1][..i] == quotas[..i];
        if pools[i].quota > 0 && (lowest.None? || pools[i].quota < lowest.value) {
          lowest := Some(pools[i].quota);
        }
      }
      assert quotas[..|pools|] == quotas;
    }

    method SearchDivisor(lowest: nat) returns (gcd: nat)
      requires lowest > 0
      ensures gcd == Quota.Scan(Quotas(), lowest)
    {
      hide PriosOf, UsablesOf, QuotasOf;
      ghost var quotas := Quotas();
      gcd := lowest;
      assert quotas[0..] == quotas;
      for i := 0 to |pools|
        invariant gcd > 0
        invariant Quota.Scan(quotas[i..], gcd) == Quota.Scan(quotas, lowest)
      {
        assert quotas[i..][1..] == quotas[i + 1..];
        if pools[i].quota > 0 {
          gcd := LowerToDivisor(pools[i].quota, gcd);
        }
      }
    }

    static method LowerToDivisor(quota: nat, start: nat) returns (gcd: nat)
      requires quota > 0 && start > 0
      ensures gcd == Quota.DivisorUpTo(quota, start)
    {
      hide PriosOf, UsablesOf, QuotasOf;
      gcd := start;
      while quota % gcd != 0
        invariant gcd > 0 && Quota.DivisorUpTo(quota, gcd) == Quota.DivisorUpTo(quota, start)
        decreases gcd
      {
        gcd := gcd - 1;
      }
    }

    method ScaleQuotas(gcd: nat)
      requires gcd > 0 && forall i :: 0 <= i < |pools| ==> pools[i].poolNo == i
      modifies this`globalGcd, pools`quotaUsed, pools`quotaGcd
      ensures globalGcd == gcd && Prios() == old(Prios()) && Quotas() == old(Quotas())
      ensures forall i :: 0 <= i < |pools| ==>
                && pools[i].quotaGcd == pools[i].quota / gcd
                && pools[i].quotaUsed == Quota.Rescaled(word, old(pools[i].quotaUsed), old(globalGcd), gcd)
    {
      hide PriosOf, UsablesOf, QuotasOf;
      for i := 0 to |pools|
        invariant globalGcd == old(globalGcd)
        invariant forall k :: 0 <= k < i ==>
                    pools[k].quotaUsed == Quota.Rescaled(word, old(pools[k].quotaUsed), globalGcd, gcd)
        invariant forall k :: 0 <= k < i ==> pools[k].quotaGcd == pools[k].quota / gcd
        invariant forall k :: i <= k < |pools| ==> pools[k].quotaUsed == old(pools[k].quotaUsed)
      {
        pools[i].quotaUsed := Quota.Rescaled(word, pools[i].quotaUsed, globalGcd, gcd);
        pools[i].quotaGcd := pools[i].quota / gcd;
      }
      globalGcd := gcd;
    }

    // ----- switching

    /** Chooses the current pool again, after putting `selected` first in priority. */
    method SwitchPools(selected: Pool?)
      requires Valid() && current != null
      requires selected != null ==> selected in pools
      modifies this`current, pools`prio
      ensures Valid() && current != null
      ensures Prios() == if selected != null then Promoted(old(Prios()), selected.poolNo) else old(Prios())
      ensures strategy !in {RoundRobin, Rotate} ==>
                current == match BestSlot(Prios(), Usables(), 0)
                           case Some(k) => pools[k]
                           case None => old(current)
      ensures strategy in {RoundRobin, Rotate} ==>
                current == if selected != null && !selected.idle then selected
                           else match NextSlot(Usables(), old(current.poolNo), 1)
                                case Some(k) => pools[k]
                                case None => old(current)
      ensures strategy !in {RoundRobin, Rotate} || selected == null || selected.idle ==>
                current == old(current) || (!current.idle && current.enabled == Enabled)
      ensures strategy !in {RoundRobin, Rotate} ==>
                forall q :: q in pools && !q.idle && q.enabled == Enabled ==>
                  !current.idle && current.enabled == Enabled && current.prio <= q.prio
      ensures strategy in {RoundRobin, Rotate} && (selected == null || selected.idle) ==>
                var f, n := old(current.poolNo), |pools|;
                forall j :: 0 <= j < n && j != f && !pools[j].idle && pools[j].enabled == Enabled ==>
                  current != old(current) && (current.poolNo - f) % n <= (j - f) % n
    {
      hide PriosOf, UsablesOf, QuotasOf, BestSlot, NextSlot, IsPermutation, SlotOf, Promoted, Valid;
      CurrentInTable();
      SlotNumbers();
      if selected != null {
        PutFirst(selected);
      }
      if strategy in {RoundRobin, Rotate} {
        if selected != null && !selected.idle {
          SwitchTo(selected);
        } else {
          CycleInUse();
        }
      } else {
        BestInUse();
        TakeBest();
      }
    }

    /** What the two searches find, by the pools' own fields. */
    lemma BestInUse()
      requires Valid() && current != null
      ensures match BestSlot(Prios(), Usables(), 0)
              case Some(k) =>
                && k < |pools| && !pools[k].idle && pools[k].enabled == Enabled
                && forall q :: q in pools && !q.idle && q.enabled == Enabled ==> pools[k].prio <= q.prio
              case None => forall q :: q in pools ==> q.idle || q.enabled != Enabled
    {
      hide PriosOf, UsablesOf, BestSlot, IsPermutation;
      BestSlotIsBest(Prios(), Usables());
      forall q | q in pools
        ensures exists i :: 0 <= i < |pools| && pools[i] == q && Usables()[i] == q.Usable() && Prios()[i] == q.prio
      {
      }
    }

    lemma NextInUse(f: nat)
      requires f < |pools|
      ensures match NextSlot(Usables(), f, 1)
              case Some(k) =>
                && k < |pools| && k != f && !pools[k].idle && pools[k].enabled == Enabled
                && forall j :: 0 <= j < |pools| && j != f && !pools[j].idle && pools[j].enabled == Enabled ==>
                     (k - f) % |pools| <= (j - f) % |pools|
              case None => forall j :: 0 <= j < |pools| && j != f ==> pools[j].idle || pools[j].enabled != Enabled
    {
      hide UsablesOf, NextSlot;
      NextSlotIsFirst(Usables(), f);
    }

    /** Gives `selected` priority 0 and moves the pools before it back by one. */
    method PutFirst(selected: Pool)
      requires Valid() && selected in pools
      modifies pools`prio
      ensures Valid() && Prios() == Promoted(old(Prios()), selected.poolNo)
    {
      hide PriosOf, UsablesOf, QuotasOf, IsPermutation;
      ghost var p, k := Prios(), selected.poolNo;
      PromotedPermutation(p, k);
      if selected.prio != 0 {
        MoveBack(selected);
        selected.prio := 0;
        assert selected == pools[k];
      } else {
        PermutationHasOne(p, k);
      }
      SamePrios(Promoted(p, k));
    }

    lemma SamePrios(p: seq<int>)
      requires |p| == |pools| && forall i :: 0 <= i < |pools| ==> pools[i].prio == p[i]
      ensures Prios() == p
    {
      hide PriosOf;
    }

    method MoveBack(selected: Pool)
      requires Valid() && selected in pools
      modifies pools`prio
      ensures forall i :: 0 <= i < |pools| ==>
                pools[i].prio == if old(pools[i].prio) < old(selected.prio) then old(pools[i].prio) + 1
                                 else old(pools[i].prio)
    {
      hide PriosOf, UsablesOf, QuotasOf;
      ghost var p, v := Prios(), selected.prio;
      for i := 0 to |pools|
        invariant selected.prio == v
        invariant forall j :: 0 <= j < i ==> pools[j].prio == if p[j] < v then p[j] + 1 else p[j]
        invariant forall j :: i <= j < |pools| ==> pools[j].prio == p[j]
      {
        if pools[i].prio < selected.prio {
          pools[i].prio := pools[i].prio + 1;
        }
      }
    }

    method TakeBest()
      requires Valid() && current != null
      modifies this`current
      ensures Valid() && current == match BestSlot(Prios(), Usables(), 0)
                                    case Some(k) => pools[k]
                                    case None => old(current)
    {
      hide PriosOf, UsablesOf, QuotasOf, IsPermutation, BestSlot;
      current := FirstUsable();
    }

    /** The first usable pool in order of priority, or else the current one. */
    method FirstUsable() returns (pool: Pool)
      requires Valid() && current != null
      ensures Fallback() < |pools| && pool == pools[Fallback()]
    {
      hide PriosOf, UsablesOf, QuotasOf, IsPermutation;
      for i := 0 to |pools|
        invariant BestSlot(Prios(), Usables(), i) == BestSlot(Prios(), Usables(), 0)
      {
        var tp, _ := PriorityPool(i);
        if tp.Usable() {
          return tp;
        }
      }
      pool := current;
    }

    method CycleInUse()
      requires Valid() && current != null
      modifies this`current
      ensures Valid() && current == match NextSlot(Usables(), old(current.poolNo), 1)
                                    case Some(k) => pools[k]
                                    case None => old(current)
      ensures current == old(current) || (!current.idle && current.enabled == Enabled)
      ensures var f, n := old(current.poolNo), |pools|;
              forall j :: 0 <= j < n && j != f && !pools[j].idle && pools[j].enabled == Enabled ==>
                current != old(current) && (current.poolNo - f) % n <= (j - f) % n
    {
      hide *;
      CurrentInTable();
      NextInUse(current.poolNo);
      SlotNumbers();
      CycleOn();
    }

    method CycleOn()
      requires Valid() && current != null
      modifies this`current
      ensures Valid() && current == match NextSlot(Usables(), old(current.poolNo), 1)
                                    case Some(k) => pools[k]
                                    case None => old(current)
    {
      hide PriosOf, UsablesOf, QuotasOf, IsPermutation, NextSlot, Valid;
      CurrentInTable();
      var from, next := current.poolNo, current.poolNo;
      var i := 1;
      while i < |pools|
        invariant 1 <= i <= |pools| && current == old(current) && Valid()
        invariant next == Around(from, i - 1, |pools|)
        invariant NextSlot(Usables(), from, i) == NextSlot(Usables(), from, 1)
      {
        NextSlotStep(Usables(), from, i);
        next := next + 1;
        if next >= |pools| {
          next := 0;
        }
        if pools[next].Usable() {
          SwitchTo(pools[next]);
          return;
        }
        i := i + 1;
      }
      NextSlotEnd(Usables(), from, i);
    }

    method SwitchTo(pool: Pool)
      requires Valid() && pool in pools
      modifies this`current
      ensures Valid() && current == pool
    {
      hide IsPermutation;
      current := pool;
    }

    // ----- removing

    /** Takes a pool that is not current out of the table; the last pool takes its slot. */
    method RemovePool(pool: Pool)
      requires Valid() && pool in pools && pool != current
      modifies this`pools, this`stale, pools`prio, pools`poolNo, pool`removed
      ensures Valid() && pool !in pools && pool.removed && current == old(current) && pool.poolNo == |old(pools)|
      ensures |pools| == |old(pools)| - 1 && stale == [old(pools)[|pools|]] + old(stale)
      ensures rotating < |pools| <==> rotating < |old(pools)| && rotating != |old(pools)| - 1
      ensures old(StaleOk()) && pool.enabled == Disabled ==> StaleOk()
      ensures forall i :: 0 <= i < |pools| ==> pools[i] == old(pools)[if i == old(pool.poolNo) then |pools| else i]
      ensures Prios() == Removed(old(Prios()), old(pool.poolNo))
    {
      hide PriosOf, UsablesOf, QuotasOf, IsPermutation, StaleOk, Closed;
      ghost var p, k := Prios(), pool.poolNo;
      RemovedPermutation(p, k);
      MoveUp(pool);
      TakeOut(pool);
      SamePrios(Removed(p, k));
    }

    method MoveUp(pool: Pool)
      requires Valid() && pool in pools
      modifies pools`prio
      ensures forall i :: 0 <= i < |pools| ==> pools[i].prio == Closed(old(pools[i].prio), old(pool.prio))
    {
      hide PriosOf, UsablesOf, QuotasOf;
      ghost var p, v := Prios(), pool.prio;
      for i := 0 to |pools|
        invariant pool.prio == v
        invariant forall j :: 0 <= j < i ==> pools[j].prio == Closed(p[j], v)
        invariant forall j :: i <= j < |pools| ==> pools[j].prio == p[j]
      {
        if pools[i].prio > pool.prio {
          pools[i].prio := pools[i].prio - 1;
        }
      }
    }

    method TakeOut(pool: Pool)
      requires forall i :: 0 <= i < |pools| ==> pools[i].poolNo == i
      requires pool in pools
      modifies this`pools, this`stale, pools`poolNo, pool`removed
      ensures pool.removed && pool !in pools && |pools| == |old(pools)| - 1 && pool.poolNo == |old(pools)|
      ensures stale == [old(pools)[|pools|]] + old(stale)
      ensures old(StaleOk()) && pool.enabled == Disabled ==> StaleOk()
      ensures forall i :: 0 <= i < |pools| ==> pools[i].poolNo == i
      ensures forall i :: 0 <= i < |pools| ==> pools[i] == old(pools)[if i == old(pool.poolNo) then |pools| else i]
      ensures forall q :: q in old(pools) && q != pool ==> q in pools
    {
      hide PriosOf, UsablesOf, QuotasOf;
      var last := |pools| - 1;
      ghost var before, k := pools, pool.poolNo;
      if pool.poolNo < last {
        pools[last].poolNo := pool.poolNo;
        pools := pools[pool.poolNo := pools[last]];
      }
      pool.poolNo := |pools|;
      pool.removed := true;
      stale := [pools[last]] + stale;
      pools := pools[..last];
      forall q | q in before && q != pool
        ensures q in pools
      {
        var i :| 0 <= i < |before| && before[i] == q;
        assert pools[if i == last then k else i] == q;
      }
    }

    lemma SlotNumbers()
      requires Valid()
      ensures forall i :: 0 <= i < |pools| ==> pools[i].poolNo == i
    {
    }

    /** The API command: the last pool cannot be removed, and neither can the pool that stays
        current even after a switch. */
    method RemovePoolCommand(id: int) returns (r: Response)
      requires Valid() && (pools != [] ==> current != null)
      modifies this`pools, this`stale, this`current, pools`prio, pools`poolNo, pools`enabled, pools`removed
      ensures Valid() && (pools != [] ==> current != null)
      ensures r == Done <==> |pools| < |old(pools)|
      ensures r == Done ==> |pools| == |old(pools)| - 1 && 0 <= id < |old(pools)| && old(pools)[id] !in pools
      ensures r != Done ==> pools == old(pools) && Prios() == old(Prios())
      ensures forall q :: q in old(pools) ==>
                if r == Done && q == old(pools)[id] then q.removed && q.enabled == Disabled
                else q.removed == old(q.removed) && q.enabled == old(q.enabled)
      ensures r in {NoPools, InvalidId(id), LastPool, ActivePool, Done}
      ensures r == NoPools <==> old(pools) == []
      ensures r == InvalidId(id) <==> old(pools) != [] && !(0 <= id < |old(pools)|)
      ensures r == LastPool <==> |old(pools)| == 1 && id == 0
      ensures r == ActivePool ==> current == pools[id]
      ensures r == Done ==> Prios() == Removed(old(Prios()), id)
      ensures r == Done ==>
                forall i :: 0 <= i < |pools| ==> pools[i] == old(pools)[if i == id then |pools| else i]
      ensures r == Done ==> stale == [old(pools)[|pools|]] + old(stale)
      ensures r == Done ==> (rotating < |pools| <==> rotating < |old(pools)| && rotating != |old(pools)| - 1)
      ensures r != Done ==> stale == old(stale)
      ensures old(StaleOk()) ==> StaleOk()
      ensures |old(pools)| > 1 && 0 <= id < |old(pools)| && old(pools)[id] != old(current) ==>
                r == Done && current == old(current)
      ensures |old(pools)| > 1 && 0 <= id < |old(pools)| && old(pools)[id] == old(current)
              && strategy in {RoundRobin, Rotate} ==>
                match old(NextSlot(Usables(), id, 1))
                case Some(k) => current == old(pools)[k] && r == Done
                case None => current == old(current) && r == ActivePool
      ensures |old(pools)| > 1 && 0 <= id < |old(pools)| && old(pools)[id] == old(current)
              && strategy !in {RoundRobin, Rotate} ==>
                match old(BestSlot(Prios(), Usables(), 0))
                case Some(k) => current == old(pools)[k] && (r == Done <==> k != id)
                case None => current == old(current) && r == ActivePool
    {
      hide PriosOf, UsablesOf, QuotasOf, IsPermutation, BestSlot, NextSlot, Removed, Promoted, SlotOf, Valid, Prios,
        Usables, StaleOk;
      SlotNumbers();
      if |pools| == 0 {
        return NoPools;
      }
      if id < 0 || id >= |pools| {
        return InvalidId(id);
      }
      if |pools| <= 1 {
        return LastPool;
      }
      var pool := pools[id];
      if pool == current {
        SwitchPools(null);
      }
      if pool == current {
        return ActivePool;
      }
      DropPool(pool);
      return Done;
    }

    /** Both callers disable a pool before they remove it. */
    method DropPool(pool: Pool)
      requires Valid() && pool in pools && pool != current
      modifies this`pools, this`stale, pools`prio, pools`poolNo, pools`enabled, pools`removed
      ensures Valid() && pool !in pools && current == old(current) && pool.removed && pool.enabled == Disabled
      ensures forall q :: q in old(pools) && q != pool ==>
                q.removed == old(q.removed) && q.enabled == old(q.enabled)
      ensures |pools| == |old(pools)| - 1 && stale == [old(pools)[|pools|]] + old(stale)
      ensures rotating < |pools| <==> rotating < |old(pools)| && rotating != |old(pools)| - 1
      ensures old(StaleOk()) ==> StaleOk()
      ensures forall i :: 0 <= i < |pools| ==> pools[i] == old(pools)[if i == old(pool.poolNo) then |pools| else i]
      ensures Prios() == Removed(old(Prios()), old(pool.poolNo))
    {
      hide PriosOf, UsablesOf, QuotasOf, IsPermutation, Removed, Valid, Prios;
      pool.enabled := Disabled;
      assert old(StaleOk()) ==> StaleOk();
      hide StaleOk;
      RemovePool(pool);
    }

    // ----- the priority command

    /** Checks the whole list first, so that a bad or repeated number changes nothing; then
        the listed pools come first, in list order, and the others follow in their old order. */
    method PoolPriority(ids: seq<int>) returns (r: Response)
      requires Valid() && (pools != [] ==> current != null)
      modifies this`current, pools`prio
      ensures Valid() && (pools != [] ==> current != null)
      ensures r == Done <==> pools != [] && ids != [] && ValidIds(ids, |pools|)
      ensures r != Done ==> Prios() == old(Prios()) && current == old(current)
      ensures r == Done ==> Reordered(old(Prios()), ids, Prios())
      ensures r == Done ==> forall k :: 0 <= k < |ids| ==> 0 <= ids[k] < |pools| && pools[ids[k]].prio == k
      ensures r == Done ==>
                forall i, j :: 0 <= i < |pools| && 0 <= j < |pools| && i !in ids && j !in ids ==>
                  old(pools[i].prio) < old(pools[j].prio) ==> |ids| <= pools[i].prio < pools[j].prio
      ensures r == Done && strategy !in {RoundRobin, Rotate} ==>
                current == if old(current).prio == 0 then old(current)
                           else match BestSlot(Prios(), Usables(), 0)
                                case Some(k) => pools[k]
                                case None => old(current)
      ensures r == Done && strategy in {RoundRobin, Rotate} ==>
                current == if old(current).prio == 0 then old(current)
                           else match NextSlot(Usables(), old(current.poolNo), 1)
                                case Some(k) => pools[k]
                                case None => old(current)
      ensures r == NoPools <==> pools == []
      ensures r == MissingId <==> pools != [] && ids == []
      ensures r.InvalidId? ==> r.id in ids && !(0 <= r.id < |pools|)
      ensures r.DuplicateId? ==> !Distinct(ids) && r.id in ids
    {
      hide PriosOf, UsablesOf, QuotasOf, Valid, Reordered, BestSlot, NextSlot, Promoted;
      if |pools| == 0 {
        return NoPools;
      }
      if |ids| == 0 {
        return MissingId;
      }
      var n := |pools|;
      var changed := new bool[n](_ => false);
      var newPrio := new int[n](_ => 0);
      r := ReadIds(ids, n, changed, newPrio);
      if r != Done {
        return;
      }
      ghost var before := Prios();
      Reprioritise(ids, changed, newPrio);
      ReorderedOrder(before, ids, Prios());
      if current.prio != 0 {
        SwitchPools(null);
      }
    }

    method Reprioritise(ids: seq<int>, changed: array<bool>, newPrio: array<int>)
      requires Valid() && ValidIds(ids, |pools|)
      requires changed.Length == newPrio.Length == |pools|
      requires forall i :: 0 <= i < |pools| ==> (changed[i] <==> i in ids)
      requires forall k :: 0 <= k < |ids| ==> newPrio[ids[k]] == k
      modifies pools`prio, changed
      ensures Valid() && Reordered(old(Prios()), ids, Prios())
    {
      hide PriosOf, UsablesOf, QuotasOf, IsPermutation;
      ghost var p := Prios();
      SetListed(ids, changed, newPrio);
      forall k | 0 <= k < |ids|
        ensures Prios()[ids[k]] == k
      {
        assert ids[k] in ids;
      }
      AppendUnlisted(ids, changed, p);
    }

    /** Fills the two scratch tables from the list, stopping at the first bad number. */
    static method ReadIds(ids: seq<int>, n: nat, changed: array<bool>, newPrio: array<int>) returns (r: Response)
      requires changed.Length == newPrio.Length == n
      requires forall i :: 0 <= i < n ==> !changed[i]
      modifies changed, newPrio
      ensures r == Done <==> ValidIds(ids, n)
      ensures r == Done ==> forall i :: 0 <= i < n ==> (changed[i] <==> i in ids)
      ensures r == Done ==> forall k :: 0 <= k < |ids| ==> newPrio[ids[k]] == k
      ensures r != Done ==> r.InvalidId? || r.DuplicateId?
      ensures r.InvalidId? ==> r.id in ids && !(0 <= r.id < n)
      ensures r.DuplicateId? ==> !Distinct(ids) && r.id in ids
    {
      var prio := 0;
      while prio < |ids|
        invariant 0 <= prio <= |ids|
        invariant ValidIds(ids[..prio], n)
        invariant forall i :: 0 <= i < n ==> (changed[i] <==> i in ids[..prio])
        invariant forall k :: 0 <= k < prio ==> newPrio[ids[k]] == k
      {
        var i := ids[prio];
        assert i == ids[prio];
        if i < 0 || i >= n {
          return InvalidId(i);
        }
        if changed[i] {
          ghost var k :| 0 <= k < prio && ids[k] == i;
          return DuplicateId(i);
        }
        changed[i] := true;
        newPrio[i] := prio;
        assert ids[..prio + 1] == ids[..prio] + [i];
        prio := prio + 1;
      }
      assert ids[..prio] == ids;
      r := Done;
    }

    method SetListed(ids: seq<int>, changed: array<bool>, newPrio: array<int>)
      requires changed.Length == newPrio.Length == |pools|
      requires forall i :: 0 <= i < |pools| ==> pools[i].poolNo == i
      modifies pools`prio
      ensures forall i :: 0 <= i < |pools| ==>
                pools[i].prio == if changed[i] then newPrio[i] else old(pools[i].prio)
    {
      for i := 0 to |pools|
        invariant forall k :: 0 <= k < i ==>
                    pools[k].prio == if changed[k] then newPrio[k] else old(pools[k].prio)
        invariant forall k :: i <= k < |pools| ==> pools[k].prio == old(pools[k].prio)
      {
        if changed[i] {
          pools[i].prio := newPrio[i];
        }
      }
    }

    /** In priority order, gives the pools that were not listed the next priorities. */
    method AppendUnlisted(ids: seq<int>, changed: array<bool>, ghost p: seq<int>)
      requires changed.Length == |pools| == |p| && IsPermutation(p) && ValidIds(ids, |p|)
      requires forall i :: 0 <= i < |pools| ==> pools[i].poolNo == i
      requires forall i :: 0 <= i < |p| ==> (changed[i] <==> i in ids)
      requires forall i :: 0 <= i < |p| && i !in ids ==> Prios()[i] == p[i]
      requires forall k :: 0 <= k < |ids| ==> Prios()[ids[k]] == k
      modifies pools`prio, changed
      ensures Reordered(p, ids, Prios())
    {
      hide PriosOf, UsablesOf, QuotasOf, IsPermutation, Reordered, Partial;
      var prio: nat := |ids|;
      ghost var done := Values(ids);
      PartialStart(p, ids, Prios());
      for pr := 0 to |pools|
        invariant forall i :: 0 <= i < |p| ==> (changed[i] <==> i in done)
        invariant Partial(p, ids, Prios(), done, prio, pr)
      {
        prio, done := AppendOne(ids, changed, prio, pr, p, done);
      }
      PartialEnd(p, ids, Prios(), done, prio);
    }

    method AppendOne(ghost ids: seq<int>, changed: array<bool>, prio: nat, pr: nat, ghost p: seq<int>,
                     ghost done: set<int>)
      returns (prio': nat, ghost done': set<int>)
      requires changed.Length == |pools| == |p| && IsPermutation(p)
      requires forall i :: 0 <= i < |pools| ==> pools[i].poolNo == i
      requires forall i :: 0 <= i < |p| ==> (changed[i] <==> i in done)
      requires Partial(p, ids, Prios(), done, prio, pr)
      modifies pools`prio, changed
      ensures forall i :: 0 <= i < |p| ==> (changed[i] <==> i in done')
      ensures Partial(p, ids, Prios(), done', prio', pr + 1)
    {
      hide PriosOf, UsablesOf, QuotasOf, IsPermutation, Partial;
      var k := FindUnchanged(changed, pr);
      ghost var q := Prios();
      PartialSlots(p, ids, q, done, prio, pr);
      prio', done' := prio, done;
      if k < |pools| {
        PartialStep(p, ids, q, done, prio, pr, k);
        pools[k].prio := prio;
        changed[k] := true;
        assert Prios() == q[k := prio];
        prio', done' := prio + 1, done + {k};
      } else {
        PartialSkip(p, ids, q, done, prio, pr);
      }
    }

    /** The inner loop: the first pool not yet changed whose priority is `pr`. */
    method FindUnchanged(changed: array<bool>, pr: nat) returns (k: nat)
      requires changed.Length == |pools|
      ensures k <= |pools|
      ensures k < |pools| ==> !changed[k] && pools[k].prio == pr
      ensures forall i :: 0 <= i < k && !changed[i] ==> pools[i].prio != pr
    {
      k := 0;
      while k < |pools|
        invariant 0 <= k <= |pools|
        invariant forall i :: 0 <= i < k && !changed[i] ==> pools[i].prio != pr
      {
        if !changed[k] && pools[k].prio == pr {
          return;
        }
        k := k + 1;
      }
    }

    // ----- choosing the pool for the next work item

    ghost function Schedules(): Schedule.State
      reads this`pools, this`rotating, pools`quotaUsed
    {
      Schedule.State(UsedOf(pools), rotating)
    }

    /** Where the search falls back to: the usable pool of least priority, or else the current one. */
    ghost function Fallback(): nat
      requires current != null
      reads this`pools, this`current, current`poolNo, pools`prio, pools`idle, pools`enabled
    {
      match BestSlot(Prios(), Usables(), 0)
      case Some(k) => k
      case None => current.poolNo
    }

    /** In failover-only mode, quota of a pool that cannot work goes to the pool of priority 0. */
    ghost function Spare(): Option<nat>
      reads this`pools, this`failOnly, pools`prio
    {
      if failOnly then SlotOf(Prios(), 0, 0) else None
    }

    ghost function Inputs(): Schedule.Input
      requires current != null
      reads this`pools, this`current, current`poolNo, pools`prio,
            pools`idle, pools`enabled, pools`hasStratum, pools`stratumActive
    {
      Schedule.Input(WorkablesOf(pools), Fallback())
    }

    /** Whether a call goes by quota. */
    predicate Rotates(lagging: bool)
      reads this`strategy, this`failOnly
    {
      strategy == LoadBalance || (strategy != Balance && lagging && !failOnly)
    }

    method SelectPool(lagging: bool) returns (pool: Pool)
      requires Valid() && current != null && StaleOk()
      requires Rotates(lagging) && Schedule.SomeQuota(UsedOf(pools), GcdsOf(pools)) ==> InArray()
      modifies this`rotating, pools`quotaUsed, pools`shares, stale`quotaUsed
      ensures Valid() && pool in pools && StaleOk()
      ensures rotating < |pools| || rotating == old(rotating)
      ensures Rotates(lagging) && rotating >= |pools| ==>
                rotating < |pools| + |stale| && pool == StrayPool()
                && pool.quotaUsed == old(pool.quotaUsed) + 1 <= pool.quotaGcd
      ensures strategy == Balance ==>
                && (pool == current
                    || (!pool.idle && pool.enabled == Enabled && (pool.hasStratum ==> pool.stratumActive)))
                && old(pool.shares) <= old(current.shares)
                && (forall q :: q in pools && !q.idle && q.enabled == Enabled && (q.hasStratum ==> q.stratumActive) ==>
                      old(pool.shares) <= old(q.shares))
                && (pool != current ==>
                      && old(pool.shares) < old(current.shares)
                      && forall q ::
                           q in pools && q.poolNo < pool.poolNo
                           && !q.idle && q.enabled == Enabled && (q.hasStratum ==> q.stratumActive) ==>
                             old(pool.shares) < old(q.shares))
                && (forall q :: q in pools ==> q.shares == old(q.shares) + if q == pool then 1 else 0)
      ensures strategy != Balance ==> forall q :: q in pools ==> q.shares == old(q.shares)
      ensures forall q :: q in stale && q !in pools && (old(rotating) < |pools| || q != old(AtCursor())) ==>
                q.quotaUsed == old(q.quotaUsed)
      ensures strategy !in {Balance, LoadBalance} && (!lagging || failOnly) ==>
                pool == current && Schedules() == old(Schedules())
      ensures strategy == LoadBalance || (strategy != Balance && lagging && !failOnly) ==> Rotates(lagging)
      ensures !Rotates(lagging) ==> Schedules() == old(Schedules())
      ensures Rotates(lagging) && Schedule.Ready(old(Schedules()), GcdsOf(pools)) ==>
                && Schedule.InTable(Spare(), GcdsOf(pools))
                && var r := Schedule.Select(old(Schedules()), GcdsOf(pools), Inputs(), Spare());
                   Schedules() == r.next && r.pick < |pools| && pool == pools[r.pick]
      ensures Rotates(lagging) && !Schedule.Ready(old(Schedules()), GcdsOf(pools)) ==>
                && |pools| <= old(rotating) < |pools| + |stale|
                && (rotating == old(rotating) ==> pool == old(StrayPool()))
                && StrayCall(old(Schedules()), old(StraySeen()), old(StrayPool()), pool)
    {
      hide PriosOf, UsablesOf, QuotasOf, UsedOf, GcdsOf, WorkablesOf, Schedule.Select, BestSlot, SlotOf, IsPermutation,
        StrayCall, StaleOk, Valid, Schedule.SomeQuota, Spare, Fallback;
      CurrentInTable();
      if strategy == Balance {
        pool := SelectBalanced();
      } else if strategy != LoadBalance && (!lagging || failOnly) {
        pool := current;
      } else {
        pool := SelectByQuota();
      }
    }

    method SelectByQuota() returns (pool: Pool)
      requires Valid() && current != null && StaleOk()
      requires Schedule.SomeQuota(UsedOf(pools), GcdsOf(pools)) ==> InArray()
      modifies this`rotating, pools`quotaUsed, stale`quotaUsed
      ensures Valid() && pool in pools && (rotating < |pools| || rotating == old(rotating))
      ensures rotating >= |pools| ==>
                rotating < |pools| + |stale| && pool == StrayPool()
                && pool.quotaUsed == old(pool.quotaUsed) + 1 <= pool.quotaGcd
      ensures forall q :: q in stale && q !in pools && (old(rotating) < |pools| || q != old(AtCursor())) ==>
                q.quotaUsed == old(q.quotaUsed)
      ensures Schedule.Ready(old(Schedules()), GcdsOf(pools)) ==>
                && Schedule.InTable(Spare(), GcdsOf(pools))
                && var r := Schedule.Select(old(Schedules()), GcdsOf(pools), Inputs(), Spare());
                   Schedules() == r.next && r.pick < |pools| && pool == pools[r.pick]
      ensures !Schedule.Ready(old(Schedules()), GcdsOf(pools)) ==>
                && |pools| <= old(rotating) < |pools| + |stale|
                && (rotating == old(rotating) ==> pool == old(StrayPool()))
                && StrayCall(old(Schedules()), old(StraySeen()), old(StrayPool()), pool)
    {
      hide *;
      var avail := AnyQuota();
      ReadyToSelect();
      InArrayIs();
      AtCursorIs();
      ReadyIff(avail);
      ghost var gcds := GcdsOf(pools);
      if rotating < |pools| || !avail {
        pool := SelectRotating();
      } else {
        pool := SelectStray();
      }
      assert gcds == GcdsOf(pools);
    }

    lemma InArrayIs()
      ensures InArray() <==> rotating < |pools| + |stale|
    {
    }

    lemma AtCursorIs()
      ensures |pools| <= rotating < |pools| + |stale| ==> AtCursor() == StrayPool()
    {
    }

    lemma ReadyIff(avail: bool)
      requires |UsedOf(pools)| == |GcdsOf(pools)| == |pools| > 0
      requires avail <==> Schedule.SomeQuota(UsedOf(pools), GcdsOf(pools))
      ensures Schedule.Ready(Schedules(), GcdsOf(pools)) <==> rotating < |pools| || !avail
    {
      hide UsedOf, GcdsOf, Schedule.SomeQuota;
    }

    lemma CurrentInTable()
      requires Valid() && current != null
      ensures current in pools && |pools| > 0 && current.poolNo < |pools|
    {
    }

    method SelectBalanced() returns (ret: Pool)
      requires Valid() && current != null
      modifies pools`shares
      ensures ret in pools
      ensures ret == current || (!ret.idle && ret.enabled == Enabled && (ret.hasStratum ==> ret.stratumActive))
      ensures old(ret.shares) <= old(current.shares)
      ensures forall q :: q in pools && !q.idle && q.enabled == Enabled && (q.hasStratum ==> q.stratumActive) ==>
                old(ret.shares) <= old(q.shares)
      ensures ret != current ==>
                && old(ret.shares) < old(current.shares)
                && forall q ::
                     q in pools && q.poolNo < ret.poolNo
                     && !q.idle && q.enabled == Enabled && (q.hasStratum ==> q.stratumActive) ==>
                       old(ret.shares) < old(q.shares)
      ensures forall q :: q in pools ==> q.shares == old(q.shares) + if q == ret then 1 else 0
    {
      hide PriosOf, UsablesOf, QuotasOf, IsPermutation;
      ret := current;
      var lowest := ret.shares;
      for i := 0 to |pools|
        invariant ret in pools && lowest == ret.shares <= current.shares
        invariant ret == current || ret.Workable()
        invariant ret != current ==>
                    && lowest < current.shares
                    && forall k :: 0 <= k < ret.poolNo && pools[k].Workable() ==> lowest < pools[k].shares
        invariant forall k :: 0 <= k < i && pools[k].Workable() ==> lowest <= pools[k].shares
      {
        if pools[i].Workable() && pools[i].shares < lowest {
          ret, lowest := pools[i], pools[i].shares;
        }
      }
      ret.shares := ret.shares + 1;
    }

    lemma ReadyToSelect()
      requires Valid() && current != null
      ensures |UsedOf(pools)| == |GcdsOf(pools)| == |Inputs().workable| == |pools| > 0
      ensures Schedules() == Schedule.State(UsedOf(pools), rotating)
      ensures rotating < |pools| ==> Schedule.Fits(Schedules(), GcdsOf(pools))
      ensures Inputs().workable == WorkablesOf(pools) && Inputs().fallback == Fallback()
      ensures Schedule.InTable(Spare(), GcdsOf(pools)) && (Spare().Some? ==> Spare().value < |pools|)
    {
      hide PriosOf, UsablesOf, QuotasOf, UsedOf, GcdsOf, WorkablesOf, BestSlot, IsPermutation;
    }

    method SelectRotating() returns (pool: Pool)
      requires Valid() && current != null && Schedule.Ready(Schedules(), GcdsOf(pools))
      modifies this`rotating, pools`quotaUsed
      ensures Valid() && rotating < |pools| && pool in pools
      ensures Schedule.InTable(Spare(), GcdsOf(pools))
      ensures var r := Schedule.Select(old(Schedules()), GcdsOf(pools), Inputs(), Spare());
              Schedules() == r.next && r.pick < |pools| && pool == pools[r.pick]
    {
      hide *;
      ReadyToSelect();
      ghost var before, gcds, input, spare := Schedules(), GcdsOf(pools), Inputs(), Spare();
      Schedule.SelectParts(before, gcds, input, spare, Schedule.Refill(before, gcds));
      var found := Search();
      ghost var (_, k) := Schedule.Rotate(Schedule.Refill(before, gcds), gcds, input.workable, |gcds|, spare);
      pool := OrFallback(found, k);
    }

    /** The pool that the rotation found, or the first usable one. */
    method OrFallback(found: Pool?, ghost k: Option<nat>) returns (pool: Pool)
      requires Valid() && current != null && (k.Some? ==> k.value < |pools|)
      requires found == if k.Some? then pools[k.value] else null
      ensures var slot := if k.Some? then k.value else Inputs().fallback;
              slot < |pools| && pool == pools[slot]
    {
      hide *;
      if found != null {
        pool := found;
      } else {
        ReadyToSelect();
        pool := FirstUsable();
      }
    }

    method Search() returns (found: Pool?)
      requires Valid() && current != null && Schedule.Ready(Schedules(), GcdsOf(pools))
      modifies this`rotating, pools`quotaUsed
      ensures GcdsOf(pools) == old(GcdsOf(pools)) && rotating < |pools| == |GcdsOf(pools)|
      ensures Schedule.InTable(Spare(), GcdsOf(pools))
      ensures var start := Schedule.Refill(old(Schedules()), GcdsOf(pools));
              var (next, k) := Schedule.Rotate(start, GcdsOf(pools), WorkablesOf(pools), |pools|, Spare());
              Schedules() == next && found == if k.Some? then pools[k.value] else null
    {
      hide *;
      ReadyToSelect();
      ghost var before, gcds := Schedules(), GcdsOf(pools);
      RefillQuotas();
      CursorBack(before, gcds);
      found := RotatePools(|pools|);
    }

    lemma CursorBack(before: Schedule.State, gcds: seq<nat>)
      requires Schedule.Ready(before, gcds) && |gcds| == |pools| && Schedules() == Schedule.Refill(before, gcds)
      ensures rotating < |pools|
    {
    }

    // ----- a cursor behind the table

    ghost function StrayPool(): Pool
      requires |pools| <= rotating < |pools| + |stale|
      reads this`pools, this`stale, this`rotating
    {
      stale[rotating - |pools|]
    }

    /** The pool under the cursor, in the array or not. */
    ghost function AtCursor(): Pool?
      reads this`pools, this`stale, this`rotating
    {
      if rotating < |pools| then pools[rotating]
      else if rotating < |pools| + |stale| then stale[rotating - |pools|] else null
    }

    /** What the rotation sees in the slot the cursor was left on. */
    ghost function StraySeen(): Schedule.Stray
      requires |pools| <= rotating < |pools| + |stale|
      reads this`pools, this`stale, this`rotating
      reads stale`poolNo, stale`quotaUsed, stale`quotaGcd
      reads stale`idle, stale`enabled, stale`hasStratum, stale`stratumActive
    {
      var q := StrayPool();
      Schedule.Stray(if q in pools then Some(q.poolNo) else None, q.quotaUsed < q.quotaGcd, q.Workable())
    }

    /** A call with quota left and the cursor behind the table. The pool there is charged first.
        If it has quota and can work it is taken (it is a pool that was moved to another slot)
        and the cursor stays, which uses up one more of its quota. Otherwise the cursor is back
        at the first pool, and the search goes on from there with one test less. */
    ghost predicate StrayCall(before: Schedule.State, seen: Schedule.Stray, q: Pool, pool: Pool)
      requires current != null
      reads this, current`poolNo, pools
    {
      && |before.used| == |GcdsOf(pools)| == |Inputs().workable| == |pools| > 0
      && Schedule.InTable(Spare(), GcdsOf(pools)) && (seen.at.Some? ==> seen.at.value < |pools|)
      && (seen.quota && seen.works ==>
            && pool == q && seen.at.Some?
            && Schedules() == Schedule.State(Schedule.AfterStray(before.used, Spare(), seen), before.cursor))
      && (!(seen.quota && seen.works) ==>
            var r := Schedule.AfterMiss(before.used, GcdsOf(pools), Inputs(), Spare(), seen);
            Schedules() == r.next && r.pick < |pools| && pool == pools[r.pick])
    }

    method SelectStray() returns (pool: Pool)
      requires Valid() && current != null && StaleOk() && |pools| <= rotating < |pools| + |stale|
      modifies this`rotating, pools`quotaUsed, stale`quotaUsed
      ensures Valid() && pool in pools
      ensures rotating < |pools| || (rotating == old(rotating) && pool == old(StrayPool()))
      ensures rotating >= |pools| ==> pool == StrayPool() && pool.quotaUsed == old(pool.quotaUsed) + 1 <= pool.quotaGcd
      ensures StrayCall(old(Schedules()), old(StraySeen()), old(StrayPool()), pool)
      ensures forall q :: q in stale && q !in pools && q != old(StrayPool()) ==> q.quotaUsed == old(q.quotaUsed)
    {
      hide *;
      ReadyToSelect();
      StraySlot();
      ghost var before, seen := Schedules(), StraySeen();
      var q := stale[rotating - |pools|];
      var hit := TestStray();
      ReadyToSelect();
      if hit {
        StrayHit(before, seen, q);
        return q;
      }
      rotating := 0;
      pool := SearchOn(before, seen, q);
    }

    lemma StrayHit(before: Schedule.State, seen: Schedule.Stray, q: Pool)
      requires current != null && |before.used| == |GcdsOf(pools)| == |Inputs().workable| == |pools| > 0
      requires Schedule.InTable(Spare(), GcdsOf(pools)) && (seen.at.Some? ==> seen.at.value < |pools|)
      requires seen.quota && seen.works && seen.at.Some?
      requires Schedules() == Schedule.State(Schedule.AfterStray(before.used, Spare(), seen), before.cursor)
      ensures StrayCall(before, seen, q, q)
    {
      hide UsedOf, GcdsOf, Inputs, Spare, Schedules, Schedule.AfterStray, Schedule.AfterMiss;
    }

    lemma StrayMiss(before: Schedule.State, seen: Schedule.Stray, q: Pool, back: Schedule.State, pool: Pool)
      requires current != null && |before.used| == |GcdsOf(pools)| == |Inputs().workable| == |pools| > 0
      requires Schedule.InTable(Spare(), GcdsOf(pools)) && (seen.at.Some? ==> seen.at.value < |pools|)
      requires !(seen.quota && seen.works) && back == Schedule.State(Schedule.AfterStray(before.used, Spare(), seen), 0)
      requires var (next, k) := Schedule.Rotate(back, GcdsOf(pools), Inputs().workable, |pools| - 1, Spare());
               var slot := if k.Some? then k.value else Inputs().fallback;
               Schedules() == next && slot < |pools| && pool == pools[slot]
      ensures StrayCall(before, seen, q, pool)
    {
      hide UsedOf, GcdsOf, Inputs, Spare, Schedules, Schedule.AfterStray, Schedule.AfterMiss, Schedule.Rotate;
      Schedule.MissParts(before.used, GcdsOf(pools), Inputs(), Spare(), seen);
    }

    lemma StraySlot()
      requires Valid() && StaleOk() && |pools| <= rotating < |pools| + |stale|
      ensures StrayPool() == stale[rotating - |pools|]
      ensures StraySeen().at.Some? ==> StraySeen().at.value < |pools|
      ensures StraySeen().works ==> StraySeen().at.Some? && StrayPool() in pools
    {
      hide PriosOf, IsPermutation;
    }

    /** The rest of a call, from the first pool on. */
    method SearchOn(ghost before: Schedule.State, ghost seen: Schedule.Stray, ghost q: Pool) returns (pool: Pool)
      requires Valid() && current != null && rotating == 0 && |before.used| == |pools|
      requires !(seen.quota && seen.works) && (seen.at.Some? ==> seen.at.value < |pools|)
      requires Spare().Some? ==> Spare().value < |pools|
      requires UsedOf(pools) == Schedule.AfterStray(before.used, Spare(), seen)
      modifies this`rotating, pools`quotaUsed
      ensures Valid() && rotating < |pools| && pool in pools && StrayCall(before, seen, q, pool)
    {
      hide *;
      ReadyToSelect();
      FallbackInTable();
      ghost var back, gcds, works, spare := Schedules(), GcdsOf(pools), WorkablesOf(pools), Spare();
      var found := RotatePools(|pools| - 1);
      ghost var (next, k) := Schedule.Rotate(back, gcds, works, |pools| - 1, spare);
      assert Schedules() == next && found == if k.Some? then pools[k.value] else null;
      ReadyToSelect();
      pool := OrFallback(found, k);
      StrayMiss(before, seen, q, back, pool);
    }

    lemma FallbackInTable()
      requires Valid() && current != null
      ensures Fallback() < |pools|
    {
      hide PriosOf, UsablesOf, IsPermutation;
    }

    method TestStray() returns (hit: bool)
      requires Valid() && |pools| <= rotating < |pools| + |stale|
      requires pools != [] && (StraySeen().at.Some? ==> StraySeen().at.value < |pools|)
      modifies pools`quotaUsed, stale`quotaUsed
      ensures GcdsOf(pools) == old(GcdsOf(pools)) && Spare() == old(Spare())
      ensures hit <==> old(StraySeen()).quota && old(StraySeen()).works
      ensures Spare().Some? ==> Spare().value < |pools|
      ensures UsedOf(pools) == Schedule.AfterStray(old(UsedOf(pools)), Spare(), old(StraySeen()))
      ensures hit || StrayPool() !in pools ==> StrayPool().quotaUsed == old(StrayPool().quotaUsed) + 1
      ensures hit ==> StrayPool().quotaUsed <= StrayPool().quotaGcd
      ensures forall q :: q in stale && q !in pools && q != StrayPool() ==> q.quotaUsed == old(q.quotaUsed)
    {
      hide PriosOf, UsablesOf, QuotasOf, UsedOf, GcdsOf, WorkablesOf, IsPermutation, Spare, Schedule.AfterStray,
        StraySeen, Valid;
      ghost var used, seen := UsedOf(pools), StraySeen();
      hit := ChargeStray();
      Schedule.AfterStrayPointwise(used, Spare(), seen);
      SameUsed(Schedule.AfterStray(used, Spare(), seen));
    }

    /** Charges the pool behind the table, and gives the charge back as ChargeSlot does. */
    method ChargeStray() returns (hit: bool)
      requires Valid() && |pools| <= rotating < |pools| + |stale| && pools != []
      modifies pools`quotaUsed, stale`quotaUsed
      ensures Spare() == old(Spare()) && (Spare().Some? ==> Spare().value < |pools|)
      ensures hit <==> old(StraySeen()).quota && old(StraySeen()).works
      ensures var seen := old(StraySeen());
              forall i :: 0 <= i < |pools| ==>
                pools[i].quotaUsed == old(pools[i].quotaUsed) + (if seen.at == Some(i) then 1 else 0)
                  - if seen.quota && !seen.works && Spare() == Some(i) then 1 else 0
      ensures hit || StrayPool() !in pools ==> StrayPool().quotaUsed == old(StrayPool().quotaUsed) + 1
      ensures hit ==> StrayPool().quotaUsed <= StrayPool().quotaGcd
      ensures forall q :: q in stale && q !in pools && q != StrayPool() ==> q.quotaUsed == old(q.quotaUsed)
    {
      hide PriosOf, UsablesOf, QuotasOf, IsPermutation, Spare;
      SpareIsSlot();
      SlotNumbers();
      var q := stale[rotating - |pools|];
      var had := q.quotaUsed < q.quotaGcd;
      q.quotaUsed := q.quotaUsed + 1;
      hit := had && q.Workable();
      if had && !hit && failOnly {
        GiveBack();
      }
    }

    /** When no pool has quota left, all counters start again and the rotation moves on. */
    method RefillQuotas()
      requires Valid()
      modifies this`rotating, pools`quotaUsed
      ensures Schedules() == Schedule.Refill(old(Schedules()), GcdsOf(pools))
    {
      hide PriosOf, UsablesOf, QuotasOf, UsedOf, GcdsOf, IsPermutation, Valid, Schedule.SomeQuota, Schedule.NoneUsed;
      ghost var gcds := GcdsOf(pools);
      var avail := AnyQuota();
      if !avail {
        ClearUsed();
        rotating := rotating + 1;
        if rotating >= |pools| {
          rotating := 0;
        }
      }
      assert GcdsOf(pools) == gcds;
    }

    method AnyQuota() returns (avail: bool)
      ensures avail <==> Schedule.SomeQuota(UsedOf(pools), GcdsOf(pools))
    {
      hide UsedOf, GcdsOf;
      for i := 0 to |pools|
        invariant forall k :: 0 <= k < i ==> !Schedule.HasQuota(UsedOf(pools), GcdsOf(pools), k)
      {
        if pools[i].quotaUsed < pools[i].quotaGcd {
          assert Schedule.HasQuota(UsedOf(pools), GcdsOf(pools), i);
          return true;
        }
      }
      avail := false;
    }

    method ClearUsed()
      modifies pools`quotaUsed
      ensures UsedOf(pools) == Schedule.NoneUsed(|pools|)
    {
      hide UsedOf, Schedule.NoneUsed;
      for i := 0 to |pools|
        invariant forall k :: 0 <= k < i ==> pools[k].quotaUsed == 0
      {
        pools[i].quotaUsed := 0;
      }
    }

    /** The rotation: tests at most `left` pools. */
    method RotatePools(left: nat) returns (found: Pool?)
      requires Valid() && rotating < |pools|
      modifies this`rotating, pools`quotaUsed
      ensures rotating < |pools| && (Spare().Some? ==> Spare().value < |pools|)
      ensures GcdsOf(pools) == old(GcdsOf(pools)) && Spare() == old(Spare())
      ensures WorkablesOf(pools) == old(WorkablesOf(pools))
      ensures var (next, k) := Schedule.Rotate(old(Schedules()), GcdsOf(pools), WorkablesOf(pools), left, Spare());
              Schedules() == next && found == if k.Some? then pools[k.value] else null
    {
      hide PriosOf, UsablesOf, QuotasOf, UsedOf, GcdsOf, WorkablesOf, IsPermutation, SlotOf, Schedule.Test,
        Schedule.Rotate, Valid, Spare;
      SpareIsSlot();
      ghost var gcds, works, spare := GcdsOf(pools), WorkablesOf(pools), Spare();
      ghost var goal := Schedule.Rotate(Schedules(), gcds, works, left, spare);
      found := null;
      var tested := 0;
      while tested < left
        invariant 0 <= tested <= left && rotating < |pools| && found == null && Valid()
        invariant gcds == GcdsOf(pools) && works == WorkablesOf(pools) && spare == Spare()
        invariant goal == Schedule.Rotate(Schedules(), gcds, works, left - tested, spare)
      {
        Schedule.RotateStep(Schedules(), gcds, works, left - tested, spare);
        var hit := TestPool();
        if hit {
          found := pools[rotating];
          return;
        }
        tested := tested + 1;
      }
      Schedule.RotateStep(Schedules(), gcds, works, 0, spare);
    }

    lemma SpareIsSlot()
      requires Valid() && pools != []
      ensures Spare().Some? ==> Spare().value < |pools| && pools[Spare().value].prio == 0
      ensures failOnly <==> Spare().Some?
    {
      PermutationCovers(Prios(), 0);
    }

    /** Charges the pool under the cursor; the cursor moves on unless the search ends there. */
    method TestPool() returns (hit: bool)
      requires Valid() && rotating < |pools|
      modifies this`rotating, pools`quotaUsed
      ensures rotating < |pools| && (Spare().Some? ==> Spare().value < |pools|)
      ensures var t := Schedule.Test(old(Schedules()), GcdsOf(pools), WorkablesOf(pools), Spare());
              Schedules() == t.0 && hit == t.1
      ensures hit ==> rotating == old(rotating)
      ensures GcdsOf(pools) == old(GcdsOf(pools)) && WorkablesOf(pools) == old(WorkablesOf(pools))
      ensures Spare() == old(Spare())
    {
      hide PriosOf, UsablesOf, QuotasOf, UsedOf, GcdsOf, WorkablesOf, SlotOf, Valid, Spare, Schedule.Charged,
        Schedule.HasQuota, Schedule.Test;
      ghost var before, gcds, works, spare := Schedules(), GcdsOf(pools), WorkablesOf(pools), Spare();
      hit := ChargeCursor();
      assert gcds == GcdsOf(pools) && works == WorkablesOf(pools) && spare == Spare();
      Schedule.TestParts(before, gcds, works, spare);
      if !hit {
        rotating := if rotating + 1 >= |pools| then 0 else rotating + 1;
      }
    }

    method ChargeCursor() returns (hit: bool)
      requires Valid() && rotating < |pools|
      modifies pools`quotaUsed
      ensures Spare().Some? ==> Spare().value < |pools|
      ensures hit <==> Schedule.HasQuota(old(UsedOf(pools)), GcdsOf(pools), rotating) && WorkablesOf(pools)[rotating]
      ensures UsedOf(pools)
              == Schedule.Charged(old(UsedOf(pools)), GcdsOf(pools), WorkablesOf(pools), Spare(), rotating)
    {
      hide PriosOf, UsablesOf, QuotasOf, UsedOf, GcdsOf, WorkablesOf, SlotOf, Valid, Spare, Schedule.Charged;
      ghost var used := UsedOf(pools);
      hit := ChargeSlot(rotating);
      Schedule.ChargedPointwise(used, GcdsOf(pools), WorkablesOf(pools), Spare(), rotating);
      SameUsed(Schedule.Charged(used, GcdsOf(pools), WorkablesOf(pools), Spare(), rotating));
    }

    /** Charges a pool. In failover-only mode, the charge of a pool that had quota but cannot
        work goes back to the pool of priority 0. */
    method ChargeSlot(slot: nat) returns (hit: bool)
      requires Valid() && slot < |pools|
      modifies pools`quotaUsed
      ensures Spare().Some? ==> Spare().value < |pools|
      ensures hit <==> old(pools[slot].quotaUsed) < pools[slot].quotaGcd && pools[slot].Workable()
      ensures forall i :: 0 <= i < |pools| ==>
                pools[i].quotaUsed == old(pools[i].quotaUsed) + (if i == slot then 1 else 0)
                  - if old(pools[slot].quotaUsed) < pools[slot].quotaGcd && !pools[slot].Workable()
                       && Spare() == Some(i) then 1 else 0
    {
      hide PriosOf, UsablesOf, QuotasOf, UsedOf, GcdsOf, WorkablesOf, IsPermutation, Spare;
      SpareIsSlot();
      var had := pools[slot].quotaUsed < pools[slot].quotaGcd;
      pools[slot].quotaUsed := pools[slot].quotaUsed + 1;
      hit := had && pools[slot].Workable();
      if had && !hit && failOnly {
        GiveBack();
      }
    }

    method GiveBack()
      requires Valid() && pools != [] && failOnly
      modifies pools`quotaUsed
      ensures Spare().Some? && Spare().value < |pools|
      ensures forall i :: 0 <= i < |pools| ==>
                pools[i].quotaUsed == old(pools[i].quotaUsed) - if i == Spare().value then 1 else 0
    {
      hide PriosOf, IsPermutation;
      var first, _ := PriorityPool(0);
      first.quotaUsed := first.quotaUsed - 1;
    }

    lemma SameUsed(used: seq<int>)
      requires |used| == |pools| && forall i :: 0 <= i < |pools| ==> pools[i].quotaUsed == used[i]
      ensures UsedOf(pools) == used
    {
      hide UsedOf;
    }
  }
}

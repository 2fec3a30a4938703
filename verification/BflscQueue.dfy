/** Work sent to the devices of a BFLSC bus: how many unfinished items each device has, kept
    in a counter beside the table of queued work.

    The table and the counters have different locks, and several threads use both: one sends,
    one handles results, one flushes. Each locked region is a method here, and so is the one
    write that happens under no lock. What lies between the regions of one operation is
    recorded, so the invariant holds at any interleaving of them. */
module BflscQueue {
  import opened Basics

  type Id = nat

  /** `subid` is the device an item was sent to; `flagged` marks it stale after a flush. */
  datatype Item = Item(subid: nat, flagged: bool)

  datatype Dev = Dev(workQueued: int, flushed: bool, flushId: int, resultId: int, overheat: bool)

  /** The queue limits of one firmware version. */
  datatype Limits = Limits(size: int, fullEnough: int, low: int, flushSize: int)

  function LimitsV1(): (l: Limits)
    ensures 0 <= l.low <= l.fullEnough && l.fullEnough + 1 < l.size
  {
    Limits(20, 13, 3, 1)
  }

  function LimitsV2(devices: nat): (l: Limits)
    ensures 0 <= l.low <= l.fullEnough && l.fullEnough + 1 < l.size
  {
    Limits(40, 36, 16, 16 * devices)
  }

  // ----- what the counters should be

  /** The unfinished items counted for device `d`. `home` says for which device an item of the
      table was counted. */
  ghost function Live(queued: map<Id, Item>, home: map<Id, nat>, d: nat): set<Id> {
    set w | w in queued && w in home && home[w] == d && !queued[w].flagged
  }

  /** The items of device `d` that left the table with a result not charged yet. */
  ghost function Out(taken: map<Id, nat>, d: nat): set<Id> {
    set w | w in taken && taken[w] == d
  }

  ghost function Open(queued: map<Id, Item>, home: map<Id, nat>, taken: map<Id, nat>, d: nat): nat {
    |Live(queued, home, d)| + |Out(taken, d)|
  }

  /** Each counter is the number of open items of its device, and `owed` more. */
  ghost predicate Counted(queued: map<Id, Item>, home: map<Id, nat>, taken: map<Id, nat>, owed: seq<int>,
                          devs: seq<Dev>) {
    && |owed| == |devs|
    && (forall d :: 0 <= d < |devs| ==> devs[d].workQueued == Open(queued, home, taken, d) + owed[d])
  }

  ghost predicate Known(queued: map<Id, Item>, home: map<Id, nat>, taken: map<Id, nat>, n: nat) {
    && (forall w :: w in queued ==> queued[w].subid < n)
    && (forall w :: w in home ==> w in queued && home[w] < n)
    && (forall w :: w in taken ==> taken[w] < n && w !in queued)
  }

  /** Nothing is under way, and every counter is the number of unfinished items of its device. */
  ghost predicate AtRest(queued: map<Id, Item>, home: map<Id, nat>, taken: map<Id, nat>, owed: seq<int>) {
    && taken == map[]
    && (forall w :: w in queued ==> w in home && home[w] == queued[w].subid)
    && (forall d :: 0 <= d < |owed| ==> owed[d] == 0)
  }

  /** The unfinished items of a device, by what the table says. */
  ghost function Unfinished(queued: map<Id, Item>, d: nat): set<Id> {
    set w | w in queued && queued[w].subid == d && !queued[w].flagged
  }

  lemma AtRestCounts(queued: map<Id, Item>, home: map<Id, nat>, taken: map<Id, nat>, owed: seq<int>, devs: seq<Dev>)
    requires Counted(queued, home, taken, owed, devs) && AtRest(queued, home, taken, owed)
    ensures forall d :: 0 <= d < |devs| ==> devs[d].workQueued == |Unfinished(queued, d)|
  {
    forall d | 0 <= d < |devs|
      ensures devs[d].workQueued == |Unfinished(queued, d)|
    {
      assert Out(taken, d) == {};
      assert Live(queued, home, d) == Unfinished(queued, d);
    }
  }

  // ----- how each region changes what is open

  lemma OpenSame(queued: map<Id, Item>, home: map<Id, nat>, taken: map<Id, nat>, queued': map<Id, Item>,
                 home': map<Id, nat>)
    requires forall w :: w in queued' && w in home' && !queued'[w].flagged
                         <==> w in queued && w in home && !queued[w].flagged
    requires forall w :: w in queued && w in home && !queued[w].flagged ==> home'[w] == home[w]
    ensures forall d: nat :: Open(queued', home', taken, d) == Open(queued, home, taken, d)
  {
    forall d: nat
      ensures Open(queued', home', taken, d) == Open(queued, home, taken, d)
    {
      assert Live(queued', home', d) == Live(queued, home, d);
    }
  }

  lemma LiveCount(queued: map<Id, Item>, home: map<Id, nat>, w: Id, d: nat, e: nat)
    requires w in queued && w !in home
    ensures w !in Live(queued, home, e)
    ensures Live(queued, home[w := d], e) == Live(queued, home, e) + if e == d && !queued[w].flagged then {w} else {}
  {
  }

  lemma OpenCount(queued: map<Id, Item>, home: map<Id, nat>, taken: map<Id, nat>, w: Id, d: nat, e: nat)
    requires w in queued && w !in home
    ensures Open(queued, home[w := d], taken, e)
            == Open(queued, home, taken, e) + if e == d && !queued[w].flagged then 1 else 0
  {
    hide Live, Out;
    LiveCount(queued, home, w, d, e);
  }

  lemma LiveTake(queued: map<Id, Item>, home: map<Id, nat>, w: Id, e: nat)
    requires w in queued
    ensures w in Live(queued, home, e) <==> w in home && !queued[w].flagged && home[w] == e
    ensures Live(queued - {w}, home - {w}, e) == Live(queued, home, e) - {w}
  {
  }

  lemma OutTake(taken: map<Id, nat>, w: Id, d: nat, e: nat)
    requires w !in taken
    ensures w !in Out(taken, e) && Out(taken[w := d], e) == Out(taken, e) + if e == d then {w} else {}
  {
  }

  /** An item that was counted and is not stale leaves with a charge to come. */
  ghost function TakenWith(queued: map<Id, Item>, home: map<Id, nat>, taken: map<Id, nat>, w: Id): map<Id, nat>
    requires w in queued
  {
    if w in home && !queued[w].flagged then taken[w := home[w]] else taken
  }

  lemma OpenTake(queued: map<Id, Item>, home: map<Id, nat>, taken: map<Id, nat>, w: Id, e: nat)
    requires w in queued && w !in taken
    ensures Open(queued - {w}, home - {w}, TakenWith(queued, home, taken, w), e) == Open(queued, home, taken, e)
  {
    hide Live, Out;
    LiveTake(queued, home, w, e);
    if w in home {
      OutTake(taken, w, home[w], e);
    }
  }

  lemma OpenCharge(queued: map<Id, Item>, home: map<Id, nat>, taken: map<Id, nat>, w: Id, e: nat)
    requires w in taken
    ensures Open(queued, home, taken - {w}, e) == Open(queued, home, taken, e) - if taken[w] == e then 1 else 0
  {
    assert Out(taken - {w}, e) == Out(taken, e) - {w};
    assert w in Out(taken, e) <==> taken[w] == e;
  }

  /** The table after every item with `subid` d has been flagged. */
  ghost function FlaggedAll(queued: map<Id, Item>, d: nat): map<Id, Item> {
    map w | w in queued :: if queued[w].subid == d then Item(d, true) else queued[w]
  }

  /** What a flush of device `d` takes from the open items of device `e`: those of its own, and
      those that were counted for `e` but still say `d`. */
  ghost function Hit(queued: map<Id, Item>, home: map<Id, nat>, d: nat, e: nat): set<Id> {
    set w | w in Live(queued, home, e) && queued[w].subid == d
  }

  lemma OpenFlag(queued: map<Id, Item>, home: map<Id, nat>, taken: map<Id, nat>, d: nat, e: nat)
    ensures Open(FlaggedAll(queued, d), home, taken, e) == Open(queued, home, taken, e) - |Hit(queued, home, d, e)|
  {
    assert Live(FlaggedAll(queued, d), home, e) == Live(queued, home, e) - Hit(queued, home, d, e);
  }

  /** Items counted for device `d` that do not say so yet: its flush misses them. */
  ghost function Missed(queued: map<Id, Item>, home: map<Id, nat>, d: nat): set<Id> {
    set w | w in Live(queued, home, d) && queued[w].subid != d
  }

  ghost predicate SomeWith(queued: map<Id, Item>, d: nat) {
    exists w :: w in queued && queued[w].subid == d
  }

  /** What is owed after a whole flush of device `d`. */
  ghost function FlushedOwed(owed: seq<int>, queued: map<Id, Item>, home: map<Id, nat>, taken: map<Id, nat>, d: nat)
    : (r: seq<int>)
    requires d < |owed|
    ensures |r| == |owed|
    ensures forall e :: 0 <= e < |owed| && e != d ==> r[e] == owed[e] + |Hit(queued, home, d, e)|
    ensures r[d] == if SomeWith(queued, d) then -(|Missed(queued, home, d)| + |Out(taken, d)|) else owed[d]
  {
    WithHits(owed, queued, home, d)[d :=
      if SomeWith(queued, d) then -((|Missed(queued, home, d)| + |Out(taken, d)|) as int) else owed[d]]
  }

  lemma FlushParts(owed: seq<int>, queued: map<Id, Item>, home: map<Id, nat>, taken: map<Id, nat>, d: nat)
    requires d < |owed|
    ensures SomeWith(queued, d) ==>
              WithHits(owed, queued, home, d)[d := -(Open(FlaggedAll(queued, d), home, taken, d) as int)]
              == FlushedOwed(owed, queued, home, taken, d)
    ensures !SomeWith(queued, d) ==>
              WithHits(owed, queued, home, d) == FlushedOwed(owed, queued, home, taken, d)
  {
    assert Live(FlaggedAll(queued, d), home, d) == Missed(queued, home, d);
    if !SomeWith(queued, d) {
      assert Hit(queued, home, d, d) == {};
    }
  }

  ghost function WithHits(owed: seq<int>, queued: map<Id, Item>, home: map<Id, nat>, d: nat): (r: seq<int>)
    ensures |r| == |owed| && forall e :: 0 <= e < |owed| ==> r[e] == owed[e] + |Hit(queued, home, d, e)|
  {
    seq(|owed|, e requires 0 <= e < |owed| => owed[e] + |Hit(queued, home, d, e)|)
  }

  /** One more is owed for device `from`, one less for device `to`. */
  ghost function Shifted(owed: seq<int>, from: nat, to: nat): (r: seq<int>)
    ensures |r| == |owed|
    ensures forall e :: 0 <= e < |owed| ==>
              r[e] == owed[e] + (if from == e then 1 else 0) - if to == e then 1 else 0
  {
    seq(|owed|, e requires 0 <= e < |owed| =>
      owed[e] + (if from == e then 1 else 0) - if to == e then 1 else 0)
  }

  /** What is owed after a result was charged to device `d`: nothing more if the item had been
      counted for it, one less for `d` if the item was not counted yet. */
  ghost function ChargedOwed(owed: seq<int>, taken: map<Id, nat>, w: Id, d: nat): (r: seq<int>)
    requires d < |owed|
    ensures |r| == |owed|
  {
    if w in taken then Shifted(owed, taken[w], d) else owed[d := owed[d] - 1]
  }

  lemma ChargeKeeps(queued: map<Id, Item>, home: map<Id, nat>, taken: map<Id, nat>, owed: seq<int>, devs: seq<Dev>,
                    w: Id, d: nat, dev: Dev)
    requires Counted(queued, home, taken, owed, devs) && Known(queued, home, taken, |devs|) && d < |devs|
    ensures |owed| == |devs| && Known(queued, home, taken - {w}, |devs|)
    ensures dev.workQueued == devs[d].workQueued - 1 ==>
              Counted(queued, home, taken - {w}, ChargedOwed(owed, taken, w, d), devs[d := dev])
    ensures dev.workQueued == devs[d].workQueued ==> Counted(queued, home, taken, owed, devs[d := dev])
  {
    hide Open, Shifted;
    if w in taken {
      forall e: nat
        ensures Open(queued, home, taken - {w}, e) == Open(queued, home, taken, e) - if taken[w] == e then 1 else 0
      {
        OpenCharge(queued, home, taken, w, e);
      }
    } else {
      assert taken - {w} == taken;
    }
  }

  lemma TakeKeeps(queued: map<Id, Item>, home: map<Id, nat>, taken: map<Id, nat>, owed: seq<int>, devs: seq<Dev>, w: Id)
    requires Counted(queued, home, taken, owed, devs) && Known(queued, home, taken, |devs|) && w in queued
    ensures Counted(queued - {w}, home - {w}, TakenWith(queued, home, taken, w), owed, devs)
    ensures Known(queued - {w}, home - {w}, TakenWith(queued, home, taken, w), |devs|)
  {
    hide Open;
    forall e: nat
      ensures Open(queued - {w}, home - {w}, TakenWith(queued, home, taken, w), e) == Open(queued, home, taken, e)
    {
      OpenTake(queued, home, taken, w, e);
    }
  }

  /** The table without the stale items of device `d`. */
  ghost function Cleaned(queued: map<Id, Item>, d: nat): map<Id, Item> {
    map w | w in queued && !(queued[w].flagged && queued[w].subid == d) :: queued[w]
  }

  ghost function HomeLeft(home: map<Id, nat>, queued: map<Id, Item>): map<Id, nat> {
    map w | w in home && w in queued :: home[w]
  }

  lemma FlaggedSize(queued: map<Id, Item>, d: nat)
    ensures |FlaggedAll(queued, d)| == |queued|
  {
    assert FlaggedAll(queued, d).Keys == queued.Keys;
  }

  class Bus {
    var queued: map<Id, Item>
    var queuedCount: int
    var devs: seq<Dev>
    const limits: Limits

    /** The device each counted item of the table was counted for. */
    ghost var home: map<Id, nat>
    /** Items that left the table with a result not charged yet, and the device they count for.
        Items that were stale when they left are not charged. */
    ghost var taken: map<Id, nat>
    /** By how much each counter is too high. */
    ghost var owed: seq<int>

    ghost predicate Valid()
      reads this
    {
      && Counted(queued, home, taken, owed, devs)
      && Known(queued, home, taken, |devs|)
      && queuedCount == |queued|
      && Bounded()
      && 0 <= limits.low <= limits.fullEnough && limits.fullEnough + 1 < limits.size
    }

    /** No device ever has more than one item beyond what is full enough. */
    ghost predicate Bounded()
      reads this`devs
    {
      forall d :: 0 <= d < |devs| ==> devs[d].workQueued <= limits.fullEnough + 1
    }

    ghost predicate Resting()
      reads this
    {
      Valid() && AtRest(queued, home, taken, owed)
    }

    constructor (n: nat, limits: Limits)
      requires 0 <= limits.low <= limits.fullEnough && limits.fullEnough + 1 < limits.size
      ensures Resting() && |devs| == n && queued == map[]
    {
      this.limits := limits;
      queued, queuedCount := map[], 0;
      devs := seq(n, _ => Dev(0, false, 0, 0, false));
      home, taken, owed := map[], map[], seq(n, _ => 0);
      new;
      forall d | 0 <= d < |devs|
        ensures Open(queued, home, taken, d) == 0
      {
        assert Live(queued, home, d) == {} && Out(taken, d) == {};
      }
    }

    // ----- the regions

    /** get_queued: the item enters the table; its `subid` is still 0. */
    method Enter(w: Id)
      requires Valid() && w !in queued && w !in taken && |devs| > 0
      modifies this`queued, this`queuedCount
      ensures Valid() && queued == old(queued)[w := Item(0, false)]
    {
      hide Open, Bounded;
      OpenSame(queued, home, taken, queued[w := Item(0, false)], home);
      queued := queued[w := Item(0, false)];
      queuedCount := queuedCount + 1;
    }

    /** A send that failed: the item leaves the table again. */
    method Leave(w: Id)
      requires Valid() && w in queued && w !in home
      modifies this`queued, this`queuedCount
      ensures Valid() && queued == old(queued) - {w}
    {
      hide Open, Bounded;
      OpenSame(queued, home, taken, queued - {w}, home);
      queued := queued - {w};
      queuedCount := queuedCount - 1;
    }

    /** A send that succeeded is counted, whatever became of the item in the meantime. */
    method Count(w: Id, d: nat)
      requires Valid() && w !in home && d < |devs| && devs[d].workQueued <= limits.fullEnough
      modifies this`devs, this`home, this`owed
      ensures Valid() && |owed| == |devs| == |old(devs)|
      ensures devs == old(devs)[d := old(devs)[d].(workQueued := old(devs)[d].workQueued + 1)]
      ensures home == if w in queued then old(home)[w := d] else old(home)
      ensures owed == if w in queued && !queued[w].flagged then old(owed)
                      else old(owed)[d := old(owed)[d] + 1]
    {
      hide Open;
      if w in queued {
        forall e: nat
          ensures Open(queued, home[w := d], taken, e)
                  == Open(queued, home, taken, e) + if e == d && !queued[w].flagged then 1 else 0
        {
          OpenCount(queued, home, taken, w, d, e);
        }
        home := home[w := d];
      }
      if w !in queued || queued[w].flagged {
        owed := owed[d := owed[d] + 1];
      }
      devs := devs[d := devs[d].(workQueued := devs[d].workQueued + 1)];
    }

    /** The device is written into the item, under no lock. */
    method Label(w: Id, d: nat)
      requires Valid() && w in queued && d < |devs|
      modifies this`queued
      ensures Valid() && queued == old(queued)[w := old(queued)[w].(subid := d)]
    {
      hide Open, Bounded;
      OpenSame(queued, home, taken, queued[w := queued[w].(subid := d)], home);
      assert queued[w := queued[w].(subid := d)].Keys == queued.Keys;
      queued := queued[w := queued[w].(subid := d)];
    }

    /** An item with a result leaves the table, perhaps before it was counted. */
    method Take(w: Id) returns (stale: bool)
      requires Valid() && w in queued
      modifies this`queued, this`queuedCount, this`home, this`taken
      ensures Valid() && stale == old(queued)[w].flagged
      ensures queued == old(queued) - {w} && home == old(home) - {w}
      ensures taken == TakenWith(old(queued), old(home), old(taken), w)
    {
      hide Counted, Known, Bounded, TakenWith;
      stale := queued[w].flagged;
      TakeKeeps(queued, home, taken, owed, devs, w);
      taken := TakenWith(queued, home, taken, w);
      queued, home := queued - {w}, home - {w};
      queuedCount := queuedCount - 1;
    }

    /** The result is charged to the device that reported it, unless the item was stale. If the
        item was not counted before, the counter is one too low now, until it is. */
    method Charge(w: Id, d: nat, stale: bool, res: bool)
      requires Valid() && d < |devs|
      modifies this`devs, this`taken, this`owed
      ensures Valid() && |owed| == |devs| == |old(devs)|
      ensures devs == old(devs)[d := old(devs)[d].(
                        workQueued := old(devs)[d].workQueued - if stale then 0 else 1,
                        resultId := old(devs)[d].resultId + if res then 1 else 0)]
      ensures taken == if stale then old(taken) else old(taken) - {w}
      ensures |old(owed)| == |devs| && owed == if stale then old(owed) else ChargedOwed(old(owed), old(taken), w, d)
    {
      hide Counted, Known, ChargedOwed;
      var dev := devs[d].(workQueued := devs[d].workQueued - if stale then 0 else 1,
                          resultId := devs[d].resultId + if res then 1 else 0);
      ChargeKeeps(queued, home, taken, owed, devs, w, d, dev);
      if !stale {
        owed := ChargedOwed(owed, taken, w, d);
        taken := taken - {w};
      }
      devs := devs[d := dev];
    }

    /** The first half of a flush flags every item that says it is with the device. */
    method FlagDev(d: nat) returns (did: bool)
      requires Valid() && d < |devs|
      modifies this`queued, this`owed
      ensures Valid() && |owed| == |devs| && queued == FlaggedAll(old(queued), d)
      ensures did <==> exists w :: w in old(queued) && old(queued)[w].subid == d
      ensures owed == WithHits(old(owed), old(queued), home, d)
    {
      hide Open, Hit, Bounded, WithHits;
      ghost var before := queued;
      forall e: nat
        ensures Open(FlaggedAll(queued, d), home, taken, e)
                == Open(queued, home, taken, e) - |Hit(queued, home, d, e)|
      {
        OpenFlag(queued, home, taken, d, e);
      }
      did := FlagItems(d);
      FlaggedSize(before, d);
      owed := WithHits(owed, before, home, d);
    }

    method FlagItems(d: nat) returns (did: bool)
      modifies this`queued
      ensures queued == FlaggedAll(old(queued), d)
      ensures did <==> exists w :: w in old(queued) && old(queued)[w].subid == d
    {
      did := false;
      var rest := queued.Keys;
      while rest != {}
        invariant rest <= queued.Keys == old(queued).Keys
        invariant forall w :: w in queued ==>
                    queued[w] == if w !in rest && old(queued)[w].subid == d then Item(d, true) else old(queued)[w]
        invariant did <==> exists w :: w in old(queued) && w !in rest && old(queued)[w].subid == d
        decreases rest
      {
        var w :| w in rest;
        if queued[w].subid == d {
          queued := queued[w := queued[w].(flagged := true)];
          did := true;
        }
        rest := rest - {w};
      }
    }

    /** The second half starts the counter anew: what is open then is not counted. */
    method ZeroDev(d: nat)
      requires Valid() && d < |devs|
      modifies this`devs, this`owed
      ensures Valid() && |owed| == |devs| == |old(devs)|
      ensures devs == old(devs)[d := old(devs)[d].(flushed := true, flushId := old(devs)[d].resultId, workQueued := 0)]
      ensures owed == old(owed)[d := -(Open(queued, home, taken, d) as int)]
    {
      hide Open;
      devs := devs[d := devs[d].(flushed := true, flushId := devs[d].resultId, workQueued := 0)];
      owed := owed[d := -(Open(queued, home, taken, d) as int)];
    }

    /** Any write to a device that leaves its counter alone. */
    method SetDev(d: nat, dev: Dev)
      requires Valid() && d < |devs| && dev.workQueued == devs[d].workQueued
      modifies this`devs
      ensures Valid() && devs == old(devs)[d := dev]
    {
      hide Open, Known;
      devs := devs[d := dev];
    }

    method DropStale(d: nat)
      requires Valid()
      modifies this`queued, this`queuedCount, this`home
      ensures Valid() && queued == Cleaned(old(queued), d) && home == HomeLeft(old(home), queued)
    {
      hide Open, Bounded;
      ghost var before, homes := queued, home;
      var rest := queued.Keys;
      while rest != {}
        invariant rest <= queued.Keys && queuedCount == |queued| && home == homes
        invariant forall w :: w in queued <==>
                    w in before && (w in rest || !(before[w].flagged && before[w].subid == d))
        invariant forall w :: w in queued ==> queued[w] == before[w]
        decreases rest
      {
        var w :| w in rest;
        rest := rest - {w};
        if queued[w].flagged && queued[w].subid == d {
          queuedCount := queuedCount - 1;
          queued := queued - {w};
        }
      }
      assert queued == Cleaned(before, d);
      home := HomeLeft(home, queued);
      OpenSame(before, homes, taken, queued, home);
    }

    // ----- whole operations, nothing coming in between

    /** Flags the items of a device and, if there was one, starts its counter anew. Its counter
        is right afterwards exactly when no result of the device was under way, and no item
        counted for it but not saying so yet; or, if there was no item, when it was before. */
    method FlushOneDev(d: nat)
      requires Valid() && d < |devs|
      modifies this`queued, this`devs, this`owed
      ensures Valid() && |owed| == |devs| == |old(devs)| == |old(owed)| && queued == FlaggedAll(old(queued), d)
      ensures devs == if SomeWith(old(queued), d)
                      then old(devs)[d := old(devs)[d].(
                             flushed := true, flushId := old(devs)[d].resultId, workQueued := 0)]
                      else old(devs)
      ensures forall w :: w in old(queued) ==>
                w in queued && queued[w].subid == old(queued)[w].subid
                && (queued[w].flagged <==> old(queued)[w].flagged || old(queued)[w].subid == d)
      ensures owed == FlushedOwed(old(owed), old(queued), home, taken, d)
      ensures owed[d] == 0 <==> if SomeWith(old(queued), d)
                                then Missed(old(queued), home, d) == {} && Out(taken, d) == {}
                                else old(owed)[d] == 0
      ensures old(Resting()) ==> Resting()
    {
      hide Counted, Open, Known, Bounded, FlaggedAll, WithHits, FlushedOwed, Missed, Hit, Out, Live;
      SameLengths();
      ghost var before, was := queued, owed;
      FlaggedIs(before, d);
      FlushParts(was, before, home, taken, d);
      if Resting() {
        FlushAtRest(before, home, taken, was, d);
      }
      var did := FlagDev(d);
      if did {
        ZeroDev(d);
      }
    }

    lemma FlaggedIs(items: map<Id, Item>, d: nat)
      ensures FlaggedAll(items, d).Keys == items.Keys
      ensures forall w :: w in items ==>
                var item := FlaggedAll(items, d)[w];
                item.subid == items[w].subid && (item.flagged <==> items[w].flagged || items[w].subid == d)
    {
    }

    /** Sends the next waiting item to a device. The item enters the table before it is sent
        and leaves it again if sending fails. */
    method SendWork(d: nat, gone: bool, locked: bool, work: Option<Id>, sent: bool) returns (ok: bool)
      requires Resting() && d < |devs| && devs[d].workQueued <= limits.fullEnough
      requires work.Some? ==> work.value !in queued
      modifies this`queued, this`queuedCount, this`devs, this`home, this`owed
      ensures Resting() && |devs| == |old(devs)|
      ensures ok <==> !gone && !devs[d].overheat && locked && work.Some? && sent
      ensures ok ==> queued == old(queued)[work.value := Item(d, false)]
                     && devs == old(devs)[d := old(devs)[d].(workQueued := old(devs)[d].workQueued + 1)]
      ensures !ok ==> queued == old(queued) && devs == old(devs)
    {
      hide *;
      if gone || devs[d].overheat || !locked || work.None? {
        return false;
      }
      var w := work.value;
      RestFacts();
      SendAtRest(queued, home, taken, owed, |devs|, w, d);
      Enter(w);
      if !sent {
        Leave(w);
        assert queued == old(queued);
        RestFacts();
        return false;
      }
      Count(w, d);
      Label(w, d);
      RestFacts();
      return true;
    }

    /** A result that device `d` reports: the item leaves the table and is charged to `d`. Only
        the outcome of the last nonce counts as a result. At rest before, all counters are right
        afterwards exactly when `d` is the device the item was sent to, or the item was stale. */
    method ProcessNonces(d: nat, found: Option<Id>, nonces: seq<bool>)
      requires Resting() && d < |devs|
      requires found.Some? ==> found.value in queued
      modifies this`queued, this`queuedCount, this`devs, this`home, this`taken, this`owed
      ensures Valid() && |devs| == |old(devs)|
      ensures Resting() <==> found.None? || old(queued)[found.value].flagged || old(queued)[found.value].subid == d
      ensures found.None? ==> queued == old(queued) && devs == old(devs)
      ensures found.Some? ==>
                && queued == old(queued) - {found.value}
                && var was := old(devs)[d];
                   devs[d] == was.(
                     workQueued := was.workQueued - (if old(queued)[found.value].flagged then 0 else 1),
                     resultId := was.resultId + (if nonces != [] && nonces[|nonces| - 1] then 1 else 0))
      ensures forall e :: 0 <= e < |devs| && e != d ==> devs[e] == old(devs)[e]
    {
      hide *;
      RestFacts();
      if found.None? {
        return;
      }
      var w := found.value;
      ChargedToReporterIff(queued, home, taken, owed, |devs|, w, d);
      var stale := Take(w);
      var res := SubmitAll(nonces);
      Charge(w, d, stale, res);
      RestFacts();
      assert taken == map[];
    }

    method SubmitAll(nonces: seq<bool>) returns (res: bool)
      ensures res == (nonces != [] && nonces[|nonces| - 1])
    {
      res := false;
      for i := 0 to |nonces|
        invariant res == (i > 0 && nonces[i - 1])
      {
        res := nonces[i];
      }
    }

    /** Enough results came in since the flush for its stale items to be gone. */
    ghost predicate Due(dev: Dev) {
      dev.flushed && dev.resultId > dev.flushId + limits.flushSize
    }

    ghost function Seen(dev: Dev): Dev {
      if Due(dev) then dev.(flushed := false) else dev
    }

    /** The table without the stale items of those of the first `n` devices that are due. */
    ghost function CleanedUpTo(items: map<Id, Item>, devices: seq<Dev>, n: nat): map<Id, Item>
      requires n <= |devices|
    {
      map w | w in items && !(items[w].flagged && items[w].subid < n && Due(devices[items[w].subid])) :: items[w]
    }

    lemma CleanOneMore(items: map<Id, Item>, devices: seq<Dev>, n: nat)
      requires n < |devices|
      ensures var before := CleanedUpTo(items, devices, n);
              CleanedUpTo(items, devices, n + 1) == if Due(devices[n]) then Cleaned(before, n) else before
    {
    }

    lemma NothingCleaned()
      ensures CleanedUpTo(queued, devs, 0) == queued
    {
    }

    lemma CleanedIs(items: map<Id, Item>, devices: seq<Dev>)
      requires Known(items, home, taken, |devices|)
      ensures forall w :: w in items ==> items[w].subid < |devices|
      ensures var left := CleanedUpTo(items, devices, |devices|);
              && (forall w :: w in left ==> w in items && left[w] == items[w])
              && forall w :: w in items ==>
                   var dev := devices[items[w].subid];
                   w in left <==> !(items[w].flagged && dev.flushed && dev.resultId > dev.flushId + limits.flushSize)
    {
    }

    /** After enough results since a flush, the stale items of a device are dropped. No counter
        changes, and what is owed stays. */
    method Cleanup()
      requires Valid()
      modifies this`queued, this`queuedCount, this`devs, this`home
      ensures Valid() && |devs| == |old(devs)|
      ensures forall w :: w in old(queued) ==> old(queued)[w].subid < |devs|
      ensures forall w :: w in queued ==> w in old(queued) && queued[w] == old(queued)[w]
      ensures forall w :: w in old(queued) ==>
                var dev := old(devs)[old(queued)[w].subid];
                w in queued <==>
                  !(old(queued)[w].flagged && dev.flushed && dev.resultId > dev.flushId + limits.flushSize)
      ensures forall d :: 0 <= d < |devs| ==>
                var dev := old(devs)[d];
                devs[d] == dev.(flushed := dev.flushed && dev.resultId <= dev.flushId + limits.flushSize)
    {
      hide Counted, Known, Open, CleanedUpTo, HomeLeft, Bounded;
      ghost var before := queued;
      NothingCleaned();
      CleanedIs(before, devs);
      for d := 0 to |devs|
        invariant Valid() && |devs| == |old(devs)|
        invariant forall e :: 0 <= e < d ==> devs[e] == Seen(old(devs)[e])
        invariant forall e :: d <= e < |devs| ==> devs[e] == old(devs)[e]
        invariant queued == CleanedUpTo(before, old(devs), d)
      {
        CleanOneMore(before, old(devs), d);
        if devs[d].flushed && devs[d].resultId > devs[d].flushId + limits.flushSize {
          DropStale(d);
          SetDev(d, devs[d].(flushed := false));
        }
      }
    }

    /** The device to send to next: one that counts nothing first, else one that counts least,
        unless even that has enough. */
    method PickDev(tried: int) returns (dev: int, mandatory: bool)
      requires Valid()
      ensures -1 <= dev < |devs|
      ensures dev >= 0 ==> dev != tried && !devs[dev].overheat && devs[dev].workQueued <= limits.fullEnough
      ensures dev >= 0 && devs[dev].workQueued == 0 ==>
                forall e :: 0 <= e < dev && e != tried && !devs[e].overheat ==> devs[e].workQueued != 0
      ensures dev >= 0 && devs[dev].workQueued != 0 ==>
                && (forall e :: 0 <= e < |devs| && e != tried && !devs[e].overheat ==>
                      devs[e].workQueued != 0 && devs[dev].workQueued <= devs[e].workQueued)
                && (forall e :: 0 <= e < dev && e != tried && !devs[e].overheat ==>
                      devs[dev].workQueued < devs[e].workQueued)
      ensures dev >= 0 && Resting() ==>
                forall e :: 0 <= e < |devs| && e != tried && !devs[e].overheat ==>
                  devs[dev].workQueued <= devs[e].workQueued
      ensures mandatory <==> dev >= 0 && devs[dev].workQueued != 0 && devs[dev].workQueued < limits.low
      ensures dev == -1 ==>
                forall e :: 0 <= e < |devs| && e != tried && !devs[e].overheat ==>
                  devs[e].workQueued > limits.fullEnough
    {
      NotNegative();
      hide Counted, Known, Open, AtRest;
      dev, mandatory := -1, false;
      for i := 0 to |devs|
        invariant dev == -1
        invariant forall e :: 0 <= e < i && e != tried && !devs[e].overheat ==> devs[e].workQueued != 0
      {
        if i != tried && devs[i].workQueued == 0 && !devs[i].overheat {
          return i, false;
        }
      }
      var que := limits.size * 10;
      for i := 0 to |devs|
        invariant -1 <= dev < |devs|
        invariant if dev == -1 then que == limits.size * 10
                  else dev != tried && !devs[dev].overheat && que == devs[dev].workQueued
        invariant forall e :: 0 <= e < i && e != tried && !devs[e].overheat ==> que <= devs[e].workQueued
        invariant forall e :: 0 <= e < dev && e != tried && !devs[e].overheat ==> que < devs[e].workQueued
      {
        if i != tried && devs[i].workQueued < que && !devs[i].overheat {
          dev, que := i, devs[i].workQueued;
        }
      }
      if que > limits.fullEnough {
        dev := -1;
      } else if que < limits.low {
        mandatory := true;
      }
    }

    lemma NotNegative()
      ensures Resting() ==> forall d :: 0 <= d < |devs| ==> devs[d].workQueued >= 0
    {
      hide Open;
    }

    /** Device `d` is the next to send to: of those not hot, and not tried just now, the first
        that counts least, and it has not enough yet. */
    ghost predicate Wants(devices: seq<Dev>, tried: int, d: nat) {
      && d < |devices| && d != tried && !devices[d].overheat && devices[d].workQueued <= limits.fullEnough
      && forall e :: 0 <= e < |devices| && e != tried && !devices[e].overheat ==>
           devices[d].workQueued <= devices[e].workQueued
           && (e < d ==> devices[d].workQueued < devices[e].workQueued)
    }

    ghost predicate NoneWants(devices: seq<Dev>, tried: int) {
      forall e :: 0 <= e < |devices| && e != tried && !devices[e].overheat ==>
        devices[e].workQueued > limits.fullEnough
    }

    /** A send to a device succeeds: the bus is free, or waited for since the device runs low,
        there is work, and the device takes it. */
    ghost predicate Sends(dev: Dev, locked: bool, work: Option<Id>, sent: bool) {
      (locked || 0 < dev.workQueued < limits.low) && work.Some? && sent
    }

    /** At most one device is the next, and none exactly if no device has room. */
    lemma OneWants(devices: seq<Dev>)
      ensures forall tried: int, d: nat :: Wants(devices, tried, d) ==>
                d < |devices| && !NoneWants(devices, tried) && devices[d].workQueued <= limits.fullEnough
      ensures forall tried: int, d: nat, e: nat :: Wants(devices, tried, d) && Wants(devices, tried, e) ==> d == e
    {
      forall tried: int, d: nat, e: nat | Wants(devices, tried, d) && Wants(devices, tried, e)
        ensures d == e
      {
        assert e < d || e == d || d < e;
      }
    }

    /** In every state no device has more than one item beyond full enough, or a full queue. */
    lemma NeverOverfull()
      requires Valid()
      ensures forall d :: 0 <= d < |devs| ==> devs[d].workQueued <= limits.fullEnough + 1 < limits.size
      ensures queuedCount == |queued|
    {
      hide Counted, Known, AtRest;
    }

    /** At rest every counter is the number of unflagged items that say its device. */
    lemma CountersRight(d: nat)
      requires Resting() && d < |devs|
      ensures devs[d].workQueued == |set w | w in queued && queued[w].subid == d && !queued[w].flagged|
    {
      AtRestCounts(queued, home, taken, owed, devs);
      assert Unfinished(queued, d) == set w | w in queued && queued[w].subid == d && !queued[w].flagged;
    }

    /** One try: picks a device and sends to it. */
    method TryDevice(tried: int, locked: bool, work: Option<Id>, sent: bool) returns (dev: int, ok: bool)
      requires Resting() && (work.Some? ==> work.value !in queued)
      modifies this`queued, this`queuedCount, this`devs, this`home, this`owed
      ensures Resting() && |devs| == |old(devs)| && -1 <= dev < |devs|
      ensures dev == -1 ==> NoneWants(old(devs), tried) && !ok
      ensures dev >= 0 ==> Wants(old(devs), tried, dev) && (ok <==> Sends(old(devs)[dev], locked, work, sent))
      ensures ok ==> queued == old(queued)[work.value := Item(dev, false)]
                     && devs == old(devs)[dev := old(devs)[dev].(workQueued := old(devs)[dev].workQueued + 1)]
      ensures !ok ==> queued == old(queued) && devs == old(devs)
    {
      NotNegative();
      hide Counted, Known, Open, AtRest, Bounded;
      var mandatory;
      dev, mandatory := PickDev(tried);
      if dev == -1 {
        return dev, false;
      }
      assert Wants(devs, tried, dev);
      ok := SendWork(dev, false, mandatory || locked, work, sent);
    }

    /** Called until it returns true: at most two devices are tried. `gone`, `locked`, `work` and
        `sent` are the environment's answers for the two tries; a bus that is gone is full. The
        second try is of the next device, after the first one did not take its work. */
    method QueueFull(gone: seq<bool>, locked: seq<bool>, work: seq<Option<Id>>, sent: seq<bool>) returns (full: bool)
      requires Resting() && |gone| == |locked| == |work| == |sent| == 2
      requires forall k :: 0 <= k < 2 ==> work[k].Some? ==> work[k].value !in queued
      modifies this`queued, this`queuedCount, this`devs, this`home, this`owed
      ensures Resting() && |devs| == |old(devs)|
      ensures full <==>
                || gone[0] || NoneWants(old(devs), -1)
                || exists d: nat :: Wants(old(devs), -1, d) && !Sends(old(devs)[d], locked[0], work[0], sent[0])
                                    && (gone[1] || NoneWants(old(devs), d))
      ensures full ==> queued == old(queued) && devs == old(devs)
      ensures forall d: nat ::
                !gone[0] && Wants(old(devs), -1, d) && Sends(old(devs)[d], locked[0], work[0], sent[0]) ==>
                && queued == old(queued)[work[0].value := Item(d, false)]
                && devs == old(devs)[d := old(devs)[d].(workQueued := old(devs)[d].workQueued + 1)]
      ensures forall d: nat, e: nat ::
                !full && Wants(old(devs), -1, d) && !Sends(old(devs)[d], locked[0], work[0], sent[0])
                && Wants(old(devs), d, e) ==>
                  if Sends(old(devs)[e], locked[1], work[1], sent[1])
                  then && queued == old(queued)[work[1].value := Item(e, false)]
                       && devs == old(devs)[e := old(devs)[e].(workQueued := old(devs)[e].workQueued + 1)]
                  else queued == old(queued) && devs == old(devs)
      ensures forall d :: 0 <= d < |devs| ==> old(devs)[d].workQueued <= devs[d].workQueued <= limits.fullEnough + 1
    {
      hide *;
      RestFacts();
      NeverOverfull();
      OneWants(devs);
      full := false;
      var tried, k := -1, 0;
      ghost var first: nat := 0;
      while k < 2
        invariant 0 <= k <= 2 && Resting() && queued == old(queued) && devs == old(devs)
        invariant k == 0 ==> tried == -1
        invariant k > 0 ==> !gone[0] && Wants(old(devs), -1, first) && first < |devs|
        invariant k > 0 ==> !Sends(old(devs)[first], locked[0], work[0], sent[0])
        invariant k == 1 ==> tried == first
        invariant k == 2 ==> 0 <= tried < |devs| && !gone[1] && Wants(old(devs), first, tried)
        invariant k == 2 ==> !Sends(old(devs)[tried], locked[1], work[1], sent[1])
      {
        if gone[k] {
          return true;
        }
        var dev, ok := TryDevice(tried, locked[k], work[k], sent[k]);
        if dev == -1 {
          return true;
        }
        if ok {
          return false;
        }
        if k == 0 {
          first := dev;
        }
        tried := dev;
        k := k + 1;
      }
    }

    // ----- operations with a flush in between

    /** A result of device `d` taken before a flush of device `e` and charged after it. The
        counters are right exactly when the flush was of another device or found no other item,
        or the result was stale; otherwise the counter of `d` is -1. */
    method ResultAcrossFlush(w: Id, d: nat, e: nat, res: bool)
      requires Resting() && w in queued && queued[w].subid == d && e < |devs|
      modifies this`queued, this`queuedCount, this`devs, this`home, this`taken, this`owed
      ensures Valid() && |devs| == |old(devs)|
      ensures Resting() <==> old(queued)[w].flagged || e != d || !SomeWith(old(queued) - {w}, d)
      ensures !Resting() ==> devs[d].workQueued == -1
    {
      hide *;
      RestFacts();
      ResultFlushed(queued, home, taken, owed, |devs|, w, d, e);
      var stale := Take(w);
      FlushOneDev(e);
      Charge(w, d, stale, res);
      RestFacts();
      assert taken == map[];
    }

    /** An item whose result, reported by device `r`, is handled before the item is counted for
        device `d`: the one counter it was taken from and the one it is added to are right
        afterwards exactly when they are the same. The item itself is gone by then. */
    method ResultBeforeCount(w: Id, d: nat, r: nat, res: bool)
      requires Resting() && w !in queued && d < |devs| && devs[d].workQueued <= limits.fullEnough && r < |devs|
      modifies this`queued, this`queuedCount, this`devs, this`home, this`taken, this`owed
      ensures Valid() && |devs| == |old(devs)| && queued == old(queued)
      ensures Resting() <==> r == d
      ensures forall e :: 0 <= e < |devs| ==>
                devs[e].workQueued == old(devs)[e].workQueued + (if e == d then 1 else 0) - if e == r then 1 else 0
    {
      hide *;
      RestFacts();
      EarlyResult(queued, home, taken, owed, |devs|, w, d, r);
      Enter(w);
      var stale := Take(w);
      assert queued == old(queued) && home == old(home);
      Charge(w, r, stale, res);
      Count(w, d);
      RestFacts();
    }

    /** An item that enters the table before a flush of device `e` and is counted after it. It
        still says device 0. All counters are right exactly when `e` is another device;
        otherwise that of `d` is one too high. */
    method SendAcrossFlush(w: Id, d: nat, e: nat)
      requires Resting() && w !in queued && d < |devs| && devs[d].workQueued <= limits.fullEnough && e < |devs|
      modifies this`queued, this`queuedCount, this`devs, this`home, this`owed
      ensures Valid() && |devs| == |old(devs)|
      ensures Resting() <==> e != 0
      ensures devs[d].workQueued == |Unfinished(queued, d)| + if e == 0 then 1 else 0
    {
      hide *;
      RestFacts();
      SendFlushed(queued, home, taken, owed, |devs|, w, d, e);
      Enter(w);
      FlushOneDev(e);
      Count(w, d);
      Label(w, d);
      RestFacts();
      CountOf(d);
    }

    /** An item that is counted for device `d` before a flush of device `e`, but says so only
        after it. A flush of `d` misses it, unless `d` is 0, and a flush of 0 hits it. */
    method LabelAcrossFlush(w: Id, d: nat, e: nat)
      requires Resting() && w !in queued && d < |devs| && devs[d].workQueued <= limits.fullEnough && e < |devs|
      modifies this`queued, this`queuedCount, this`devs, this`home, this`owed
      ensures Valid() && |devs| == |old(devs)|
      ensures Resting() <==> if e == 0 then d == 0 else e != d || !SomeWith(old(queued), d)
      ensures devs[d].workQueued == |Unfinished(queued, d)| + if Resting() then 0 else if e == 0 then 1 else -1
    {
      hide *;
      RestFacts();
      LabelFlushed(queued, home, taken, owed, |devs|, w, d, e);
      Enter(w);
      Count(w, d);
      FlushOneDev(e);
      Label(w, d);
      RestFacts();
      CountOf(d);
    }

    /** An item that is sent to a device between the two halves of the device's flush. All
        counters are right exactly when the first half found nothing; otherwise the item is not
        counted. */
    method SendInsideFlush(w: Id, d: nat)
      requires Resting() && w !in queued && d < |devs| && devs[d].workQueued <= limits.fullEnough
      modifies this`queued, this`queuedCount, this`devs, this`home, this`owed
      ensures Valid() && |devs| == |old(devs)|
      ensures Resting() <==> !SomeWith(old(queued), d)
      ensures devs[d].workQueued == |Unfinished(queued, d)| - if SomeWith(old(queued), d) then 1 else 0
    {
      hide *;
      RestFacts();
      SendHalfFlushed(queued, home, taken, owed, |devs|, w, d);
      SomeWithIs(d);
      var did := FlagDev(d);
      Enter(w);
      Count(w, d);
      Label(w, d);
      if did {
        ZeroDev(d);
      }
      RestFacts();
      CountOf(d);
    }

    lemma SomeWithIs(d: nat)
      ensures SomeWith(queued, d) <==> exists w :: w in queued && queued[w].subid == d
    {
    }

    lemma RestFacts()
      ensures Resting() <==> Valid() && AtRest(queued, home, taken, owed)
      ensures Valid() ==> |owed| == |devs| && Known(queued, home, taken, |devs|)
      ensures Valid() ==> 0 <= limits.low <= limits.fullEnough
      ensures Resting() ==> taken == map[] && forall w :: w in queued ==> w in home && home[w] == queued[w].subid
    {
    }

    lemma CountOf(d: nat)
      requires Valid() && d < |devs| == |owed| && taken == map[] && Labelled(queued, home)
      ensures devs[d].workQueued == |Unfinished(queued, d)| + owed[d]
    {
      assert Out(taken, d) == {};
      assert Live(queued, home, d) == Unfinished(queued, d);
    }

    lemma SameLengths()
      requires Valid()
      ensures |owed| == |devs|
    {
    }
  }

  ghost predicate Labelled(queued: map<Id, Item>, home: map<Id, nat>) {
    forall w :: w in queued ==> w in home && home[w] == queued[w].subid
  }

  /** A flush of device `e` with at most one result, of device `d`, under way. */
  lemma ResultFlush(queued: map<Id, Item>, home: map<Id, nat>, taken: map<Id, nat>, owed: seq<int>, d: nat, e: nat)
    requires d < |owed| && e < |owed| && forall x :: 0 <= x < |owed| ==> owed[x] == 0
    requires Labelled(queued, home)
    requires taken == map[] || exists w :: taken == map[w := d]
    ensures var r := FlushedOwed(owed, queued, home, taken, e);
            && (forall x :: 0 <= x < |r| && x != d ==> r[x] == 0)
            && (r[d] == if taken != map[] && e == d && SomeWith(queued, d) then -1 else 0)
  {
    assert Missed(queued, home, e) == {};
    forall x: nat | x != e
      ensures Hit(queued, home, e, x) == {}
    {
    }
    if taken == map[] {
      assert Out(taken, e) == {};
    } else {
      var w :| taken == map[w := d];
      assert Out(taken, e) == if e == d then {w} else {};
    }
  }

  lemma ResultFlushed(queued: map<Id, Item>, home: map<Id, nat>, taken: map<Id, nat>, owed: seq<int>, n: nat,
                      w: Id, d: nat, e: nat)
    requires AtRest(queued, home, taken, owed) && Known(queued, home, taken, n) && |owed| == n && e < n
    requires w in queued && queued[w].subid == d
    ensures d < n && w in home && home[w] == d && taken == map[]
    ensures TakenWith(queued, home, taken, w) == if queued[w].flagged then taken else taken[w := d]
    ensures var stale, items, homes := queued[w].flagged, queued - {w}, home - {w};
            var r := FlushedOwed(owed, items, homes, if stale then taken else taken[w := d], e);
            && (AtRest(FlaggedAll(items, e), homes, taken, if stale then r else ChargedOwed(r, taken[w := d], w, d))
                <==> stale || e != d || !SomeWith(items, d))
  {
    var stale, items, homes := queued[w].flagged, queued - {w}, home - {w};
    var out := if stale then taken else taken[w := d];
    assert out == if stale then map[] else map[w := d];
    hide FlushedOwed, SomeWith;
    ResultFlush(items, homes, out, owed, d, e);
    var r := FlushedOwed(owed, items, homes, out, e);
    assert Shifted(r, d, d) == r;
  }

  lemma ChargedToReporterIff(queued: map<Id, Item>, home: map<Id, nat>, taken: map<Id, nat>, owed: seq<int>,
                             n: nat, w: Id, d: nat)
    requires AtRest(queued, home, taken, owed) && Known(queued, home, taken, n) && |owed| == n && d < n
    requires w in queued
    ensures w in home && taken == map[] && TakenWith(queued, home, taken, w) - {w} == taken
    ensures var stale, h := queued[w].flagged, queued[w].subid;
            && home[w] == h && TakenWith(queued, home, taken, w) == (if stale then taken else taken[w := h])
            && (AtRest(queued - {w}, home - {w}, taken, if stale then owed else ChargedOwed(owed, map[w := h], w, d))
                <==> stale || h == d)
  {
    hide Shifted;
    if !queued[w].flagged && queued[w].subid != d {
      assert Shifted(owed, queued[w].subid, d)[d] == -1;
    }
  }

  lemma EarlyResult(queued: map<Id, Item>, home: map<Id, nat>, taken: map<Id, nat>, owed: seq<int>, n: nat,
                    w: Id, d: nat, r: nat)
    requires AtRest(queued, home, taken, owed) && Known(queued, home, taken, n) && |owed| == n && d < n && r < n
    requires w !in queued
    ensures w !in home && taken == map[]
    ensures var items := queued[w := Item(0, false)];
            && items - {w} == queued && home - {w} == home && taken - {w} == taken
            && TakenWith(items, home, taken, w) == taken
            && var low := ChargedOwed(owed, taken, w, r);
               AtRest(queued, home, taken, low[d := low[d] + 1]) <==> r == d
  {
    var low := owed[r := owed[r] - 1];
    var last := low[d := low[d] + 1];
    assert r != d ==> last[d] == 1;
  }

  lemma SendAtRest(queued: map<Id, Item>, home: map<Id, nat>, taken: map<Id, nat>, owed: seq<int>, n: nat, w: Id,
                   d: nat)
    requires AtRest(queued, home, taken, owed) && Known(queued, home, taken, n) && w !in queued && d < n
    ensures w !in home && w !in taken
    ensures AtRest(queued[w := Item(0, false)][w := Item(d, false)], home[w := d], taken, owed)
  {
  }

  lemma SendFlushed(queued: map<Id, Item>, home: map<Id, nat>, taken: map<Id, nat>, owed: seq<int>, n: nat,
                    w: Id, d: nat, e: nat)
    requires AtRest(queued, home, taken, owed) && Known(queued, home, taken, n) && |owed| == n
    requires w !in queued && d < n && e < n
    ensures w !in home && taken == map[] && w in FlaggedAll(queued[w := Item(0, false)], e)
    ensures var items := queued[w := Item(0, false)];
            var r, flushed := FlushedOwed(owed, items, home, taken, e), FlaggedAll(items, e);
            var last := if !flushed[w].flagged then r else r[d := r[d] + 1];
            var after := flushed[w := flushed[w].(subid := d)];
            && (AtRest(after, home[w := d], taken, last) <==> e != 0)
            && Labelled(after, home[w := d]) && last[d] == if e == 0 then 1 else 0
  {
    var items := queued[w := Item(0, false)];
    assert Missed(items, home, e) == {} && Out(taken, e) == {};
    forall x: nat | x != e
      ensures Hit(items, home, e, x) == {}
    {
    }
  }

  lemma LabelFlushed(queued: map<Id, Item>, home: map<Id, nat>, taken: map<Id, nat>, owed: seq<int>, n: nat,
                     w: Id, d: nat, e: nat)
    requires AtRest(queued, home, taken, owed) && Known(queued, home, taken, n) && |owed| == n
    requires w !in queued && d < n && e < n
    ensures w !in home && taken == map[] && w in FlaggedAll(queued[w := Item(0, false)], e)
    ensures var items, homes := queued[w := Item(0, false)], home[w := d];
            var r, flushed := FlushedOwed(owed, items, homes, taken, e), FlaggedAll(items, e);
            var after := flushed[w := flushed[w].(subid := d)];
            var right := if e == 0 then d == 0 else e != d || !SomeWith(queued, d);
            && (AtRest(after, homes, taken, r) <==> right) && Labelled(after, homes)
            && r[d] == if right then 0 else if e == 0 then 1 else -1
  {
    var items, homes := queued[w := Item(0, false)], home[w := d];
    assert SomeWith(items, e) <==> e == 0 || SomeWith(queued, e) by {
      assert items[w].subid == 0;
      if SomeWith(queued, e) {
        var x :| x in queued && queued[x].subid == e;
        assert items[x].subid == e;
      }
    }
    assert Out(taken, e) == {};
    assert Missed(items, homes, e) == if e == d && d != 0 then {w} else {};
    forall x: nat | x != e
      ensures Hit(items, homes, e, x) == if e == 0 && x == d then {w} else {}
    {
    }
    hide Missed, Hit, SomeWith, Out, Live;
    var r, flushed := FlushedOwed(owed, items, homes, taken, e), FlaggedAll(items, e);
    assert forall x :: 0 <= x < n && x != d ==> r[x] == 0;
    RestsIff(flushed[w := flushed[w].(subid := d)], homes, r, d);
  }

  lemma SendHalfFlushed(queued: map<Id, Item>, home: map<Id, nat>, taken: map<Id, nat>, owed: seq<int>, n: nat,
                        w: Id, d: nat)
    requires AtRest(queued, home, taken, owed) && Known(queued, home, taken, n) && |owed| == n
    requires w !in queued && d < n
    ensures w !in home && taken == map[] && w !in FlaggedAll(queued, d)
    ensures var after, homes := FlaggedAll(queued, d)[w := Item(0, false)][w := Item(d, false)], home[w := d];
            var r := WithHits(owed, queued, home, d);
            var last := if SomeWith(queued, d) then r[d := -(Open(after, homes, taken, d) as int)] else r;
            && (AtRest(after, homes, taken, last) <==> !SomeWith(queued, d)) && Labelled(after, homes)
            && last[d] == if SomeWith(queued, d) then -1 else 0
  {
    var after, homes := FlaggedAll(queued, d)[w := Item(0, false)][w := Item(d, false)], home[w := d];
    assert Out(taken, d) == {} && Live(after, homes, d) == {w};
    forall x: nat | x != d
      ensures Hit(queued, home, d, x) == {}
    {
    }
    if !SomeWith(queued, d) {
      assert Hit(queued, home, d, d) == {};
    }
    var r := WithHits(owed, queued, home, d);
    var last := if SomeWith(queued, d) then r[d := -(Open(after, homes, taken, d) as int)] else r;
    hide Hit, SomeWith, Out, Live;
    assert forall x :: 0 <= x < n && x != d ==> last[x] == 0;
    RestsIff(after, homes, last, d);
  }

  lemma RestsIff(queued: map<Id, Item>, home: map<Id, nat>, owed: seq<int>, d: nat)
    requires Labelled(queued, home) && d < |owed| && forall x :: 0 <= x < |owed| && x != d ==> owed[x] == 0
    ensures AtRest(queued, home, map[], owed) <==> owed[d] == 0
  {
  }

  lemma FlushAtRest(queued: map<Id, Item>, home: map<Id, nat>, taken: map<Id, nat>, owed: seq<int>, d: nat)
    requires AtRest(queued, home, taken, owed) && d < |owed|
    ensures AtRest(FlaggedAll(queued, d), home, taken, FlushedOwed(owed, queued, home, taken, d))
  {
    assert Missed(queued, home, d) == {} && Out(taken, d) == {};
    forall e: nat | e != d
      ensures Hit(queued, home, d, e) == {}
    {
    }
  }
}

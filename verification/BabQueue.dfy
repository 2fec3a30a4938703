/** The work items of the BaB driver. An item is a list node that is reused: it is free, waiting
    to be sent, part of a transfer, or with the chip it was sent to. Lists are kept head first. */
module BabQueue {
  import opened Basics
  import opened BabTuner

  type Id = nat

  const ALLOC := 1024

  const MAX_ROLLTIME := 42

  const EXPIRE_MS := 7800

  /** What an item carries: a work item taken from the device's queue (offset 0), or that work
      item rolled `offset` times. */
  datatype Load = Load(work: nat, offset: nat)

  /** A queued work item, and how often it may be rolled. */
  datatype Queued = Queued(work: nat, rollLimit: int)

  /** A transfer: at most one item per chip. */
  type Transfer = seq<Option<Id>>

  // ----- counting items

  ghost function InLists(ls: seq<seq<Id>>): multiset<Id> {
    if ls == [] then multiset{} else InLists(ls[..|ls| - 1]) + multiset(ls[|ls| - 1])
  }

  ghost function InTransfer(t: Transfer): multiset<Id> {
    if t == [] then multiset{} else InTransfer(t[..|t| - 1]) + Single(t[|t| - 1])
  }

  ghost function Single(w: Option<Id>): multiset<Id> {
    match w
    case None => multiset{}
    case Some(i) => multiset{i}
  }

  ghost function InTransfers(ts: seq<Transfer>): multiset<Id> {
    if ts == [] then multiset{} else InTransfers(ts[1..]) + InTransfer(ts[0])
  }

  lemma SumSwap(a: multiset<Id>, b: multiset<Id>, c: multiset<Id>, d: multiset<Id>, rest: multiset<Id>)
    requires a + b == c + d
    ensures (a + rest) + b == (c + rest) + d
  {
    assert (a + rest) + b == (a + b) + rest == (c + d) + rest;
  }

  /** A block of new items. */
  function Block(n: nat, k: nat): seq<Id> {
    if k == 0 then [] else Block(n, k - 1) + [n + k - 1]
  }

  lemma {:induction false} BlockHolds(n: nat, k: nat)
    ensures |Block(n, k)| == k
    ensures forall i :: i in Block(n, k) <==> n <= i < n + k
    ensures forall i :: multiset(Block(n, k))[i] == if n <= i < n + k then 1 else 0
  {
    if k > 0 {
      BlockHolds(n, k - 1);
      var b := Block(n, k - 1);
      assert multiset(b + [n + k - 1]) == multiset(b) + multiset{n + k - 1};
    }
  }

  lemma NewBlock(n: nat, k: nat)
    ensures |Block(n, k)| == k
  {
    BlockHolds(n, k);
  }

  lemma {:induction false} InListsUpdate(ls: seq<seq<Id>>, c: nat, l: seq<Id>)
    requires c < |ls|
    ensures InLists(ls[c := l]) + multiset(ls[c]) == InLists(ls) + multiset(l)
  {
    var last := |ls| - 1;
    if c < last {
      InListsUpdate(ls[..last], c, l);
      assert ls[c := l][..last] == ls[..last][c := l];
      SumSwap(InLists(ls[..last][c := l]), multiset(ls[c]), InLists(ls[..last]), multiset(l), multiset(ls[last]));
    } else {
      assert ls[c := l][..last] == ls[..last];
    }
  }

  lemma {:induction false} InTransfersLast(ts: seq<Transfer>)
    requires ts != []
    ensures InTransfers(ts) == InTransfers(ts[..|ts| - 1]) + InTransfer(ts[|ts| - 1])
  {
    var n := |ts| - 1;
    if n > 0 {
      InTransfersLast(ts[1..]);
      assert ts[1..][..n - 1] == ts[..n][1..];
      assert ts[..n][0] == ts[0];
      hide InTransfer;
      SumSwap(InTransfers(ts[1..]), multiset{}, InTransfers(ts[1..][..n - 1]), InTransfer(ts[n]), InTransfer(ts[0]));
      assert InTransfers(ts[..n]) == InTransfers(ts[..n][1..]) + InTransfer(ts[0]);
    } else {
      assert ts[1..] == [] && ts[..0] == [];
    }
  }

  lemma {:induction false} InListsHolds(ls: seq<seq<Id>>, c: nat, i: Id)
    requires c < |ls|
    ensures InLists(ls)[i] >= multiset(ls[c])[i]
    ensures forall d :: c < d < |ls| ==> InLists(ls)[i] >= multiset(ls[c])[i] + multiset(ls[d])[i]
  {
    var last := |ls| - 1;
    if c < last {
      InListsHolds(ls[..last], c, i);
    }
  }

  // ----- where the items are

  /** Every item made so far is in exactly one place, once. */
  ghost predicate Once(free: multiset<Id>, waiting: multiset<Id>, sent: multiset<Id>, sending: multiset<Id>, n: nat) {
    forall i: Id :: free[i] + waiting[i] + sent[i] + sending[i] == if i < n then 1 else 0
  }

  ghost predicate Partition(wfree: seq<Id>, available: seq<Id>, chipWork: seq<seq<Id>>, spiList: seq<Transfer>,
                            n: nat) {
    Once(multiset(wfree), multiset(available), InLists(chipWork), InTransfers(spiList), n)
  }

  /** The items not free carry different loads, `holder` says which; a load is with an item or
      was released, never both, and no load was released twice. */
  ghost predicate Carried(wfree: seq<Id>, n: nat, data: map<Id, Load>, holder: map<Load, Id>, released: seq<Load>,
                          taken: set<nat>) {
    && (forall i :: 0 <= i < n && i !in wfree ==> i in data && data[i] in holder && holder[data[i]] == i)
    && (forall l :: l in holder ==> holder[l] < n && holder[l] !in wfree && holder[l] in data && data[holder[l]] == l)
    && Distinct(released)
    && (forall l :: l in released ==> l !in holder && l.work in taken)
    && (forall l :: l in holder ==> l.work in taken)
  }

  /** Every load made so far is with an item or was given back. */
  ghost predicate Accounted(made: set<Load>, holder: map<Load, Id>, released: seq<Load>) {
    forall l :: l in made <==> l in holder || l in released
  }

  lemma AccountedMore(made: set<Load>, holder: map<Load, Id>, released: seq<Load>, l: Load, i: Id)
    requires Accounted(made, holder, released)
    ensures Accounted(made + {l}, holder[l := i], released)
  {
  }

  lemma AccountedReleased(made: set<Load>, holder: map<Load, Id>, released: seq<Load>, l: Load)
    requires Accounted(made, holder, released) && l in holder
    ensures Accounted(made, holder - {l}, released + [l])
  {
  }

  function EmptyLists(n: nat): (ls: seq<seq<Id>>)
    ensures |ls| == n
  {
    seq(n, _ => [])
  }

  lemma {:induction false} NoLists(n: nat)
    ensures InLists(EmptyLists(n)) == multiset{}
  {
    if n > 0 {
      NoLists(n - 1);
      assert EmptyLists(n)[..n - 1] == EmptyLists(n - 1);
    }
  }

  lemma AllFree(chips: nat, n: nat)
    ensures Partition(Block(0, n), [], EmptyLists(chips), [], n) && Carried(Block(0, n), n, map[], map[], [], {})
  {
    NoLists(chips);
    BlockHolds(0, n);
  }

  lemma MoreFree(available: seq<Id>, chipWork: seq<seq<Id>>, spiList: seq<Transfer>, n: nat, k: nat,
                 data: map<Id, Load>,
                 holder: map<Load, Id>, released: seq<Load>, taken: set<nat>)
    requires Partition([], available, chipWork, spiList, n) && Carried([], n, data, holder, released, taken)
    ensures Partition(Block(n, k), available, chipWork, spiList, n + k)
    ensures Carried(Block(n, k), n + k, data, holder, released, taken)
  {
    BlockHolds(n, k);
    hide *;
    CarriedGrows(n, k, Block(n, k), data, holder, released, taken);
    MoreParts(available, chipWork, spiList, n, k);
  }

  lemma MoreParts(available: seq<Id>, chipWork: seq<seq<Id>>, spiList: seq<Transfer>, n: nat, k: nat)
    requires Partition([], available, chipWork, spiList, n)
    ensures Partition(Block(n, k), available, chipWork, spiList, n + k)
  {
    BlockHolds(n, k);
  }

  lemma PartitionPlace(wfree: seq<Id>, available: seq<Id>, chipWork: seq<seq<Id>>, spiList: seq<Transfer>, n: nat,
                       i: Id)
    requires Partition(wfree, available, chipWork, spiList, n)
    ensures multiset(wfree)[i] + multiset(available)[i] + InLists(chipWork)[i] + InTransfers(spiList)[i]
            == if i < n then 1 else 0
  {
  }

  lemma HeadFree(wfree: seq<Id>, available: seq<Id>, chipWork: seq<seq<Id>>, spiList: seq<Transfer>, n: nat)
    requires wfree != [] && Partition(wfree, available, chipWork, spiList, n)
    ensures wfree[0] < n && wfree[0] !in wfree[1..] && wfree[0] !in available
  {
    PartitionPlace(wfree, available, chipWork, spiList, n, wfree[0]);
    assert wfree == [wfree[0]] + wfree[1..];
    assert multiset(wfree) == multiset{wfree[0]} + multiset(wfree[1..]);
  }

  lemma MoveFree(wfree: seq<Id>, available: seq<Id>, chipWork: seq<seq<Id>>, spiList: seq<Transfer>, n: nat)
    requires wfree != [] && Partition(wfree, available, chipWork, spiList, n)
    ensures Partition(wfree[1..], [wfree[0]] + available, chipWork, spiList, n)
  {
    assert wfree == [wfree[0]] + wfree[1..];
    assert multiset(wfree) == multiset{wfree[0]} + multiset(wfree[1..]);
  }

  lemma CarriedGrows(n: nat, k: nat, wfree: seq<Id>, data: map<Id, Load>, holder: map<Load, Id>,
                     released: seq<Load>, taken: set<nat>)
    requires Carried([], n, data, holder, released, taken)
    requires forall i :: i in wfree <==> n <= i < n + k
    ensures Carried(wfree, n + k, data, holder, released, taken)
  {
  }

  lemma CarriedLoad(wfree: seq<Id>, n: nat, data: map<Id, Load>, holder: map<Load, Id>, released: seq<Load>,
                    taken: set<nat>, l: Load)
    requires Carried(wfree, n, data, holder, released, taken)
    requires wfree != [] && wfree[0] < n && wfree[0] !in wfree[1..] && l !in holder && l !in released
    ensures Carried(wfree[1..], n, data[wfree[0] := l], holder[l := wfree[0]], released, taken + {l.work})
  {
    assert wfree == [wfree[0]] + wfree[1..];
  }

  lemma LoadHead(wfree: seq<Id>, available: seq<Id>, chipWork: seq<seq<Id>>, spiList: seq<Transfer>, n: nat,
                 data: map<Id, Load>, holder: map<Load, Id>, released: seq<Load>, taken: set<nat>, l: Load)
    requires Partition(wfree, available, chipWork, spiList, n) && Carried(wfree, n, data, holder, released, taken)
    requires wfree != [] && l !in holder && l !in released
    ensures wfree[0] < n && wfree[0] !in available
    ensures Partition(wfree[1..], [wfree[0]] + available, chipWork, spiList, n)
    ensures Carried(wfree[1..], n, data[wfree[0] := l], holder[l := wfree[0]], released, taken + {l.work})
  {
    hide *;
    HeadFree(wfree, available, chipWork, spiList, n);
    CarriedLoad(wfree, n, data, holder, released, taken, l);
    MoveFree(wfree, available, chipWork, spiList, n);
  }

  lemma NotTaken(wfree: seq<Id>, n: nat, data: map<Id, Load>, holder: map<Load, Id>, released: seq<Load>,
                 taken: set<nat>, w: nat)
    requires Carried(wfree, n, data, holder, released, taken) && w !in taken
    ensures Untouched(holder, released, w, 0)
  {
    forall k: nat
      ensures Load(w, k) !in holder && Load(w, k) !in released
    {
      assert Load(w, k).work == w;
    }
  }

  // ----- rolling

  /** Work `w` was not rolled `k` times or more yet. */
  ghost predicate Untouched(holder: map<Load, Id>, released: seq<Load>, w: nat, from: nat) {
    forall k: nat :: k >= from ==> Load(w, k) !in holder && Load(w, k) !in released
  }

  /** The items carry work `w`, rolled once more each from the last to the first. */
  ghost predicate Rolls(items: seq<Id>, data: map<Id, Load>, w: nat) {
    forall k :: 0 <= k < |items| ==> items[k] in data && data[items[k]] == Load(w, |items| - 1 - k)
  }

  /** The items carry what they did. */
  ghost predicate SameLoads(items: seq<Id>, before: map<Id, Load>, after: map<Id, Load>) {
    forall k :: 0 <= k < |items| && items[k] in before ==> items[k] in after && after[items[k]] == before[items[k]]
  }

  lemma SameLoadsAre(items: seq<Id>, before: map<Id, Load>, after: map<Id, Load>)
    requires SameLoads(items, before, after)
    ensures forall i :: i in items && i in before ==> i in after && after[i] == before[i]
  {
  }

  lemma UntouchedAt(holder: map<Load, Id>, released: seq<Load>, w: nat, roll: nat)
    requires Untouched(holder, released, w, roll)
    ensures Load(w, roll) !in holder && Load(w, roll) !in released
  {
  }

  lemma NoRolls(older: seq<Id>, data: map<Id, Load>, w: nat)
    ensures Rolls([], data, w) && SameLoads(older, data, data)
  {
  }

  lemma OneMoreRoll(items: seq<Id>, older: seq<Id>, before: map<Id, Load>, data: map<Id, Load>, holder: map<Load, Id>,
                    released: seq<Load>, w: nat, item: Id)
    requires Rolls(items, data, w) && SameLoads(older, before, data) && Untouched(holder, released, w, |items|)
    requires item !in items + older
    ensures Rolls([item] + items, data[item := Load(w, |items|)], w)
    ensures SameLoads(older, before, data[item := Load(w, |items|)])
    ensures Untouched(holder[Load(w, |items|) := item], released, w, |items| + 1)
  {
    assert forall k :: 0 <= k < |items| ==> items[k] in items + older;
    assert forall k :: 0 <= k < |older| ==> older[k] in items + older;
  }

  lemma CarriedRelease(wfree: seq<Id>, n: nat, data: map<Id, Load>, holder: map<Load, Id>, released: seq<Load>,
                       taken: set<nat>, i: Id)
    requires Carried(wfree, n, data, holder, released, taken) && i < n && i !in wfree
    ensures i in data && data[i] in holder
    ensures Carried([i] + wfree, n, data, holder - {data[i]}, released + [data[i]], taken)
  {
  }

  // ----- collecting a transfer

  /** Chips in use among the first c. */
  function Enabled(disabled: seq<bool>, c: nat): nat
    requires c <= |disabled|
  {
    if c == 0 then 0 else Enabled(disabled, c - 1) + if disabled[c - 1] then 0 else 1
  }

  lemma {:induction false} EnabledComplement(disabled: seq<bool>, c: nat)
    requires c <= |disabled|
    ensures Enabled(disabled, c) + CountTrue(disabled[..c]) == c
  {
    if c > 0 {
      EnabledComplement(disabled, c - 1);
      assert disabled[..c][..c - 1] == disabled[..c - 1];
    }
  }

  lemma {:induction false} EnabledIs(disabled: seq<bool>, c: nat)
    requires c <= |disabled|
    ensures Enabled(disabled, c) == |set d | 0 <= d < c && !disabled[d]|
  {
    if c > 0 {
      EnabledIs(disabled, c - 1);
      var before := set d | 0 <= d < c - 1 && !disabled[d];
      assert (set d | 0 <= d < c && !disabled[d]) == before + if disabled[c - 1] then {} else {c - 1};
    }
  }

  lemma {:induction false} EnabledGrows(disabled: seq<bool>, c: nat, d: nat)
    requires c <= d <= |disabled|
    ensures Enabled(disabled, c) <= Enabled(disabled, d)
  {
    if c < d {
      EnabledGrows(disabled, c, d - 1);
    }
  }

  /** The first c chips in use got the oldest items of `av`, oldest first. */
  ghost predicate Filled(t: Transfer, av: seq<Id>, disabled: seq<bool>, c: nat)
    requires c <= |disabled|
  {
    && |t| == |disabled|
    && Enabled(disabled, c) <= |av|
    && (forall j :: 0 <= j < c ==> t[j] == Share(av, disabled, j))
    && (forall j :: c <= j < |t| ==> t[j] == None)
  }

  function Share(av: seq<Id>, disabled: seq<bool>, j: nat): Option<Id>
    requires j < |disabled|
  {
    if disabled[j] then None else Oldest(av, Enabled(disabled, j))
  }

  lemma ShareIs(av: seq<Id>, disabled: seq<bool>, j: nat)
    requires j < |disabled|
    ensures disabled[j] ==> Share(av, disabled, j) == None && Enabled(disabled, j + 1) == Enabled(disabled, j)
    ensures !disabled[j] ==> Enabled(disabled, j + 1) == Enabled(disabled, j) + 1
    ensures !disabled[j] && Enabled(disabled, j) < |av| ==>
              Share(av, disabled, j) == Some(av[|av| - 1 - Enabled(disabled, j)])
  {
  }

  function Oldest(av: seq<Id>, k: nat): Option<Id> {
    if k < |av| then Some(av[|av| - 1 - k]) else None
  }

  lemma FilledAt(t: Transfer, av: seq<Id>, disabled: seq<bool>, c: nat, k: nat)
    requires 0 < k <= c <= |disabled| && Filled(t, av, disabled, c)
    ensures |t| == |disabled| && Enabled(disabled, k) <= |av|
    ensures disabled[k - 1] ==> t[k - 1] == None && Enabled(disabled, k) == Enabled(disabled, k - 1)
    ensures !disabled[k - 1] ==>
              Enabled(disabled, k) == Enabled(disabled, k - 1) + 1 && t[k - 1] == Oldest(av, Enabled(disabled, k - 1))
  {
    EnabledGrows(disabled, k, c);
    ShareIs(av, disabled, k - 1);
  }

  lemma {:induction false} FilledItems(t: Transfer, av: seq<Id>, disabled: seq<bool>, c: nat, k: nat)
    requires k <= c <= |disabled| && Filled(t, av, disabled, c)
    ensures c <= |t| && Enabled(disabled, k) <= |av|
    ensures InTransfer(t[..k]) == multiset(av[|av| - Enabled(disabled, k)..])
  {
    hide *;
    if k == 0 {
      NoneYet(t, av, disabled, c);
    } else {
      FilledAt(t, av, disabled, c, k);
      FilledItems(t, av, disabled, c, k - 1);
      OneMore(t, av, k, Enabled(disabled, k - 1));
    }
  }

  lemma NoneYet(t: Transfer, av: seq<Id>, disabled: seq<bool>, c: nat)
    requires c <= |disabled| && Filled(t, av, disabled, c)
    ensures c <= |t| && Enabled(disabled, 0) == 0 && InTransfer(t[..0]) == multiset(av[|av|..])
  {
    assert t[..0] == [] && av[|av|..] == [];
  }

  lemma OneMore(t: Transfer, av: seq<Id>, k: nat, m: nat)
    requires 0 < k <= |t| && m <= |av| && InTransfer(t[..k - 1]) == multiset(av[|av| - m..])
    ensures t[k - 1].None? ==> InTransfer(t[..k]) == multiset(av[|av| - m..])
    ensures m < |av| && t[k - 1] == Oldest(av, m) ==> InTransfer(t[..k]) == multiset(av[|av| - (m + 1)..])
  {
    assert t[..k][..k - 1] == t[..k - 1];
    assert InTransfer(t[..k]) == InTransfer(t[..k - 1]) + Single(t[k - 1]);
    hide InTransfer;
    if m < |av| && t[k - 1] == Oldest(av, m) {
      assert av[|av| - (m + 1)..] == [av[|av| - 1 - m]] + av[|av| - m..];
      assert multiset([av[|av| - 1 - m]] + av[|av| - m..]) == multiset{av[|av| - 1 - m]} + multiset(av[|av| - m..]);
    }
  }

  lemma StartFill(t: Transfer, av: seq<Id>, disabled: seq<bool>)
    requires |t| == |disabled| && forall j :: 0 <= j < |t| ==> t[j] == None
    ensures Filled(t, av, disabled, 0) && Enabled(disabled, 0) == 0
  {
  }

  lemma EnabledTotal(disabled: seq<bool>)
    ensures Enabled(disabled, |disabled|) == |disabled| - CountTrue(disabled)
  {
    EnabledComplement(disabled, |disabled|);
    assert disabled[..|disabled|] == disabled;
  }

  /** In a whole transfer each chip in use has the oldest item not given to a chip before it. */
  lemma FilledShares(t: Transfer, av: seq<Id>, disabled: seq<bool>, c: nat)
    requires Filled(t, av, disabled, |disabled|) && c < |disabled|
    ensures |t| == |disabled| && (disabled[c] ==> t[c] == None)
    ensures !disabled[c] ==>
              var k := |set d | 0 <= d < c && !disabled[d]|;
              k < |av| && t[c] == Some(av[|av| - 1 - k])
  {
    hide Enabled, Share;
    EnabledIs(disabled, c);
    FilledAt(t, av, disabled, |disabled|, c + 1);
  }

  lemma SkipStep(t: Transfer, av: seq<Id>, disabled: seq<bool>, c: nat)
    requires c < |disabled| && Filled(t, av, disabled, c) && disabled[c]
    ensures Filled(t, av, disabled, c + 1) && Enabled(disabled, c + 1) == Enabled(disabled, c)
  {
    hide Enabled, Share;
    ShareIs(av, disabled, c);
  }

  lemma FillStep(t: Transfer, av: seq<Id>, disabled: seq<bool>, c: nat)
    requires c < |disabled| && Filled(t, av, disabled, c) && !disabled[c] && Enabled(disabled, c) < |av|
    ensures |t| == |disabled| && Enabled(disabled, c + 1) == Enabled(disabled, c) + 1
    ensures Filled(t[c := Some(av[|av| - 1 - Enabled(disabled, c)])], av, disabled, c + 1)
  {
    hide Enabled, Share;
    ShareIs(av, disabled, c);
  }

  lemma TooFew(disabled: seq<bool>, c: nat)
    requires c < |disabled| && !disabled[c]
    ensures Enabled(disabled, c) < Enabled(disabled, |disabled|)
  {
    EnabledGrows(disabled, c + 1, |disabled|);
  }

  /** Moving what was collected from the waiting items to a new transfer. */
  lemma Collected(wfree: seq<Id>, av: seq<Id>, chipWork: seq<seq<Id>>, spiList: seq<Transfer>, n: nat,
                  disabled: seq<bool>, t: Transfer)
    requires Partition(wfree, av, chipWork, spiList, n) && Filled(t, av, disabled, |disabled|)
    ensures Partition(wfree, av[..|av| - Enabled(disabled, |disabled|)], chipWork, [t] + spiList, n)
  {
    hide Enabled, Filled, InTransfer, InLists;
    CollectedItems(av, disabled, t);
    assert ([t] + spiList)[1..] == spiList;
  }

  lemma CollectedItems(av: seq<Id>, disabled: seq<bool>, t: Transfer)
    requires Filled(t, av, disabled, |disabled|)
    ensures multiset(av) == multiset(av[..|av| - Enabled(disabled, |disabled|)]) + InTransfer(t)
  {
    var m := |av| - Enabled(disabled, |disabled|);
    assert av == av[..m] + av[m..] && t[..|disabled|] == t;
    hide *;
    FilledItems(t, av, disabled, |disabled|, |disabled|);
    assert multiset(av) == multiset(av[..m]) + multiset(av[m..]);
  }

  // ----- sending a transfer

  function Put(w: Option<Id>, l: seq<Id>): seq<Id> {
    match w
    case None => l
    case Some(i) => [i] + l
  }

  lemma {:induction false} SentLists(ls: seq<seq<Id>>, ls': seq<seq<Id>>, t: Transfer)
    requires |ls| == |ls'| == |t| && forall c :: 0 <= c < |t| ==> ls'[c] == Put(t[c], ls[c])
    ensures InLists(ls') == InLists(ls) + InTransfer(t)
  {
    if t != [] {
      var last := |t| - 1;
      SentLists(ls[..last], ls'[..last], t[..last]);
      SumPairs(InLists(ls[..last]), InTransfer(t[..last]), multiset(ls[last]), Single(t[last]));
    }
  }

  lemma SumPairs(a: multiset<Id>, b: multiset<Id>, c: multiset<Id>, d: multiset<Id>)
    ensures (a + b) + (d + c) == (a + c) + (b + d)
  {
  }

  lemma {:induction false} InTransferHolds(t: Transfer, c: nat, i: Id)
    requires c < |t| && t[c] == Some(i)
    ensures InTransfer(t)[i] >= 1
  {
    if c < |t| - 1 {
      InTransferHolds(t[..|t| - 1], c, i);
    }
  }

  /** The items of the oldest transfer join the chips' lists. */
  lemma Transferred(wfree: seq<Id>, available: seq<Id>, ls: seq<seq<Id>>, ls': seq<seq<Id>>, ts: seq<Transfer>, n: nat)
    requires ts != [] && Partition(wfree, available, ls, ts, n)
    requires |ls| == |ls'| == |ts[|ts| - 1]|
    requires forall c :: 0 <= c < |ls| ==> ls'[c] == Put(ts[|ts| - 1][c], ls[c])
    ensures Partition(wfree, available, ls', ts[..|ts| - 1], n)
  {
    SentLists(ls, ls', ts[|ts| - 1]);
    InTransfersLast(ts);
  }

  lemma TransferItem(wfree: seq<Id>, available: seq<Id>, ls: seq<seq<Id>>, ts: seq<Transfer>, n: nat, c: nat)
    requires ts != [] && Partition(wfree, available, ls, ts, n)
    requires c < |ts[|ts| - 1]|
    ensures ts[|ts| - 1][c].Some? ==> ts[|ts| - 1][c].value < n
  {
    var t := ts[|ts| - 1];
    if t[c].Some? {
      InTransfersLast(ts);
      InTransferHolds(t, c, t[c].value);
      PartitionPlace(wfree, available, ls, ts, n, t[c].value);
    }
  }

  /** The last item of a chip's list is not free, and can become free. */
  lemma Unloaded(wfree: seq<Id>, available: seq<Id>, ls: seq<seq<Id>>, ts: seq<Transfer>, n: nat, c: nat)
    requires Partition(wfree, available, ls, ts, n) && c < |ls| && ls[c] != []
    ensures var l := ls[c];
            var tail := l[|l| - 1];
            && tail < n && tail !in wfree
            && Partition([tail] + wfree, available, ls[c := l[..|l| - 1]], ts, n)
  {
    var l := ls[c];
    var tail := l[|l| - 1];
    InListsHolds(ls, c, tail);
    InListsUpdate(ls, c, l[..|l| - 1]);
    PartitionPlace(wfree, available, ls, ts, n, tail);
    LastOut(l);
    hide InLists, InTransfers;
    assert multiset([tail] + wfree) == multiset{tail} + multiset(wfree);
    forall i: Id
      ensures multiset([tail] + wfree)[i] + InLists(ls[c := l[..|l| - 1]])[i] == multiset(wfree)[i] + InLists(ls)[i]
    {
      assert (InLists(ls[c := l[..|l| - 1]]) + multiset(l))[i] == (InLists(ls) + multiset(l[..|l| - 1]))[i];
    }
  }

  lemma LastOut(l: seq<Id>)
    requires l != []
    ensures multiset(l) == multiset(l[..|l| - 1]) + multiset{l[|l| - 1]} && l[|l| - 1] in multiset(l)
  {
    assert l == l[..|l| - 1] + [l[|l| - 1]];
  }

  // ----- old items

  predicate Expired(i: Id, start: seq<int>, now: int) {
    i < |start| && now - start[i] >= EXPIRE_MS
  }

  /** How many items stay when expired ones are dropped from the tail. */
  function Fresh(l: seq<Id>, start: seq<int>, now: int): (k: nat)
    ensures k <= |l|
  {
    if l == [] then 0
    else if !Expired(l[|l| - 1], start, now) then |l|
    else Fresh(l[..|l| - 1], start, now)
  }

  function Position(l: seq<Id>, i: Id): (p: nat)
    requires i in l
    ensures p < |l| && l[p] == i && i !in l[p + 1..]
  {
    if l[|l| - 1] == i then |l| - 1
    else
      assert l == l[..|l| - 1] + [l[|l| - 1]];
      Position(l[..|l| - 1], i)
  }

  /** How many items stay: the ones not expired, and nothing older than the one that gave the
      newest result. */
  function Kept(l: seq<Id>, start: seq<int>, now: int, found: Option<Id>): (k: nat)
    ensures k <= |l|
  {
    var n := Fresh(l, start, now);
    if found.Some? && found.value in l[..n] then Position(l[..n], found.value) + 1 else n
  }

  /** When items were sent in the order of the list, exactly the items that are not expired and
      not older than the one found stay. */
  lemma {:induction false} KeptAreRecent(l: seq<Id>, start: seq<int>, now: int, found: Option<Id>, k: nat)
    requires k < |l| && forall a :: 0 <= a < |l| ==> l[a] < |start|
    requires forall a, b :: 0 <= a <= b < |l| ==> start[l[a]] >= start[l[b]]
    requires Distinct(l)
    ensures k < Kept(l, start, now, found) <==>
              && now - start[l[k]] < EXPIRE_MS
              && (found.Some? ==>
                    forall p :: 0 <= p < |l| && l[p] == found.value && now - start[l[p]] < EXPIRE_MS ==> k <= p)
  {
    FreshExact(l, start, now);
    var n := Fresh(l, start, now);
    if found.Some? && found.value in l {
      var p := Position(l, found.value);
      assert found.value in l[..n] <==> p < n;
    }
  }

  lemma {:induction false} FreshExact(l: seq<Id>, start: seq<int>, now: int)
    requires forall a :: 0 <= a < |l| ==> l[a] < |start|
    requires forall a, b :: 0 <= a <= b < |l| ==> start[l[a]] >= start[l[b]]
    ensures forall k :: 0 <= k < |l| ==> (k < Fresh(l, start, now) <==> !Expired(l[k], start, now))
  {
    if l != [] && Expired(l[|l| - 1], start, now) {
      FreshExact(l[..|l| - 1], start, now);
    }
  }

  /** The log grew by what the items carried, the last of them first. */
  ghost predicate Gave(log: seq<Load>, log': seq<Load>, gone: seq<Id>, data: map<Id, Load>) {
    && |log'| == |log| + |gone| && log'[..|log|] == log
    && (forall k :: 0 <= k < |gone| ==> gone[k] in data && log'[|log'| - 1 - k] == data[gone[k]])
  }

  /** Chip `c` kept the first `m` items of its list; the others are at the head of the free
      list and their loads were given back, oldest first. */
  ghost predicate Dropped(ls: seq<seq<Id>>, ls': seq<seq<Id>>, c: nat, m: nat, free: seq<Id>, free': seq<Id>,
                          log: seq<Load>, log': seq<Load>, data: map<Id, Load>) {
    && c < |ls| && m <= |ls[c]| && ls' == ls[c := ls[c][..m]]
    && free' == ls[c][m..] + free && Gave(log, log', ls[c][m..], data)
  }

  lemma StartDrop(ls: seq<seq<Id>>, c: nat, free: seq<Id>, log: seq<Load>, data: map<Id, Load>)
    requires c < |ls|
    ensures Dropped(ls, ls, c, |ls[c]|, free, free, log, log, data)
  {
    var l := ls[c];
    assert l[..|l|] == l && l[|l|..] == [] && [] + free == free;
    assert ls == ls[c := l];
  }

  lemma DropStep(ls: seq<seq<Id>>, ls': seq<seq<Id>>, c: nat, m: nat, free: seq<Id>, free': seq<Id>, log: seq<Load>,
                 log': seq<Load>, data: map<Id, Load>, tail: Id)
    requires Dropped(ls, ls', c, m, free, free', log, log', data) && m > 0
    requires ls'[c] != [] && ls'[c][|ls'[c]| - 1] == tail && tail in data
    ensures Dropped(ls, ls'[c := ls'[c][..|ls'[c]| - 1]], c, m - 1, free, [tail] + free',
                    log, log' + [data[tail]], data)
  {
    var l := ls[c];
    assert l[m - 1..] == [tail] + l[m..];
    assert l[..m][..m - 1] == l[..m - 1];
  }

  lemma DroppedList(ls: seq<seq<Id>>, ls': seq<seq<Id>>, c: nat, m: nat, free: seq<Id>, free': seq<Id>, log: seq<Load>,
                    log': seq<Load>, data: map<Id, Load>)
    requires Dropped(ls, ls', c, m, free, free', log, log', data)
    ensures c < |ls| == |ls'| && m <= |ls[c]| && ls'[c] == ls[c][..m]
  {
  }

  lemma DroppedIs(ls: seq<seq<Id>>, ls': seq<seq<Id>>, c: nat, m: nat, free: seq<Id>, free': seq<Id>, log: seq<Load>,
                  log': seq<Load>, data: map<Id, Load>)
    requires Dropped(ls, ls', c, m, free, free', log, log', data)
    ensures c < |ls| && m <= |ls[c]| && ls' == ls[c := ls[c][..m]] && free' == ls[c][m..] + free
    ensures |log'| == |log| + (|ls[c]| - m) && log'[..|log|] == log
    ensures forall i :: m <= i < |ls[c]| ==> ls[c][i] in data && log'[|log'| - 1 - (i - m)] == data[ls[c][i]]
  {
    var gone := ls[c][m..];
    assert forall i :: m <= i < |ls[c]| ==> ls[c][i] == gone[i - m];
  }

  lemma NotLast(l: seq<Id>, i: Id)
    requires i in l && l[|l| - 1] != i
    ensures i in l[..|l| - 1] && Position(l[..|l| - 1], i) == Position(l, i)
  {
    assert l == l[..|l| - 1] + [l[|l| - 1]];
  }

  lemma WithoutLast(l: seq<Id>)
    requires l != [] && Distinct(l)
    ensures forall i :: i in l[..|l| - 1] <==> i in l && i != l[|l| - 1]
  {
    var rest := l[..|l| - 1];
    assert l == rest + [l[|l| - 1]];
    assert forall k :: 0 <= k < |rest| ==> rest[k] == l[k] != l[|l| - 1];
  }

  lemma PositionLast(l: seq<Id>, i: Id)
    requires l != [] && l[|l| - 1] == i
    ensures Position(l, i) == |l| - 1
  {
  }

  lemma FreshStep(l: seq<Id>, m: nat, start: seq<int>, now: int)
    requires 0 < m <= |l| && Expired(l[m - 1], start, now) && Fresh(l[..m], start, now) == Fresh(l, start, now)
    ensures Fresh(l[..m - 1], start, now) == Fresh(l, start, now)
  {
    assert l[..m][..m - 1] == l[..m - 1];
  }

  lemma FreshDone(l: seq<Id>, start: seq<int>, now: int)
    requires l == [] || !Expired(l[|l| - 1], start, now)
    ensures Fresh(l, start, now) == |l|
  {
  }

  lemma ListOnce(wfree: seq<Id>, available: seq<Id>, ls: seq<seq<Id>>, ts: seq<Transfer>, n: nat, c: nat)
    requires Partition(wfree, available, ls, ts, n) && c < |ls|
    ensures Distinct(ls[c])
  {
    var l := ls[c];
    forall i, j | 0 <= i < j < |l|
      ensures l[i] != l[j]
    {
      PartitionPlace(wfree, available, ls, ts, n, l[j]);
      InListsHolds(ls, c, l[j]);
      assert l == l[..j] + l[j..];
      assert multiset(l) == multiset(l[..j]) + multiset(l[j..]);
      assert l[i] == l[..j][i] && l[j] == l[j..][0];
    }
  }

  lemma {:induction false} InTransfersHolds(ts: seq<Transfer>, t: nat, c: nat, i: Id)
    requires t < |ts| && c < |ts[t]| && ts[t][c] == Some(i)
    ensures InTransfers(ts)[i] >= 1
  {
    if t == 0 {
      InTransferHolds(ts[0], c, i);
    } else {
      InTransfersHolds(ts[1..], t - 1, c, i);
    }
  }

  lemma ChipItemOnly(wfree: seq<Id>, available: seq<Id>, ls: seq<seq<Id>>, ts: seq<Transfer>, n: nat, c: nat, k: nat)
    requires Partition(wfree, available, ls, ts, n) && c < |ls| && k < |ls[c]|
    ensures var i := ls[c][k];
            && i < n && i !in wfree && i !in available
            && (forall t, d :: 0 <= t < |ts| && 0 <= d < |ts[t]| ==> ts[t][d] != Some(i))
            && (forall d, j :: 0 <= d < |ls| && 0 <= j < |ls[d]| && ls[d][j] == i ==> d == c && j == k)
  {
    var i := ls[c][k];
    PartitionPlace(wfree, available, ls, ts, n, i);
    InListsHolds(ls, c, i);
    assert i in multiset(ls[c]);
    forall t, d | 0 <= t < |ts| && 0 <= d < |ts[t]|
      ensures ts[t][d] != Some(i)
    {
      if ts[t][d] == Some(i) {
        InTransfersHolds(ts, t, d, i);
      }
    }
    forall d, j | 0 <= d < |ls| && 0 <= j < |ls[d]| && ls[d][j] == i
      ensures d == c && j == k
    {
      InListsHolds(ls, d, i);
      assert i in multiset(ls[d]);
      ListOnce(wfree, available, ls, ts, n, c);
    }
  }

  lemma {:induction false} InListsFound(ls: seq<seq<Id>>, i: Id)
    requires InLists(ls)[i] > 0
    ensures exists c, k :: 0 <= c < |ls| && 0 <= k < |ls[c]| && ls[c][k] == i
  {
    var last := |ls| - 1;
    if multiset(ls[last])[i] > 0 {
      assert i in ls[last];
      var k :| 0 <= k < |ls[last]| && ls[last][k] == i;
    } else {
      InListsFound(ls[..last], i);
      var c, k :| 0 <= c < last && 0 <= k < |ls[..last][c]| && ls[..last][c][k] == i;
      assert ls[c][k] == i;
    }
  }

  lemma {:induction false} InTransferFound(t: Transfer, i: Id)
    requires InTransfer(t)[i] > 0
    ensures exists c :: 0 <= c < |t| && t[c] == Some(i)
  {
    var last := |t| - 1;
    if t[last] != Some(i) {
      InTransferFound(t[..last], i);
    }
  }

  lemma {:induction false} InTransfersFound(ts: seq<Transfer>, i: Id)
    requires InTransfers(ts)[i] > 0
    ensures exists k, c :: 0 <= k < |ts| && 0 <= c < |ts[k]| && ts[k][c] == Some(i)
  {
    if InTransfer(ts[0])[i] > 0 {
      InTransferFound(ts[0], i);
    } else {
      InTransfersFound(ts[1..], i);
      var k, c :| 0 <= k < |ts| - 1 && 0 <= c < |ts[1..][k]| && ts[1..][k][c] == Some(i);
      assert ts[k + 1][c] == Some(i);
    }
  }

  class Driver {
    var disabled: seq<bool>
    var totalDisabled: nat
    var wfree: seq<Id>
    var total: nat
    var available: seq<Id>
    var chipWork: seq<seq<Id>>
    /** Transfers waiting to be sent. */
    var spiList: seq<Transfer>
    var data: map<Id, Load>
    var start: seq<int>

    /** Loads given back, in order: a rolled one is freed, the others are completed. */
    ghost var released: seq<Load>
    /** The item that carries a load. */
    ghost var holder: map<Load, Id>
    /** Work taken from the device's queue so far. */
    ghost var taken: set<nat>
    /** All loads so far. */
    ghost var made: set<Load>

    ghost predicate Shape()
      reads this
    {
      && |chipWork| == |disabled| && totalDisabled == CountTrue(disabled) <= |disabled|
      && (forall k :: 0 <= k < |spiList| ==> |spiList[k]| == |disabled|)
      && |start| == total
    }

    ghost predicate Valid()
      reads this
    {
      && Shape()
      && Partition(wfree, available, chipWork, spiList, total)
      && Carried(wfree, total, data, holder, released, taken)
      && Accounted(made, holder, released)
    }

    constructor (chips: nat)
      ensures Valid() && |disabled| == chips && totalDisabled == 0 && available == [] && spiList == []
      ensures released == [] && taken == {} && made == {} && total == ALLOC
    {
      hide Block, Partition, Carried, CountTrue, EmptyLists;
      var n := ALLOC;
      disabled := seq(chips, _ => false);
      totalDisabled := 0;
      available, spiList := [], [];
      chipWork := EmptyLists(chips);
      total := n;
      wfree := Block(0, n);
      data := map[];
      start := seq(n, _ => 0);
      released, holder, taken, made := [], map[], {}, {};
      new;
      CountTrueNone(disabled);
      AllFree(chips, n);
    }

    /** Adds items to the free list when it is empty. */
    method Replenish()
      requires Valid()
      modifies this`wfree, this`total, this`start
      ensures Valid() && wfree != [] && total >= old(total)
      ensures |start| >= old(|start|) && start[..old(total)] == old(start)
      ensures old(wfree) != [] ==> total == old(total) && wfree == old(wfree)
      ensures old(wfree) == [] ==> total == old(total) + ALLOC && wfree == Block(old(total), ALLOC)
    {
      hide Block, Partition, Carried, CountTrue, Once, InLists, InTransfers, InTransfer, Distinct;
      if wfree == [] {
        ghost var n := total;
        NewBlock(n, ALLOC);
        MoreFree(available, chipWork, spiList, n, ALLOC, data, holder, released, taken);
        wfree := Block(total, ALLOC);
        total := total + ALLOC;
        start := start + seq(ALLOC, _ => 0);
      }
    }

    /** Takes the head of the free list, clears it and loads it with work, and adds it to the
        head of the waiting items. */
    method AddWork(l: Load) returns (item: Id)
      requires Valid() && l !in holder && l !in released
      modifies this`wfree, this`total, this`start, this`available, this`data, this`holder, this`taken, this`made
      ensures Valid() && available == [item] + old(available) && item !in old(available)
      ensures data == old(data)[item := l] && holder == old(holder)[l := item] && taken == old(taken) + {l.work}
      ensures made == old(made) + {l}
      ensures total == old(total) + if old(wfree) == [] then ALLOC else 0
      ensures old(wfree) != [] ==> [item] + wfree == old(wfree)
      ensures item < |start| && start[item] == 0 && |start| == total && |start| >= old(|start|)
      ensures forall i :: 0 <= i < old(|start|) && i != item ==> start[i] == old(start)[i]
    {
      hide *;
      Replenish();
      Parts();
      item := UseFree(l);
    }

    /** The same when the free list is not empty. */
    method UseFree(l: Load) returns (item: Id)
      requires Valid() && wfree != [] && l !in holder && l !in released
      modifies this`wfree, this`start, this`available, this`data, this`holder, this`taken, this`made
      ensures Valid() && [item] + wfree == old(wfree) && |start| == old(|start|) && item < |start|
      ensures available == [item] + old(available) && item !in old(available)
      ensures data == old(data)[item := l] && holder == old(holder)[l := item] && taken == old(taken) + {l.work}
      ensures made == old(made) + {l} && start == old(start)[item := 0]
    {
      hide *;
      Parts();
      item := wfree[0];
      LoadHead(wfree, available, chipWork, spiList, total, data, holder, released, taken, l);
      AccountedMore(made, holder, released, l, item);
      wfree, start, available := wfree[1..], start[item := 0], [item] + available;
      data, holder, taken := data[item := l], holder[l := item], taken + {l.work};
      made := made + {l};
      Parts();
    }

    lemma Parts()
      ensures Valid() <==> && Shape() && Partition(wfree, available, chipWork, spiList, total)
                           && Carried(wfree, total, data, holder, released, taken)
                           && Accounted(made, holder, released)
      ensures Shape() <==> && |chipWork| == |disabled| && totalDisabled == CountTrue(disabled) <= |disabled|
                           && (forall k :: 0 <= k < |spiList| ==> |spiList[k]| == |disabled|) && |start| == total
    {
    }

    /** Chips in use. */
    function Live(): (n: int)
      requires totalDisabled <= |disabled|
      reads this`disabled, this`totalDisabled
      ensures n >= 0
    {
      |disabled| - totalDisabled
    }

    lemma LiveIs()
      requires Valid()
      ensures Live() == |set d | 0 <= d < |disabled| && !disabled[d]|
    {
      hide Partition, Carried;
      EnabledTotal(disabled);
      EnabledIs(disabled, |disabled|);
    }

    /** Fills up the waiting items from one work item of the device's queue, rolled as often as
        it is allowed to be. */
    method QueueFull(queued: Option<Queued>) returns (full: bool)
      requires Valid()
      requires queued.Some? ==> queued.value.work !in taken
      modifies this`wfree, this`total, this`start, this`available, this`data, this`holder, this`taken, this`made
      ensures Valid()
      ensures full <==> |available| >= Live()
      ensures old(|available|) >= Live() || queued.None? ==>
                available == old(available) && taken == old(taken) && made == old(made)
      ensures old(|available|) < Live() && queued.Some? ==>
                var rolls := Max(0, Min(MAX_ROLLTIME, queued.value.rollLimit));
                var made := Min(Live() - old(|available|), rolls + 1);
                && |available| == old(|available|) + made && available[made..] == old(available)
                && (forall k :: 0 <= k < made ==>
                      available[k] in data && data[available[k]] == Load(queued.value.work, made - 1 - k))
                && taken == old(taken) + {queued.value.work}
                && forall l :: l in this.made <==>
                     l in old(this.made) || (l.work == queued.value.work && l.offset < made)
      ensures forall i :: i in old(available) && i in old(data) ==> i in data && data[i] == old(data)[i]
      ensures |start| >= old(|start|)
      ensures forall i :: 0 <= i < old(|start|) && i !in available ==> start[i] == old(start)[i]
    {
      hide Partition, Carried, CountTrue, SameLoads;
      if |available| >= Live() {
        return true;
      }
      if queued.None? {
        return false;
      }
      ghost var older, before := available, data;
      full := RollOut(queued.value.work, Min(MAX_ROLLTIME, queued.value.rollLimit));
      SameLoadsAre(older, before, data);
    }

    method RollOut(w: nat, rollLimit: int) returns (full: bool)
      requires totalDisabled <= |disabled| && Valid()
      requires w !in taken && |available| < Live()
      modifies this`wfree, this`total, this`start, this`available, this`data, this`holder, this`taken, this`made
      ensures Valid()
      ensures var made := Min(Live() - old(|available|), Max(0, rollLimit) + 1);
              && |available| == old(|available|) + made && available[made..] == old(available)
              && Rolls(available[..made], data, w)
      ensures full <==> |available| >= Live()
      ensures taken == old(taken) + {w}
      ensures forall l :: l in this.made <==>
                l in old(this.made) || (l.work == w && l.offset < |available| - old(|available|))
      ensures |start| >= old(|start|)
      ensures forall i :: 0 <= i < old(|start|) && i !in available ==> start[i] == old(start)[i]
      ensures SameLoads(old(available), old(data), data)
    {
      hide Block, Partition, Carried, Accounted, CountTrue, Rolls, SameLoads, Untouched;
      NotTaken(wfree, total, data, holder, released, taken, w);
      ghost var older, before := available, data;
      NoRolls(older, data, w);
      var need := Live() - |available|;
      var roll := 0;
      ghost var items := RollOnce(w, roll, [], older, before);
      need := need - 1;
      while need > 0 && roll + 1 <= rollLimit
        invariant 0 <= roll && (roll == 0 || roll <= rollLimit) && need >= 0
        invariant Valid() && need == Live() - |available| && |items| == roll + 1
        invariant available == items + older
        invariant Rolls(items, data, w) && SameLoads(older, before, data)
        invariant Untouched(holder, released, w, roll + 1) && taken == old(taken) + {w}
        invariant forall l :: l in made <==> l in old(made) || (l.work == w && l.offset < roll + 1)
        invariant |start| >= old(|start|)
        invariant forall i :: 0 <= i < old(|start|) && i !in items ==> start[i] == old(start)[i]
      {
        roll := roll + 1;
        ghost var fewer := items;
        items := RollOnce(w, roll, items, older, before);
        assert forall i :: i in fewer ==> i in items[1..];
        need := need - 1;
      }
      assert available[..roll + 1] == items && available[roll + 1..] == older;
      full := need <= 0;
    }

    /** One more waiting item, carrying `w` rolled `roll` times. */
    method RollOnce(w: nat, roll: nat, ghost items: seq<Id>, ghost older: seq<Id>, ghost before: map<Id, Load>)
      returns (ghost more: seq<Id>)
      requires Valid() && available == items + older && |items| == roll
      requires Rolls(items, data, w) && SameLoads(older, before, data) && Untouched(holder, released, w, roll)
      modifies this`wfree, this`total, this`start, this`available, this`data, this`holder, this`taken, this`made
      ensures Valid() && available == more + older && |more| == roll + 1 && more[1..] == items
      ensures Rolls(more, data, w) && SameLoads(older, before, data) && Untouched(holder, released, w, roll + 1)
      ensures taken == old(taken) + {w} && made == old(made) + {Load(w, roll)}
      ensures |start| >= old(|start|)
      ensures forall i :: 0 <= i < old(|start|) && i !in more ==> start[i] == old(start)[i]
    {
      hide *;
      UntouchedAt(holder, released, w, roll);
      ghost var d, h := data, holder;
      var item := AddWork(Load(w, roll));
      OneMoreRoll(items, older, before, d, h, released, w, item);
      more := [item] + items;
      assert more[0] == item && item in more && more[1..] == items;
    }

    /** Collects a transfer: for each chip in use the oldest waiting item. Coming up short, it
        puts everything back. */
    method DoWork(due: bool) returns (sent: bool)
      requires Valid()
      modifies this`available, this`spiList
      ensures Valid()
      ensures sent <==> due && old(|available|) >= Live()
      ensures !sent ==> available == old(available) && spiList == old(spiList)
      ensures sent ==>
                && |spiList| == old(|spiList|) + 1 && spiList[1..] == old(spiList)
                && available == old(available)[..old(|available|) - Live()]
                && |spiList[0]| == |disabled|
                && forall c :: 0 <= c < |disabled| ==>
                     var k, n := |set d | 0 <= d < c && !disabled[d]|, old(|available|);
                     if disabled[c] then spiList[0][c] == None
                     else k < n && spiList[0][c] == Some(old(available)[n - 1 - k])
    {
      hide Partition, Carried, CountTrue, Enabled, Filled;
      if !due {
        return false;
      }
      ghost var av := available;
      EnabledTotal(disabled);
      var t: Transfer;
      sent, t := Collect();
      if sent {
        Collected(wfree, av, chipWork, spiList, total, disabled, t);
        spiList := [t] + spiList;
        forall c: nat | c < |disabled|
          ensures var k, n := |set d | 0 <= d < c && !disabled[d]|, |av|;
                  |t| == |disabled|
                  && if disabled[c] then t[c] == None else k < n && t[c] == Some(av[n - 1 - k])
        {
          FilledShares(t, av, disabled, c);
        }
      }
    }

    method Collect() returns (ok: bool, t: Transfer)
      modifies this`available
      ensures ok <==> old(|available|) >= Enabled(disabled, |disabled|)
      ensures |t| == |disabled|
      ensures !ok ==> available == old(available)
      ensures ok ==> Filled(t, old(available), disabled, |disabled|) &&
                     available == old(available)[..old(|available|) - Enabled(disabled, |disabled|)]
    {
      hide *;
      ghost var av := available;
      t := seq(|disabled|, _ => None);
      StartFill(t, av, disabled);
      for chip := 0 to |disabled|
        invariant |t| == |disabled| && Filled(t, av, disabled, chip)
        invariant Enabled(disabled, chip) <= |av| && available == av[..|av| - Enabled(disabled, chip)]
      {
        if disabled[chip] {
          SkipStep(t, av, disabled, chip);
        } else {
          if available == [] {
            TooFew(disabled, chip);
            PutBack(t, chip, av);
            return false, t;
          }
          FillStep(t, av, disabled, chip);
          t := t[chip := Some(available[|available| - 1])];
          available := available[..|available| - 1];
        }
      }
      ok := true;
    }

    /** Puts the items collected for the first chips back at the tail, last collected first. */
    method PutBack(t: Transfer, chip: nat, ghost av: seq<Id>)
      requires chip <= |disabled| == |t| && Filled(t, av, disabled, chip)
      requires Enabled(disabled, chip) <= |av| && available == av[..|av| - Enabled(disabled, chip)]
      modifies this`available
      ensures available == av
    {
      assert Enabled(disabled, 0) == 0;
      hide Enabled, Filled;
      var j := chip;
      while j > 0
        invariant 0 <= j <= chip
        invariant Enabled(disabled, j) <= |av| && available == av[..|av| - Enabled(disabled, j)]
      {
        FilledAt(t, av, disabled, chip, j);
        j := j - 1;
        if t[j].Some? {
          assert t[j] == Oldest(av, Enabled(disabled, j));
          available := available + [t[j].value];
        }
      }
    }

    /** Sends the oldest transfer; only now its items join the chips' lists, at the head. */
    method SpiStep(now: int) returns (sent: bool)
      requires Valid()
      modifies this`spiList, this`chipWork, this`start
      ensures Valid()
      ensures sent <==> old(spiList) != []
      ensures !sent ==> chipWork == old(chipWork) && spiList == old(spiList) && start == old(start)
      ensures sent ==>
                var last := |old(spiList)| - 1;
                var t := old(spiList)[last];
                && spiList == old(spiList)[..last]
                && |t| == |chipWork| == old(|chipWork|)
                && (forall c :: 0 <= c < |chipWork| ==>
                      chipWork[c] == if t[c].Some? then [t[c].value] + old(chipWork)[c] else old(chipWork)[c])
                && (forall c :: 0 <= c < |t| && t[c].Some? ==> t[c].value < |start| && start[t[c].value] == now)
                && |start| == old(|start|)
                && (forall i :: 0 <= i < |start| && Some(i) !in t ==> start[i] == old(start[i]))
    {
      hide Partition, Carried, CountTrue;
      if spiList == [] {
        return false;
      }
      ghost var ts, ls := spiList, chipWork;
      var t := spiList[|spiList| - 1];
      spiList := spiList[..|spiList| - 1];
      for chip := 0 to |disabled|
        invariant |chipWork| == |t| == |disabled| && |start| == total && spiList == ts[..|ts| - 1]
        invariant forall c :: 0 <= c < chip ==> chipWork[c] == Put(t[c], ls[c])
        invariant forall c :: chip <= c < |t| ==> chipWork[c] == ls[c]
        invariant forall c :: 0 <= c < chip && t[c].Some? ==> t[c].value < |start| && start[t[c].value] == now
        invariant forall i :: 0 <= i < |start| && Some(i) !in t ==> start[i] == old(start[i])
      {
        TransferItem(wfree, available, ls, ts, total, chip);
        if t[chip].Some? {
          start := start[t[chip].value := now];
          chipWork := chipWork[chip := [t[chip].value] + chipWork[chip]];
        }
      }
      Transferred(wfree, available, ls, chipWork, ts, total);
      sent := true;
    }

    /** Gives back the load of a chip's oldest item and frees the item. */
    method ReleaseTail(chip: nat)
      requires Valid() && chip < |chipWork| && chipWork[chip] != []
      modifies this`chipWork, this`wfree, this`released, this`holder
      ensures Valid()
      ensures var l := old(chipWork[chip]);
              var tail := l[|l| - 1];
              && chipWork == old(chipWork)[chip := l[..|l| - 1]]
              && wfree == [tail] + old(wfree)
              && tail in data && released == old(released) + [data[tail]]
    {
      hide Partition, Carried, CountTrue;
      var l := chipWork[chip];
      ghost var tail := l[|l| - 1];
      Unloaded(wfree, available, chipWork, spiList, total, chip);
      CarriedRelease(wfree, total, data, holder, released, taken, tail);
      AccountedReleased(made, holder, released, data[tail]);
      chipWork := chipWork[chip := l[..|l| - 1]];
      released, holder := released + [data[tail]], holder - {data[tail]};
      wfree := [l[|l| - 1]] + wfree;
    }

    method Disable(chip: nat)
      requires Valid() && chip < |disabled| && !disabled[chip]
      modifies this`disabled, this`totalDisabled
      ensures Valid() && disabled == old(disabled)[chip := true] && Live() == old(Live()) - 1
    {
      hide Partition, Carried, CountTrue;
      CountTrueSet(disabled, chip);
      CountTrueBound(disabled[chip := true]);
      disabled := disabled[chip := true];
      totalDisabled := totalDisabled + 1;
    }

    /** After the results of a chip were examined: drops its expired items, then those older
        than the item that gave the newest result, oldest first. */
    method CleanupOlder(chip: nat, now: int, found: Option<Id>)
      requires Valid() && chip < |chipWork|
      requires found.Some? ==> found.value in chipWork[chip]
      modifies this`chipWork, this`wfree, this`released, this`holder
      ensures Valid()
      ensures var l := old(chipWork[chip]);
              var k := Kept(l, start, now, found);
              && chipWork == old(chipWork)[chip := l[..k]] && wfree == l[k..] + old(wfree)
              && |released| == old(|released|) + (|l| - k) && released[..old(|released|)] == old(released)
              && forall i :: k <= i < |l| ==>
                   l[i] in data && released[|released| - 1 - (i - k)] == data[l[i]]
    {
      hide Partition, Carried, CountTrue, Dropped, Fresh, Position, Distinct;
      ghost var ls, free, log := chipWork, wfree, released;
      ghost var l := chipWork[chip];
      var expired := DropExpired(chip, now, found);
      ghost var n := Fresh(l, start, now);
      DroppedList(ls, chipWork, chip, n, free, wfree, log, released, data);
      if !expired && found.Some? && chipWork[chip][|chipWork[chip]| - 1] != found.value {
        DropOlder(chip, found.value, ls, free, log);
      }
      DroppedIs(ls, chipWork, chip, Kept(l, start, now, found), free, wfree, log, released, data);
    }

    lemma ValidOnce(chip: nat)
      requires Valid() && chip < |chipWork|
      ensures Distinct(chipWork[chip])
    {
      hide Distinct;
      ListOnce(wfree, available, chipWork, spiList, total, chip);
    }

    method DropTail(chip: nat, ghost ls: seq<seq<Id>>, ghost free: seq<Id>, ghost log: seq<Load>)
      requires Valid() && chip < |chipWork| && chipWork[chip] != []
      requires Dropped(ls, chipWork, chip, |chipWork[chip]|, free, wfree, log, released, data)
      modifies this`chipWork, this`wfree, this`released, this`holder
      ensures Valid() && |chipWork| == old(|chipWork|)
      ensures |chipWork[chip]| == old(|chipWork[chip]|) - 1
      ensures chipWork[chip] == old(chipWork[chip])[..|chipWork[chip]|]
      ensures Dropped(ls, chipWork, chip, |chipWork[chip]|, free, wfree, log, released, data)
    {
      hide *;
      ghost var ls', free', log' := chipWork, wfree, released;
      ReleaseTail(chip);
      DropStep(ls, ls', chip, |ls'[chip]|, free, free', log, log', data, ls'[chip][|ls'[chip]| - 1]);
    }

    method DropExpired(chip: nat, now: int, found: Option<Id>) returns (expired: bool)
      requires Valid() && chip < |chipWork|
      requires found.Some? ==> found.value in chipWork[chip]
      modifies this`chipWork, this`wfree, this`released, this`holder
      ensures Valid()
      ensures var l := old(chipWork[chip]);
              var n := Fresh(l, start, now);
              && Dropped(old(chipWork), chipWork, chip, n, old(wfree), wfree, old(released), released, data)
              && (expired <==> found.Some? && found.value !in l[..n])
    {
      hide *;
      ghost var ls, free, log := chipWork, wfree, released;
      ghost var l := chipWork[chip];
      expired := false;
      StartDrop(ls, chip, free, log, data);
      while chipWork[chip] != [] && Expired(chipWork[chip][|chipWork[chip]| - 1], start, now)
        invariant Valid() && chip < |chipWork| && |chipWork[chip]| <= |l| && chipWork[chip] == l[..|chipWork[chip]|]
        invariant Dropped(ls, chipWork, chip, |chipWork[chip]|, free, wfree, log, released, data)
        invariant Fresh(chipWork[chip], start, now) == Fresh(l, start, now)
        invariant expired <==> found.Some? && found.value !in chipWork[chip]
        decreases |chipWork[chip]|
      {
        var tail := chipWork[chip][|chipWork[chip]| - 1];
        FreshStep(l, |chipWork[chip]|, start, now);
        ValidOnce(chip);
        WithoutLast(chipWork[chip]);
        if found == Some(tail) {
          expired := true;
        }
        DropTail(chip, ls, free, log);
      }
      FreshDone(chipWork[chip], start, now);
    }

    /** Drops what is older than `found`, after the expired items. */
    method DropOlder(chip: nat, found: Id, ghost ls: seq<seq<Id>>, ghost free: seq<Id>, ghost log: seq<Load>)
      requires Valid() && chip < |chipWork| && found in chipWork[chip]
      requires Dropped(ls, chipWork, chip, |chipWork[chip]|, free, wfree, log, released, data)
      modifies this`chipWork, this`wfree, this`released, this`holder
      ensures Valid()
      ensures Dropped(ls, chipWork, chip, Position(old(chipWork[chip]), found) + 1, free, wfree, log, released, data)
    {
      hide *;
      ghost var l := chipWork[chip];
      while chipWork[chip][|chipWork[chip]| - 1] != found
        invariant Valid() && chip < |chipWork| && |chipWork[chip]| <= |l| && chipWork[chip] == l[..|chipWork[chip]|]
        invariant Dropped(ls, chipWork, chip, |chipWork[chip]|, free, wfree, log, released, data)
        invariant found in chipWork[chip] && Position(chipWork[chip], found) == Position(l, found)
        decreases |chipWork[chip]|
      {
        NotLast(chipWork[chip], found);
        DropTail(chip, ls, free, log);
      }
      PositionLast(chipWork[chip], found);
    }

    /** Every item made so far is free, waiting, in a transfer, or with a chip. */
    lemma EveryItemHasAPlace(i: Id)
      requires Valid() && i < total
      ensures || i in wfree || i in available
              || (exists k, c :: 0 <= k < |spiList| && 0 <= c < |spiList[k]| && spiList[k][c] == Some(i))
              || (exists c, k :: 0 <= c < |chipWork| && 0 <= k < |chipWork[c]| && chipWork[c][k] == i)
    {
      hide Carried;
      PartitionPlace(wfree, available, chipWork, spiList, total, i);
      if InLists(chipWork)[i] > 0 {
        InListsFound(chipWork, i);
      } else if InTransfers(spiList)[i] > 0 {
        InTransfersFound(spiList, i);
      }
    }

    /** A free item is in no other place and only once there; a waiting one likewise. */
    lemma FreeOrWaitingOnce(i: Id)
      requires Valid() && (i in wfree || i in available)
      ensures i < total && !(i in wfree && i in available)
      ensures multiset(wfree)[i] + multiset(available)[i] == 1
      ensures forall t, d :: 0 <= t < |spiList| && 0 <= d < |spiList[t]| ==> spiList[t][d] != Some(i)
      ensures forall c :: 0 <= c < |chipWork| ==> i !in chipWork[c]
    {
      hide Carried;
      PartitionPlace(wfree, available, chipWork, spiList, total, i);
      forall t, d | 0 <= t < |spiList| && 0 <= d < |spiList[t]|
        ensures spiList[t][d] != Some(i)
      {
        if spiList[t][d] == Some(i) {
          InTransfersHolds(spiList, t, d, i);
        }
      }
      forall c | 0 <= c < |chipWork|
        ensures i !in chipWork[c]
      {
        InListsHolds(chipWork, c, i);
        assert multiset(chipWork[c])[i] == 0;
      }
    }

    /** A place for an item: free, waiting, in a transfer or with one chip. */
    lemma OnePlace(i: Id, c: nat, k: nat)
      requires Valid() && c < |chipWork| && k < |chipWork[c]| && i == chipWork[c][k]
      ensures i < total && i !in wfree && i !in available
      ensures forall t, d :: 0 <= t < |spiList| && 0 <= d < |spiList[t]| ==> spiList[t][d] != Some(i)
      ensures forall d, j :: 0 <= d < |chipWork| && 0 <= j < |chipWork[d]| && chipWork[d][j] == i ==> d == c && j == k
    {
      hide Partition, Carried;
      ChipItemOnly(wfree, available, chipWork, spiList, total, c, k);
    }

    /** A load that was made was given back, or an item that is not free carries it, not both. */
    lemma EveryLoadAccounted(l: Load)
      requires Valid() && l in made
      ensures l in released <==> !exists i :: 0 <= i < total && i !in wfree && i in data && data[i] == l
    {
      hide Partition;
    }

    /** Nothing was given back twice, and nothing still carried was given back. */
    lemma GivenBackOnce(a: nat, b: nat, i: Id)
      requires Valid() && a < b < |released|
      ensures released[a] != released[b]
      ensures i < total && i !in wfree ==> i in data && data[i] != released[a]
    {
    }
  }
}

/** Work ownership in a chain of A1 chips: every item the device has taken is either waiting
    in the chain's queue or loaded into one job slot of one chip, until it is completed. */
module A1Chain {
  import opened Basics

  /** A work item, by the id that keys the device's table. */
  type Id = nat

  const SLOTS := 4

  const COOLDOWN_MS := 30000

  const FAIL_THRESHOLD := 3

  const BROKEN_CHIP := 26

  datatype Chip = Chip(numCores: nat, lastQueued: nat, work: seq<Option<Id>>, hwErrors: nat, stales: nat,
                       noncesFound: nat, rangesDone: nat, cooldownBegin: int, failCount: nat, disabled: bool)
  {
    ghost predicate Shaped() {
      |work| == SLOTS && lastQueued < SLOTS
    }

    predicate Inactive() {
      disabled || cooldownBegin != 0
    }

    function At(j: nat): Option<Id> {
      if j < |work| then work[j] else None
    }

    function WithSlot(j: nat, w: Option<Id>): Chip
      requires j < |work|
    {
      this.(work := work[j := w])
    }
  }

  /** What the chain answers about one result in its output queue. */
  datatype Reply = Reply(chip: nat, job: nat, valid: bool)

  /** What one chip answers in a scan: its register read and queue state, whether it accepts a
      job, and the clock. */
  datatype ChipAnswer = ChipAnswer(readOk: bool, state: nat, writeOk: bool, now: int)

  datatype Recheck = Recheck(readOk: bool, now: int)

  /** Cores of the chips that are not given up. */
  function Cores(chips: seq<Chip>): nat {
    if chips == [] then 0
    else Cores(chips[..|chips| - 1]) + LiveCores(chips[|chips| - 1])
  }

  function LiveCores(c: Chip): nat {
    if c.disabled then 0 else c.numCores
  }

  lemma {:induction false} CoresUpdate(chips: seq<Chip>, i: nat, c: Chip)
    requires i < |chips|
    ensures Cores(chips[i := c]) == Cores(chips) - LiveCores(chips[i]) + LiveCores(c)
  {
    var last := |chips| - 1;
    if i < last {
      CoresUpdate(chips[..last], i, c);
      assert chips[i := c][..last] == chips[..last][i := c];
    } else {
      assert chips[i := c][..last] == chips[..last];
    }
  }

  /** A chip that is given up takes exactly its own cores with it; one that is not counts fully. */
  lemma CoresWithout(chips: seq<Chip>, i: nat)
    requires i < |chips| && !chips[i].disabled
    ensures Cores(chips[i := chips[i].(disabled := true)]) == Cores(chips) - chips[i].numCores
    ensures Cores(chips[i := chips[i].(disabled := true, numCores := 0)]) == Cores(chips) - chips[i].numCores
  {
    hide Cores;
    CoresUpdate(chips, i, chips[i].(disabled := true));
    CoresUpdate(chips, i, chips[i].(disabled := true, numCores := 0));
  }

  lemma CoresAppend(chips: seq<Chip>, chip: Chip)
    ensures Cores(chips + [chip]) == Cores(chips) + LiveCores(chip)
  {
    assert (chips + [chip])[..|chips|] == chips;
  }

  lemma NoCores()
    ensures Cores([]) == 0
  {
  }

  /** Counts the chips of a new chain: a chip that does not answer or has too few cores is given
      up, and its cores do not count. `reports` is how many cores each chip reports. */
  method CheckNewChips(reports: seq<Option<Byte>>) returns (chips: seq<Chip>, numCores: int)
    ensures |chips| == |reports| && numCores == Cores(chips)
    ensures forall c :: 0 <= c < |chips| ==>
              && chips[c].Shaped() && (forall j: nat :: chips[c].At(j).None?)
              && chips[c] == Chip(reports[c].GetOr(0), 0, [None, None, None, None], 0, 0, 0, 0, 0, 0,
                                  reports[c].GetOr(0) < BROKEN_CHIP)
  {
    hide Cores;
    chips, numCores := [], 0;
    NoCores();
    for i := 0 to |reports|
      invariant |chips| == i && numCores == Cores(chips)
      invariant forall c :: 0 <= c < |chips| ==>
                  && chips[c].Shaped() && (forall j: nat :: chips[c].At(j).None?)
                  && chips[c] == Chip(reports[c].GetOr(0), 0, [None, None, None, None], 0, 0, 0, 0, 0, 0,
                                      reports[c].GetOr(0) < BROKEN_CHIP)
    {
      var chip := Chip(0, 0, [None, None, None, None], 0, 0, 0, 0, 0, 0, false);
      if reports[i].None? {
        chip := chip.(disabled := true);
      } else {
        chip := chip.(numCores := reports[i].value);
        numCores := numCores + chip.numCores;
        if chip.numCores < BROKEN_CHIP {
          chip := chip.(disabled := true);
          numCores := numCores - chip.numCores;
        }
      }
      CoresAppend(chips, chip);
      chips := chips + [chip];
    }
  }

  /** The device's table `queued` is the disjoint union of the queue, the loaded slots and the
      item in hand (taken from the queue, not loaded yet). `home` says which slot an item is
      in, so no item is in two slots. */
  ghost predicate Owned(chips: seq<Chip>, wq: seq<Id>, home: map<Id, (nat, nat)>, hand: Option<Id>, queued: set<Id>) {
    && (forall c :: 0 <= c < |chips| ==> chips[c].Shaped())
    && Distinct(wq)
    && (forall c, j: nat :: 0 <= c < |chips| && chips[c].At(j).Some? ==>
          chips[c].At(j).value in home && home[chips[c].At(j).value] == (c, j))
    && (forall w :: w in home ==> home[w].0 < |chips| && chips[home[w].0].At(home[w].1) == Some(w))
    && (forall w :: w in wq ==> w !in home && hand != Some(w))
    && (hand.Some? ==> hand.value !in home)
    && (forall w :: w in queued <==> w in home || w in wq || hand == Some(w))
  }

  /** Items in the table and items completed are apart, and together are all ever admitted. */
  ghost predicate Accounted(queued: set<Id>, completed: seq<Id>, admitted: set<Id>) {
    && Distinct(completed)
    && (forall w :: w in completed ==> w !in queued)
    && (forall w :: w in admitted <==> w in queued || w in completed)
  }

  lemma CompletedOnce(queued: set<Id>, completed: seq<Id>, admitted: set<Id>, w: Id)
    requires Accounted(queued, completed, admitted) && w in queued
    ensures Accounted(queued - {w}, completed + [w], admitted)
  {
  }

  lemma Admitted(queued: set<Id>, completed: seq<Id>, admitted: set<Id>, w: Id)
    requires Accounted(queued, completed, admitted) && w !in admitted
    ensures w !in queued && Accounted(queued + {w}, completed, admitted + {w})
  {
  }

  lemma OwnedClear(chips: seq<Chip>, wq: seq<Id>, home: map<Id, (nat, nat)>, hand: Option<Id>, queued: set<Id>,
                   c: nat, j: nat)
    requires Owned(chips, wq, home, hand, queued) && c < |chips| && chips[c].At(j).Some?
    ensures var w := chips[c].At(j).value;
            && w in queued
            && Owned(chips[c := chips[c].WithSlot(j, None)], wq, home - {w}, hand, queued - {w})
  {
    var w := chips[c].At(j).value;
    var chips' := chips[c := chips[c].WithSlot(j, None)];
    assert forall c', j': nat :: 0 <= c' < |chips| && (c' != c || j' != j) ==> chips'[c'].At(j') == chips[c'].At(j');
    assert chips'[c].At(j) == None;
  }

  lemma OwnedTake(chips: seq<Chip>, wq: seq<Id>, home: map<Id, (nat, nat)>, queued: set<Id>)
    requires Owned(chips, wq, home, None, queued) && wq != []
    ensures Owned(chips, wq[1..], home, Some(wq[0]), queued)
  {
    assert wq == [wq[0]] + wq[1..];
  }

  lemma OwnedLoad(chips: seq<Chip>, wq: seq<Id>, home: map<Id, (nat, nat)>, w: Id, queued: set<Id>, c: nat, j: nat)
    requires Owned(chips, wq, home, Some(w), queued) && c < |chips| && j < SLOTS && chips[c].At(j).None?
    ensures Owned(chips[c := chips[c].WithSlot(j, Some(w))], wq, home[w := (c, j)], None, queued)
  {
    var chips' := chips[c := chips[c].WithSlot(j, Some(w))];
    assert forall c', j': nat :: 0 <= c' < |chips| && (c' != c || j' != j) ==> chips'[c'].At(j') == chips[c'].At(j');
    assert chips'[c].At(j) == Some(w);
  }

  lemma OwnedRelease(chips: seq<Chip>, wq: seq<Id>, home: map<Id, (nat, nat)>, w: Id, queued: set<Id>)
    requires Owned(chips, wq, home, Some(w), queued)
    ensures w in queued && Owned(chips, wq, home, None, queued - {w})
  {
  }

  lemma OwnedEnqueue(chips: seq<Chip>, wq: seq<Id>, home: map<Id, (nat, nat)>, queued: set<Id>, w: Id)
    requires Owned(chips, wq, home, None, queued) && w !in queued
    ensures Owned(chips, wq + [w], home, None, queued + {w})
  {
  }

  /** Changing what is not a slot leaves ownership alone. */
  lemma OwnedSameSlots(chips: seq<Chip>, wq: seq<Id>, home: map<Id, (nat, nat)>, hand: Option<Id>, queued: set<Id>,
                       c: nat, chip: Chip)
    requires Owned(chips, wq, home, hand, queued) && c < |chips|
    requires chip.work == chips[c].work && chip.Shaped()
    ensures Owned(chips[c := chip], wq, home, hand, queued)
  {
    var chips' := chips[c := chip];
    assert forall c', j: nat :: 0 <= c' < |chips| ==> chips'[c'].At(j) == chips[c'].At(j);
  }

  /** The items that the nonces of a scan belong to, and how many of them do not check. */
  function Hits(chips: seq<Chip>, replies: seq<Reply>): (r: (seq<Id>, nat)) {
    if replies == [] then ([], 0)
    else
      var (found, bad) := Hits(chips, replies[..|replies| - 1]);
      var last := replies[|replies| - 1];
      match Target(chips, last)
      case None => (found, bad)
      case Some(w) => (found + [w], if last.valid then bad else bad + 1)
  }

  /** A reply that names no chip of the chain, or an empty slot, belongs to nothing. */
  function Target(chips: seq<Chip>, r: Reply): Option<Id> {
    if 1 <= r.chip <= |chips| && r.job >= 1 then chips[r.chip - 1].At(r.job - 1) else None
  }

  lemma TargetSameWork(chips: seq<Chip>, chips': seq<Chip>, r: Reply)
    requires |chips| == |chips'| && forall c :: 0 <= c < |chips| ==> chips[c].work == chips'[c].work
    ensures Target(chips, r) == Target(chips', r)
  {
  }

  lemma NoHits(chips: seq<Chip>, replies: seq<Reply>)
    ensures Hits(chips, replies[..0]) == ([], 0)
  {
  }

  lemma NextHit(chips: seq<Chip>, replies: seq<Reply>, k: nat)
    requires k < |replies|
    ensures var (found, bad) := Hits(chips, replies[..k]);
            Hits(chips, replies[..k + 1]) == match Target(chips, replies[k])
                                             case None => (found, bad)
                                             case Some(w) => (found + [w], if replies[k].valid then bad else bad + 1)
  {
    assert replies[..k + 1][..k] == replies[..k];
  }

  /** What the nonces belong to: the items of the loaded slots that replies name. */
  lemma {:induction false} HitsFound(chips: seq<Chip>, replies: seq<Reply>)
    requires forall k :: 0 <= k < |replies| ==> replies[k].job >= 1
    ensures forall w :: w in Hits(chips, replies).0 <==>
              exists k :: 0 <= k < |replies| && 1 <= replies[k].chip <= |chips|
                          && chips[replies[k].chip - 1].At(replies[k].job - 1) == Some(w)
  {
    if replies != [] {
      HitsFound(chips, replies[..|replies| - 1]);
    }
  }

  /** The replies that name a loaded slot and do not check. */
  ghost function Failing(chips: seq<Chip>, replies: seq<Reply>): set<nat> {
    set k: nat | k < |replies| && !replies[k].valid && Target(chips, replies[k]).Some?
  }

  lemma FailingStep(chips: seq<Chip>, replies: seq<Reply>, k: nat)
    requires k < |replies|
    ensures |Failing(chips, [])| == 0
    ensures |Failing(chips, replies[..k + 1])|
            == |Failing(chips, replies[..k])| + if !replies[k].valid && Target(chips, replies[k]).Some? then 1 else 0
  {
    hide Target;
    assert Failing(chips, []) == {};
    assert Failing(chips, replies[..k + 1])
           == Failing(chips, replies[..k])
              + if !replies[k].valid && Target(chips, replies[k]).Some? then {k} else {};
  }

  lemma {:induction false} HitsFailing(chips: seq<Chip>, replies: seq<Reply>)
    ensures Hits(chips, replies).1 == |Failing(chips, replies)|
  {
    hide Target;
    if replies == [] {
      assert Failing(chips, replies) == {};
    } else {
      var n := |replies| - 1;
      HitsFailing(chips, replies[..n]);
      FailingStep(chips, replies, n);
      assert replies[..n + 1] == replies;
    }
  }

  /** And how many of them do not check. */
  lemma HitsBad(chips: seq<Chip>, replies: seq<Reply>)
    requires forall k :: 0 <= k < |replies| ==> replies[k].job >= 1
    ensures Hits(chips, replies).1
            == |set k: nat | k < |replies| && !replies[k].valid && 1 <= replies[k].chip <= |chips|
                             && chips[replies[k].chip - 1].At(replies[k].job - 1).Some?|
  {
    hide Hits;
    HitsFailing(chips, replies);
    assert Failing(chips, replies)
           == set k: nat | k < |replies| && !replies[k].valid && 1 <= replies[k].chip <= |chips|
                           && chips[replies[k].chip - 1].At(replies[k].job - 1).Some?;
  }

  lemma TargetIs(chips: seq<Chip>, r: Reply)
    requires r.job >= 1
    ensures Target(chips, r) == if 1 <= r.chip <= |chips| then chips[r.chip - 1].At(r.job - 1) else None
  {
  }

  /** Whether a chip gets the next waiting item, if there is one. */
  predicate Takes(c: Chip, a: ChipAnswer) {
    !c.Inactive() && a.readOk && a.state % 4 < 2
  }

  /** How many of the first `n` chips, the last one first, finish what was in the slot they load
      next, when `items` items wait. */
  function Finished(chips: seq<Chip>, answers: seq<ChipAnswer>, n: nat, items: nat): nat
    requires n <= |chips| == |answers|
    decreases n
  {
    if n == 0 then 0
    else
      var c := n - 1;
      var takes := items > 0 && Takes(chips[c], answers[c]);
      (if takes && chips[c].At(chips[c].lastQueued).Some? then 1 else 0)
        + Finished(chips, answers, c, if takes then items - 1 else items)
  }

  /** The chips from `c` on that get an item if there are enough. */
  ghost function Takers(chips: seq<Chip>, answers: seq<ChipAnswer>, c: nat): set<nat>
    requires |chips| == |answers|
  {
    set d: nat | c <= d < |chips| && Takes(chips[d], answers[d])
  }

  lemma NoTakers(chips: seq<Chip>, answers: seq<ChipAnswer>)
    requires |chips| == |answers|
    ensures |Takers(chips, answers, |chips|)| == 0
  {
    assert Takers(chips, answers, |chips|) == {};
  }

  lemma TakersStep(chips: seq<Chip>, answers: seq<ChipAnswer>, c: nat)
    requires c < |chips| == |answers|
    ensures |Takers(chips, answers, c)|
            == |Takers(chips, answers, c + 1)| + if Takes(chips[c], answers[c]) then 1 else 0
  {
    assert Takers(chips, answers, c)
           == Takers(chips, answers, c + 1) + if Takes(chips[c], answers[c]) then {c} else {};
  }

  lemma TakersSame(a: seq<Chip>, b: seq<Chip>, answers: seq<ChipAnswer>, c: nat)
    requires |a| == |b| == |answers| && forall d :: 0 <= d < |a| ==> SameLoad(a[d], b[d])
    ensures Takers(a, answers, c) == Takers(b, answers, c)
  {
  }

  lemma TakersAre(chips: seq<Chip>, answers: seq<ChipAnswer>, c: nat)
    requires c <= |chips| == |answers|
    ensures Takers(chips, answers, c)
            == set d: nat | c <= d < |chips| && !chips[d].disabled && chips[d].cooldownBegin == 0
                            && answers[d].readOk && answers[d].state % 4 < 2
  {
  }

  /** What a scan makes of a chip, when `k` chips after it took an item before. */
  function Scanned(was: Chip, a: ChipAnswer, items: seq<Id>, k: nat): (chip: Chip)
    ensures chip.Shaped() == was.Shaped()
  {
    var j := was.lastQueued;
    if Takes(was, a) && k < |items| && j < |was.work| then
      was.(work := was.work[j := if a.writeOk then Some(items[k]) else None],
           lastQueued := if a.writeOk then (j + 1) % 4 else j, cooldownBegin := if a.writeOk then 0 else a.now,
           rangesDone := was.rangesDone + if was.At(j).Some? then 1 else 0)
    else was.(cooldownBegin := if was.Inactive() || a.readOk then was.cooldownBegin else a.now)
  }

  /** The same for chip `c` of a scan of all chips, the last one first. */
  ghost function Turn(chips: seq<Chip>, answers: seq<ChipAnswer>, items: seq<Id>, c: nat): Chip
    requires c < |chips| == |answers|
  {
    Scanned(chips[c], answers[c], items, |Takers(chips, answers, c + 1)|)
  }

  lemma TurnIs(chips: seq<Chip>, answers: seq<ChipAnswer>, items: seq<Id>, c: nat)
    requires c < |chips| == |answers|
    ensures Turn(chips, answers, items, c) == Scanned(chips[c], answers[c], items, |Takers(chips, answers, c + 1)|)
  {
  }

  lemma SameSlots(a: Chip, b: Chip)
    requires |a.work| == |b.work| && forall j: nat :: a.At(j) == b.At(j)
    ensures a.work == b.work
  {
    assert forall j: nat :: j < |a.work| ==> a.work[j] == a.At(j) && b.work[j] == b.At(j);
  }

  /** It is the only chip with these slots and fields. */
  lemma ScannedIs(was: Chip, chip: Chip, a: ChipAnswer, items: seq<Id>, k: nat)
    requires was.Shaped() && chip.Shaped()
    ensures Takes(was, a) <==> !was.disabled && was.cooldownBegin == 0 && a.readOk && a.state % 4 < 2
    ensures var j, idle := was.lastQueued, !was.disabled && was.cooldownBegin == 0;
            chip == Scanned(was, a, items, k) <==>
              if idle && a.readOk && a.state % 4 < 2 && k < |items|
              then && chip.At(j) == (if a.writeOk then Some(items[k]) else None)
                   && (forall i: nat :: i != j ==> chip.At(i) == was.At(i))
                   && chip == was.(work := chip.work, lastQueued := if a.writeOk then (j + 1) % 4 else j,
                                   cooldownBegin := if a.writeOk then 0 else a.now,
                                   rangesDone := was.rangesDone + if was.At(j).Some? then 1 else 0)
              else chip == was.(cooldownBegin := if idle && !a.readOk then a.now else was.cooldownBegin)
  {
    var j, r := was.lastQueued, Scanned(was, a, items, k);
    if Takes(was, a) && k < |items| && chip.At(j) == r.At(j) && forall i: nat :: i != j ==> chip.At(i) == was.At(i) {
      assert forall i: nat :: r.At(i) == chip.At(i);
      SameSlots(r, chip);
    }
  }

  // ----- what a chip's results do to its counters

  /** 0 for a result of a slot that is empty, 1 for one that checks, 2 for one that does not. */
  function Kind(chip: Chip, r: Reply): nat {
    if r.job == 0 || chip.At(r.job - 1).None? then 0 else if r.valid then 1 else 2
  }

  ghost function Answers(chip: Chip, c: nat, replies: seq<Reply>, kind: nat): set<nat> {
    set k: nat | k < |replies| && replies[k].chip == c + 1 && Kind(chip, replies[k]) == kind
  }

  ghost function Answered(chip: Chip, c: nat, replies: seq<Reply>): (r: Chip)
    ensures r.Shaped() == chip.Shaped() && SameLoad(r, chip)
  {
    chip.(stales := chip.stales + |Answers(chip, c, replies, 0)|,
          noncesFound := chip.noncesFound + |Answers(chip, c, replies, 1)|,
          hwErrors := chip.hwErrors + |Answers(chip, c, replies, 2)|)
  }

  lemma NoAnswers(chip: Chip, c: nat, replies: seq<Reply>)
    ensures Answered(chip, c, replies[..0]) == chip
  {
    assert forall kind: nat :: Answers(chip, c, replies[..0], kind) == {};
  }

  lemma AnswersStep(chip: Chip, c: nat, replies: seq<Reply>, k: nat, kind: nat)
    requires k < |replies|
    ensures |Answers(chip, c, replies[..k + 1], kind)|
            == |Answers(chip, c, replies[..k], kind)|
               + if replies[k].chip == c + 1 && Kind(chip, replies[k]) == kind then 1 else 0
  {
    hide Kind;
    assert Answers(chip, c, replies[..k + 1], kind)
           == Answers(chip, c, replies[..k], kind)
              + if replies[k].chip == c + 1 && Kind(chip, replies[k]) == kind then {k} else {};
  }

  lemma AnsweredStep(chip: Chip, c: nat, replies: seq<Reply>, k: nat)
    requires k < |replies|
    ensures var before, after := Answered(chip, c, replies[..k]), Answered(chip, c, replies[..k + 1]);
            after == if replies[k].chip != c + 1 then before
                     else if Kind(chip, replies[k]) == 0 then before.(stales := before.stales + 1)
                     else if Kind(chip, replies[k]) == 1 then before.(noncesFound := before.noncesFound + 1)
                     else before.(hwErrors := before.hwErrors + 1)
  {
    assert Kind(chip, replies[k]) in {0, 1, 2};
    hide Kind, Answers;
    AnswersStep(chip, c, replies, k, 0);
    AnswersStep(chip, c, replies, k, 1);
    AnswersStep(chip, c, replies, k, 2);
  }

  lemma AnsweredIs(chip: Chip, c: nat, replies: seq<Reply>)
    requires forall k :: 0 <= k < |replies| ==> replies[k].job >= 1
    ensures var mine := set k: nat | k < |replies| && replies[k].chip == c + 1;
            Answered(chip, c, replies)
            == chip.(stales := chip.stales + |set k: nat | k in mine && chip.At(replies[k].job - 1).None?|,
                     noncesFound := chip.noncesFound
                       + |set k: nat | k in mine && chip.At(replies[k].job - 1).Some? && replies[k].valid|,
                     hwErrors := chip.hwErrors
                       + |set k: nat | k in mine && chip.At(replies[k].job - 1).Some? && !replies[k].valid|)
  {
    var mine := set k: nat | k < |replies| && replies[k].chip == c + 1;
    assert Answers(chip, c, replies, 0) == set k: nat | k in mine && chip.At(replies[k].job - 1).None?;
    assert Answers(chip, c, replies, 1)
           == set k: nat | k in mine && chip.At(replies[k].job - 1).Some? && replies[k].valid;
    assert Answers(chip, c, replies, 2)
           == set k: nat | k in mine && chip.At(replies[k].job - 1).Some? && !replies[k].valid;
  }

  /** Results change no more than counters of a chip. */
  ghost predicate SameLoad(a: Chip, b: Chip) {
    b == a.(stales := b.stales, noncesFound := b.noncesFound, hwErrors := b.hwErrors)
  }

  lemma NextFinished(chips: seq<Chip>, answers: seq<ChipAnswer>, c: nat, items: nat)
    requires c < |chips| == |answers|
    ensures var takes := items > 0 && Takes(chips[c], answers[c]);
            Finished(chips, answers, c + 1, items)
            == (if takes && chips[c].At(chips[c].lastQueued).Some? then 1 else 0)
               + Finished(chips, answers, c, if takes then items - 1 else items)
  {
  }

  lemma NoneFinished(chips: seq<Chip>, answers: seq<ChipAnswer>, items: nat)
    requires |chips| == |answers|
    ensures Finished(chips, answers, 0, items) == 0
  {
  }

  lemma {:induction false} FinishedSame(a: seq<Chip>, b: seq<Chip>, answers: seq<ChipAnswer>, n: nat, items: nat)
    requires n <= |a| == |b| == |answers| && forall c :: 0 <= c < n ==> SameLoad(a[c], b[c])
    ensures Finished(a, answers, n, items) == Finished(b, answers, n, items)
    decreases n
  {
    if n > 0 {
      var c := n - 1;
      assert a[c].At(a[c].lastQueued) == b[c].At(b[c].lastQueued);
      FinishedSame(a, b, answers, c, if items > 0 && Takes(a[c], answers[c]) then items - 1 else items);
    }
  }

  class Chain {
    var chips: seq<Chip>
    var numCores: int
    var activeWq: seq<Id>
    var numElems: nat
    var queued: set<Id>
    var queuedCount: int

    /** The slot each loaded item is in. */
    ghost var home: map<Id, (nat, nat)>
    /** The item taken from the queue and not loaded yet; none between calls. */
    ghost var hand: Option<Id>
    /** Everything ever put into the device's table. */
    ghost var admitted: set<Id>
    /** Everything ever completed, in order. */
    ghost var completed: seq<Id>

    ghost predicate Consistent()
      reads this
    {
      && Owned(chips, activeWq, home, hand, queued)
      && Accounted(queued, completed, admitted)
      && numElems == |activeWq| <= 2 * |chips|
      && queuedCount == |queued|
      && numCores == Cores(chips)
    }

    ghost predicate Valid()
      reads this
    {
      Consistent() && hand == None
    }

    constructor (chips: seq<Chip>)
      requires forall c :: 0 <= c < |chips| ==> chips[c].Shaped() && forall j: nat :: chips[c].At(j).None?
      ensures Valid() && this.chips == chips && queued == {} && activeWq == [] && completed == []
    {
      this.chips, numCores := chips, Cores(chips);
      activeWq, numElems, queued, queuedCount := [], 0, {}, 0;
      home, hand, admitted, completed := map[], None, {}, [];
    }

    /** What the partition means for an observer. */
    lemma TableIsPartition(w: Id)
      requires Valid()
      ensures w in queued <==> w in activeWq || exists c, j: nat :: 0 <= c < |chips| && chips[c].At(j) == Some(w)
      ensures forall c, j: nat :: 0 <= c < |chips| && chips[c].At(j) == Some(w) ==> w !in activeWq
      ensures forall c, j: nat, c', j': nat ::
                0 <= c < |chips| && 0 <= c' < |chips| && chips[c].At(j) == Some(w) && chips[c'].At(j') == Some(w)
                ==> c == c' && j == j'
    {
    }

    /** Every item ever admitted is in the table or was completed, not both, and completed once;
        the counters say how many there are. */
    lemma EachOnce(w: Id)
      requires Valid()
      ensures w in admitted <==> w in queued || w in completed
      ensures !(w in queued && w in completed)
      ensures forall a, b :: 0 <= a < b < |completed| ==> completed[a] != completed[b]
      ensures forall a, b :: 0 <= a < b < |activeWq| ==> activeWq[a] != activeWq[b]
      ensures queuedCount == |queued| && numElems == |activeWq| <= 2 * |chips|
    {
    }

    /** Called until it returns true. With room for two items per chip it takes the next
        waiting item, unless there is none or it has become stale. */
    method QueueFull(unqueued: Option<Id>, stale: bool) returns (full: bool)
      requires Valid()
      requires unqueued.Some? ==> unqueued.value !in admitted
      modifies this`activeWq, this`numElems, this`queued, this`queuedCount, this`admitted
      ensures Valid() && full == (|old(activeWq)| >= 2 * |chips|)
      ensures var taken := !full && unqueued.Some? && !stale;
              && activeWq == (if taken then old(activeWq) + [unqueued.value] else old(activeWq))
              && queued == (if taken then old(queued) + {unqueued.value} else old(queued))
    {
      hide Owned, Cores, Accounted;
      if numElems >= |chips| * 2 {
        return true;
      }
      if unqueued.Some? && !stale {
        Admitted(queued, completed, admitted, unqueued.value);
        OwnedEnqueue(chips, activeWq, home, queued, unqueued.value);
        queuedCount := queuedCount + 1;
        queued := queued + {unqueued.value};
        admitted := admitted + {unqueued.value};
        activeWq := activeWq + [unqueued.value];
        numElems := numElems + 1;
      }
      return false;
    }

    /** The oldest waiting item goes into the driver's hand. */
    method Dequeue() returns (w: Option<Id>)
      requires Valid()
      modifies this`activeWq, this`numElems, this`hand
      ensures Consistent() && hand == w
      ensures w.None? <==> old(activeWq) == []
      ensures w.None? ==> activeWq == old(activeWq)
      ensures w.Some? ==> old(activeWq) == [w.value] + activeWq
    {
      hide Owned, Cores, Accounted;
      if numElems == 0 {
        return None;
      }
      OwnedTake(chips, activeWq, home, queued);
      w := Some(activeWq[0]);
      hand := w;
      activeWq := activeWq[1..];
      numElems := numElems - 1;
    }

    /** Completes the item in a slot. */
    method CompleteSlot(c: nat, j: nat)
      requires Consistent() && c < |chips| && chips[c].At(j).Some?
      modifies this`chips, this`queued, this`queuedCount, this`completed, this`home
      ensures Consistent()
      ensures chips == old(chips)[c := old(chips)[c].WithSlot(j, None)]
      ensures completed == old(completed) + [old(chips)[c].At(j).value]
      ensures queued == old(queued) - {old(chips)[c].At(j).value}
    {
      hide Owned, Cores, Accounted;
      var w := chips[c].At(j).value;
      OwnedClear(chips, activeWq, home, hand, queued, c, j);
      CompletedOnce(queued, completed, admitted, w);
      CoresUpdate(chips, c, chips[c].WithSlot(j, None));
      queued := queued - {w};
      queuedCount := queuedCount - 1;
      chips := chips[c := chips[c].WithSlot(j, None)];
      home := home - {w};
      completed := completed + [w];
    }

    /** Completes the item in hand, which the chip did not accept. */
    method ReleaseHand(w: Id)
      requires Consistent() && hand == Some(w)
      modifies this`queued, this`queuedCount, this`completed, this`hand
      ensures Valid() && completed == old(completed) + [w] && queued == old(queued) - {w}
    {
      hide Owned, Cores, Accounted;
      OwnedRelease(chips, activeWq, home, w, queued);
      CompletedOnce(queued, completed, admitted, w);
      queued := queued - {w};
      queuedCount := queuedCount - 1;
      hand := None;
      completed := completed + [w];
    }

    /** Replaces a chip by one with the same slots and the same live cores. */
    method UpdateChip(c: nat, chip: Chip)
      requires Consistent() && c < |chips|
      requires chip.work == chips[c].work && chip.Shaped() && LiveCores(chip) == LiveCores(chips[c])
      modifies this`chips
      ensures Consistent() && chips == old(chips)[c := chip]
      ensures forall i: nat :: chips[c].At(i) == old(chips)[c].At(i)
    {
      hide Owned, Cores, Accounted;
      OwnedSameSlots(chips, activeWq, home, hand, queued, c, chip);
      CoresUpdate(chips, c, chip);
      chips := chips[c := chip];
    }

    method DisableChip(c: nat, now: int)
      requires Consistent() && c < |chips|
      modifies this`chips
      ensures Consistent()
      ensures chips == old(chips)[c := if old(chips)[c].Inactive() then old(chips)[c]
                                       else old(chips)[c].(cooldownBegin := now)]
      ensures forall i: nat :: chips[c].At(i) == old(chips)[c].At(i)
    {
      hide Owned, Cores, Accounted;
      ShapedChip(c);
      if !chips[c].Inactive() {
        UpdateChip(c, chips[c].(cooldownBegin := now));
      }
    }

    lemma ValidChip(c: nat)
      requires Valid() && c < |chips|
      ensures chips[c].Shaped()
    {
    }

    lemma ShapedChip(c: nat)
      requires Consistent() && c < |chips|
      ensures chips[c].Shaped()
    {
    }

    /** Gives the item in hand to a chip. The slot it goes to is emptied first: the chip has
        finished what was there. If the chip does not accept the job, the item is given back
        and the chip is disabled for a while. */
    method SetWork(c: nat, w: Id, writeOk: bool, now: int) returns (finished: bool)
      requires Consistent() && hand == Some(w) && c < |chips|
      modifies this`chips, this`queued, this`queuedCount, this`completed, this`home, this`hand
      ensures Valid() && |chips| == |old(chips)|
      ensures var j, done := old(chips)[c].lastQueued, old(chips)[c].At(old(chips)[c].lastQueued);
              && finished == done.Some?
              && completed == old(completed) + (if finished then [done.value] else []) + (if writeOk then [] else [w])
              && chips[c].lastQueued == (if writeOk then (j + 1) % 4 else j)
              && chips[c].At(j) == (if writeOk then Some(w) else None)
              && (forall i: nat :: i != j ==> chips[c].At(i) == old(chips)[c].At(i))
              && chips[c] == old(chips)[c].(
                               work := chips[c].work, lastQueued := chips[c].lastQueued,
                               cooldownBegin := if writeOk || old(chips)[c].disabled || old(chips)[c].cooldownBegin != 0
                                                then old(chips)[c].cooldownBegin else now)
      ensures forall i :: 0 <= i < |chips| && i != c ==> chips[i] == old(chips)[i]
      ensures queued == old(queued) - (if finished then {old(chips)[c].At(old(chips)[c].lastQueued).value} else {})
                        - (if writeOk then {} else {w})
    {
      hide Owned, Cores, Accounted, Consistent;
      ShapedChip(c);
      var j := chips[c].lastQueued;
      finished := EmptySlot(c, j);
      if !writeOk {
        ReleaseHand(w);
        DisableChip(c, now);
      } else {
        LoadHand(c, j, w);
        ShapedChip(c);
        UpdateChip(c, chips[c].(lastQueued := (j + 1) % 4));
      }
    }

    method EmptySlot(c: nat, j: nat) returns (finished: bool)
      requires Consistent() && c < |chips| && j < SLOTS
      modifies this`chips, this`queued, this`queuedCount, this`completed, this`home
      ensures Consistent() && |chips| == |old(chips)|
      ensures finished == old(chips)[c].At(j).Some?
      ensures completed == old(completed) + if finished then [old(chips)[c].At(j).value] else []
      ensures queued == old(queued) - if finished then {old(chips)[c].At(j).value} else {}
      ensures chips[c].At(j) == None && chips[c] == old(chips)[c].(work := chips[c].work)
      ensures forall i: nat :: i != j ==> chips[c].At(i) == old(chips)[c].At(i)
      ensures forall i :: 0 <= i < |chips| && i != c ==> chips[i] == old(chips)[i]
    {
      hide Owned, Cores, Accounted;
      ShapedChip(c);
      finished := chips[c].At(j).Some?;
      if finished {
        CompleteSlot(c, j);
      }
    }

    method LoadHand(c: nat, j: nat, w: Id)
      requires Consistent() && hand == Some(w) && c < |chips| && j < SLOTS && chips[c].At(j).None?
      modifies this`chips, this`home, this`hand
      ensures Valid() && chips == old(chips)[c := old(chips)[c].WithSlot(j, Some(w))]
      ensures chips[c].At(j) == Some(w) && chips[c].lastQueued == old(chips)[c].lastQueued
      ensures forall i: nat :: i != j ==> chips[c].At(i) == old(chips)[c].At(i)
    {
      hide Owned, Cores, Accounted;
      ShapedChip(c);
      OwnedLoad(chips, activeWq, home, w, queued, c, j);
      CoresUpdate(chips, c, chips[c].WithSlot(j, Some(w)));
      chips := chips[c := chips[c].WithSlot(j, Some(w))];
      home := home[w := (c, j)];
      hand := None;
    }

    /** Reads the output queue of the chain. Every nonce that is checked belongs to an item that
        is still in the device's table. The source's test of the job number rejects nothing,
        so the device has to keep to 1, ..., 4. */
    method PollResults(replies: seq<Reply>) returns (submitted: seq<Id>, ranges: int)
      requires Valid() && forall k :: 0 <= k < |replies| ==> 1 <= replies[k].job <= 4
      modifies this`chips
      ensures Valid() && |chips| == |old(chips)|
      ensures forall c :: 0 <= c < |chips| ==> chips[c] == Answered(old(chips)[c], c, replies)
      ensures forall w :: w in submitted ==> w in queued
      ensures (submitted, -ranges) == Hits(old(chips), replies)
    {
      hide Owned, Cores, Accounted, Hits, Target, Answered, Kind;
      ghost var before := chips;
      NoHits(before, replies);
      forall c | 0 <= c < |chips|
        ensures Answered(before[c], c, replies[..0]) == before[c]
      {
        NoAnswers(before[c], c, replies);
      }
      submitted, ranges := [], 0;
      for k := 0 to |replies|
        invariant Valid() && |chips| == |old(chips)|
        invariant forall c :: 0 <= c < |chips| ==> chips[c] == Answered(before[c], c, replies[..k])
        invariant forall w :: w in submitted ==> w in queued
        invariant (submitted, -ranges) == Hits(before, replies[..k])
      {
        var r := replies[k];
        NextHit(before, replies, k);
        TargetSameWork(before, chips, r);
        TargetIs(chips, r);
        forall c | 0 <= c < |chips|
          ensures Answered(before[c], c, replies[..k + 1])
                  == if r.chip != c + 1 then chips[c]
                     else if chips[c].At(r.job - 1).None? then chips[c].(stales := chips[c].stales + 1)
                     else if r.valid then chips[c].(noncesFound := chips[c].noncesFound + 1)
                     else chips[c].(hwErrors := chips[c].hwErrors + 1)
        {
          AnsweredStep(before[c], c, replies, k);
          KindIs(before[c], r);
        }
        if 1 <= r.chip <= |chips| {
          var c := r.chip - 1;
          ShapedChip(c);
          match chips[c].At(r.job - 1) {
            case None =>
              UpdateChip(c, chips[c].(stales := chips[c].stales + 1));
            case Some(w) =>
              LoadedInTable(c, r.job - 1);
              submitted := submitted + [w];
              if r.valid {
                UpdateChip(c, chips[c].(noncesFound := chips[c].noncesFound + 1));
              } else {
                UpdateChip(c, chips[c].(hwErrors := chips[c].hwErrors + 1));
                ranges := ranges - 1;
              }
          }
        }
      }
      assert replies[..|replies|] == replies;
    }

    lemma KindIs(chip: Chip, r: Reply)
      requires r.job >= 1
      ensures Kind(chip, r) == if chip.At(r.job - 1).None? then 0 else if r.valid then 1 else 2
    {
    }

    lemma LoadedInTable(c: nat, j: nat)
      requires Consistent() && c < |chips| && chips[c].At(j).Some?
      ensures chips[c].At(j).value in queued
    {
    }

    /** Gives new work to every chip that has room, the last chip first: a chip gets the item
        that is its turn, counting the chips after it that took one. */
    method ScanChips(answers: seq<ChipAnswer>) returns (ranges: nat)
      requires Valid() && |answers| == |chips|
      modifies this`chips, this`activeWq, this`numElems, this`queued, this`queuedCount
      modifies this`home, this`hand, this`completed
      ensures Valid() && |chips| == |old(chips)|
      ensures |activeWq| <= |old(activeWq)| && activeWq == old(activeWq)[|old(activeWq)| - |activeWq|..]
      ensures old(completed) <= completed && ranges <= |completed| - |old(completed)|
      ensures ranges == Finished(old(chips), answers, |chips|, |old(activeWq)|)
      ensures forall c :: 0 <= c < |chips| ==>
                && chips[c] == Scanned(old(chips)[c], answers[c], old(activeWq), |Takers(old(chips), answers, c + 1)|)
                && Takers(old(chips), answers, c + 1)
                   == set d: nat | c + 1 <= d < |chips| && !old(chips)[d].disabled && old(chips)[d].cooldownBegin == 0
                                   && answers[d].readOk && answers[d].state % 4 < 2
    {
      hide *;
      ghost var before, items := chips, activeWq;
      ranges := ScanDown(answers);
      forall c: nat | c <= |chips|
        ensures Takers(before, answers, c)
                == set d: nat | c <= d < |chips| && !before[d].disabled && before[d].cooldownBegin == 0
                                && answers[d].readOk && answers[d].state % 4 < 2
      {
        TakersAre(before, answers, c);
      }
      forall c | 0 <= c < |chips|
        ensures Turn(before, answers, items, c)
                == Scanned(before[c], answers[c], items, |Takers(before, answers, c + 1)|)
      {
        TurnIs(before, answers, items, c);
      }
    }

    method ScanDown(answers: seq<ChipAnswer>) returns (ranges: nat)
      requires Valid() && |answers| == |chips|
      modifies this`chips, this`activeWq, this`numElems, this`queued, this`queuedCount
      modifies this`home, this`hand, this`completed
      ensures Valid() && |chips| == |old(chips)|
      ensures |activeWq| <= |old(activeWq)| && activeWq == old(activeWq)[|old(activeWq)| - |activeWq|..]
      ensures old(completed) <= completed && ranges <= |completed| - |old(completed)|
      ensures ranges == Finished(old(chips), answers, |chips|, |old(activeWq)|)
      ensures forall c :: 0 <= c < |chips| ==> chips[c] == Turn(old(chips), answers, old(activeWq), c)
    {
      hide *;
      ranges := 0;
      ghost var before, items, log := chips, activeWq, completed;
      NotStarted(answers);
      var i := |chips|;
      while i > 0
        invariant 0 <= i <= |answers| && Midway(i, before, answers, items, log, ranges)
      {
        i := i - 1;
        var finished := ScanNext(i, answers, before, items, log, ranges);
        if finished {
          ranges := ranges + 1;
        }
      }
      ScanDone(before, answers, items, log, ranges);
    }

    /** The state of a scan that still has the first `i` chips before it. */
    ghost predicate Midway(i: nat, before: seq<Chip>, answers: seq<ChipAnswer>, items: seq<Id>, log: seq<Id>,
                           ranges: nat)
      reads this
    {
      && i <= |chips| == |before| == |answers| && Valid()
      && Waiting(items, |Takers(before, answers, i)|) == activeWq
      && log <= completed && ranges <= |completed| - |log|
      && (forall c :: 0 <= c < i ==> chips[c] == before[c])
      && (forall c :: i <= c < |chips| ==> chips[c] == Turn(before, answers, items, c))
      && ranges + Finished(before, answers, i, |activeWq|) == Finished(before, answers, |before|, |items|)
    }

    lemma NotStarted(answers: seq<ChipAnswer>)
      requires Valid() && |answers| == |chips|
      ensures Midway(|chips|, chips, answers, activeWq, completed, 0)
    {
      hide Valid, Takers, Waiting, Finished, Turn;
      NoTakers(chips, answers);
      WaitingIs(activeWq, 0);
    }

    lemma ScanDone(before: seq<Chip>, answers: seq<ChipAnswer>, items: seq<Id>, log: seq<Id>, ranges: nat)
      requires Midway(0, before, answers, items, log, ranges)
      ensures Valid() && |chips| == |before| == |answers|
      ensures |activeWq| <= |items| && activeWq == items[|items| - |activeWq|..]
      ensures log <= completed && ranges <= |completed| - |log|
      ensures ranges == Finished(before, answers, |chips|, |items|)
      ensures forall c :: 0 <= c < |chips| ==> chips[c] == Turn(before, answers, items, c)
    {
      hide Valid, Takers, Waiting, Finished, Turn;
      NoneFinished(before, answers, |activeWq|);
      WaitingIs(items, |Takers(before, answers, 0)|);
    }

    method ScanNext(c: nat, answers: seq<ChipAnswer>, ghost before: seq<Chip>, ghost items: seq<Id>,
                    ghost log: seq<Id>, ghost ranges: nat)
      returns (finished: bool)
      requires c < |answers| && Midway(c + 1, before, answers, items, log, ranges)
      modifies this`chips, this`activeWq, this`numElems, this`queued, this`queuedCount
      modifies this`home, this`hand, this`completed
      ensures Midway(c, before, answers, items, log, ranges + if finished then 1 else 0)
    {
      hide Valid, Takers, Waiting, Finished, Turn, Scanned, Takes;
      ghost var k := |Takers(before, answers, c + 1)|;
      ValidChip(c);
      NextFinished(before, answers, c, |activeWq|);
      TakersStep(before, answers, c);
      WaitingIs(items, k);
      finished := ScanChip(c, answers[c]);
      ValidChip(c);
      ScannedIs(before[c], chips[c], answers[c], items, k);
      TurnIs(before, answers, items, c);
    }

    /** What is left of a queue after `k` chips asked for an item. */
    function Waiting(items: seq<Id>, k: nat): seq<Id> {
      if k < |items| then items[k..] else []
    }

    lemma WaitingIs(items: seq<Id>, k: nat)
      ensures var left := Waiting(items, k);
              && |left| <= |items| && left == items[|items| - |left|..]
              && Waiting(items, k + 1) == (if left == [] then [] else left[1..])
              && (left != [] <==> k < |items|) && (left != [] ==> left[0] == items[k])
      ensures Waiting(items, 0) == items
    {
    }

    method ScanChip(c: nat, a: ChipAnswer) returns (finished: bool)
      requires Valid() && c < |chips|
      modifies this`chips, this`activeWq, this`numElems, this`queued, this`queuedCount
      modifies this`home, this`hand, this`completed
      ensures Valid() && |chips| == |old(chips)|
      ensures activeWq == old(activeWq) || (old(activeWq) != [] && activeWq == old(activeWq)[1..])
      ensures old(completed) <= completed && (finished ==> |completed| > |old(completed)|)
      ensures forall i :: 0 <= i < |chips| && i != c ==> chips[i] == old(chips)[i]
      ensures old(chips)[c].disabled || old(chips)[c].cooldownBegin != 0 ==> chips == old(chips)
      ensures old(chips)[c].disabled || old(chips)[c].cooldownBegin != 0 || !a.readOk || a.state % 4 >= 2
              || old(activeWq) == [] ==>
                && (var was := old(chips)[c];
                    chips[c] == was.(cooldownBegin := if was.disabled || was.cooldownBegin != 0 || a.readOk
                                                      then was.cooldownBegin else a.now))
                && (forall i: nat :: chips[c].At(i) == old(chips)[c].At(i))
                && activeWq == old(activeWq) && queued == old(queued) && completed == old(completed) && !finished
      ensures !old(chips)[c].disabled && old(chips)[c].cooldownBegin == 0 && a.readOk && a.state % 4 < 2
              && old(activeWq) != [] ==>
                var w, j := old(activeWq)[0], old(chips)[c].lastQueued;
                && activeWq == old(activeWq)[1..]
                && chips[c].At(j) == (if a.writeOk then Some(w) else None)
                && (forall i: nat :: i != j ==> chips[c].At(i) == old(chips)[c].At(i))
                && finished == old(chips)[c].At(j).Some?
                && chips[c] == old(chips)[c].(
                                 work := chips[c].work, lastQueued := if a.writeOk then (j + 1) % 4 else j,
                                 cooldownBegin := if a.writeOk then 0 else a.now,
                                 rangesDone := old(chips)[c].rangesDone + if finished then 1 else 0)
                && completed == old(completed) + (if finished then [old(chips)[c].At(j).value] else [])
                                + (if a.writeOk then [] else [w])
    {
      hide Owned, Cores, Accounted, Consistent;
      finished := false;
      ShapedChip(c);
      if chips[c].Inactive() {
        return;
      }
      if !a.readOk {
        DisableChip(c, a.now);
        return;
      }
      if a.state % 4 >= 2 {
        return;
      }
      var work := Dequeue();
      if work.Some? {
        finished := SetWork(c, work.value, a.writeOk, a.now);
        if finished {
          ShapedChip(c);
          UpdateChip(c, chips[c].(rangesDone := chips[c].rangesDone + 1));
        }
      }
    }

    /** Chips that have cooled down are tried again; one that fails too often is given up, and
        its cores no longer count. */
    method CheckDisabled(checks: seq<Recheck>)
      requires Valid() && |checks| == |chips|
      modifies this`chips, this`numCores
      ensures Valid() && |chips| == |old(chips)|
      ensures forall c :: 0 <= c < |chips| ==>
                chips[c] == Rechecked(old(chips)[c], checks[c])
    {
      hide Owned, Cores, Accounted, Rechecked;
      for c := 0 to |chips|
        invariant Valid() && |chips| == |old(chips)|
        invariant forall k :: c <= k < |chips| ==> chips[k] == old(chips)[k]
        invariant forall k :: 0 <= k < c ==> chips[k] == Rechecked(old(chips)[k], checks[k])
      {
        CheckChip(c, checks[c]);
      }
    }

    /** What a recheck makes of a chip. */
    function Rechecked(was: Chip, r: Recheck): Chip {
      if was.disabled || was.cooldownBegin == 0 || r.now < was.cooldownBegin + COOLDOWN_MS then was
      else if r.readOk then was.(cooldownBegin := 0, failCount := 0)
      else if was.failCount < FAIL_THRESHOLD then was.(failCount := was.failCount + 1, cooldownBegin := r.now)
      else was.(failCount := was.failCount + 1, disabled := true)
    }

    method CheckChip(c: nat, r: Recheck)
      requires Valid() && c < |chips|
      modifies this`chips, this`numCores
      ensures Valid() && |chips| == |old(chips)|
      ensures forall k :: 0 <= k < |chips| && k != c ==> chips[k] == old(chips)[k]
      ensures chips[c] == Rechecked(old(chips)[c], r)
      ensures var was := old(chips)[c];
              var due := !was.disabled && was.cooldownBegin != 0 && was.cooldownBegin + COOLDOWN_MS <= r.now;
              && (!due ==> chips == old(chips) && numCores == old(numCores))
              && (due && r.readOk ==>
                    chips[c] == was.(cooldownBegin := 0, failCount := 0) && numCores == old(numCores))
              && (due && !r.readOk && was.failCount < FAIL_THRESHOLD ==>
                    chips[c] == was.(cooldownBegin := r.now, failCount := was.failCount + 1)
                    && numCores == old(numCores))
              && (due && !r.readOk && was.failCount >= FAIL_THRESHOLD ==>
                    chips[c] == was.(disabled := true, failCount := was.failCount + 1)
                    && numCores == old(numCores) - was.numCores)
    {
      hide Owned, Cores, Accounted;
      ShapedChip(c);
      var chip := chips[c];
      if !chip.Inactive() || chip.disabled || chip.cooldownBegin + COOLDOWN_MS > r.now {
        return;
      }
      if r.readOk {
        UpdateChip(c, chip.(cooldownBegin := 0, failCount := 0));
      } else if chip.failCount + 1 > FAIL_THRESHOLD {
        var dead := chip.(failCount := chip.failCount + 1, disabled := true);
        OwnedSameSlots(chips, activeWq, home, hand, queued, c, dead);
        CoresUpdate(chips, c, dead);
        chips := chips[c := dead];
        numCores := numCores - chip.numCores;
      } else {
        UpdateChip(c, chip.(failCount := chip.failCount + 1, cooldownBegin := r.now));
      }
    }

    /** One scan: results first, then new work, then the chips that were cooling down. */
    method ScanWork(replies: seq<Reply>, answers: seq<ChipAnswer>, checks: seq<Recheck>)
      returns (submitted: seq<Id>, ranges: nat)
      requires Valid() && |answers| == |checks| == |chips|
      requires forall k :: 0 <= k < |replies| ==> 1 <= replies[k].job <= 4
      modifies this`chips, this`activeWq, this`numElems, this`queued, this`queuedCount
      modifies this`home, this`hand, this`completed, this`numCores
      ensures Valid() && |chips| == |old(chips)|
      ensures ranges == Max(0, Finished(old(chips), answers, |chips|, |old(activeWq)|) - Hits(old(chips), replies).1)
      ensures submitted == Hits(old(chips), replies).0 && forall w :: w in submitted ==> w in old(queued)
      ensures |activeWq| <= |old(activeWq)| && activeWq == old(activeWq)[|old(activeWq)| - |activeWq|..]
      ensures old(completed) <= completed
      ensures forall c :: 0 <= c < |chips| ==>
                var k, was := |Takers(old(chips), answers, c + 1)|, Answered(old(chips)[c], c, replies);
                chips[c] == Rechecked(Scanned(was, answers[c], old(activeWq), k), checks[c])
    {
      hide Owned, Cores, Accounted, Takers, Scanned, Answered, Rechecked, Finished, Hits;
      var errors, done;
      ghost var before := chips;
      submitted, errors := PollResults(replies);
      FinishedSame(chips, before, answers, |chips|, |activeWq|);
      forall c: nat | c <= |chips|
        ensures Takers(chips, answers, c) == Takers(before, answers, c)
      {
        TakersSame(chips, before, answers, c);
      }
      done := ScanChips(answers);
      CheckDisabled(checks);
      ranges := if errors + done < 0 then 0 else errors + done;
    }

    /** Gives back everything: the loaded items chip by chip, then the queue. */
    method FlushWork()
      requires Valid()
      modifies this`chips, this`activeWq, this`numElems, this`queued, this`queuedCount
      modifies this`home, this`hand, this`completed
      ensures Valid() && |chips| == |old(chips)|
      ensures activeWq == [] && queued == {}
      ensures forall c, j: nat :: 0 <= c < |chips| ==> chips[c].At(j) == None
      ensures forall c :: 0 <= c < |chips| ==> chips[c] == old(chips)[c].(work := chips[c].work, lastQueued := 0)
      ensures old(completed) <= completed
      ensures forall w :: w in admitted <==> w in completed
    {
      hide Owned, Cores;
      for c := 0 to |chips|
        invariant Valid() && |chips| == |old(chips)| && old(completed) <= completed
        invariant forall k, j: nat :: 0 <= k < c ==> chips[k].At(j) == None
        invariant forall k :: 0 <= k < c ==> chips[k] == old(chips)[k].(work := chips[k].work, lastQueued := 0)
        invariant forall k :: c <= k < |chips| ==> chips[k] == old(chips)[k]
      {
        FlushChip(c);
      }
      while numElems > 0
        invariant Valid() && |chips| == |old(chips)| && old(completed) <= completed
        invariant forall k, j: nat :: 0 <= k < |chips| ==> chips[k].At(j) == None
        invariant forall k :: 0 <= k < |chips| ==> chips[k] == old(chips)[k].(work := chips[k].work, lastQueued := 0)
        decreases numElems
      {
        var w := Dequeue();
        ReleaseHand(w.value);
      }
      NothingHeld();
    }

    lemma NothingHeld()
      requires Valid() && activeWq == [] && forall k, j: nat :: 0 <= k < |chips| ==> chips[k].At(j) == None
      ensures queued == {}
    {
    }

    method FlushChip(c: nat)
      requires Valid() && c < |chips|
      modifies this`chips, this`queued, this`queuedCount, this`home, this`completed
      ensures Valid() && |chips| == |old(chips)| && old(completed) <= completed
      ensures forall k :: 0 <= k < |chips| && k != c ==> chips[k] == old(chips)[k]
      ensures forall j: nat :: chips[c].At(j) == None
      ensures chips[c] == old(chips)[c].(work := chips[c].work, lastQueued := 0)
    {
      hide Owned, Cores, Accounted;
      for j := 0 to SLOTS
        invariant Valid() && |chips| == |old(chips)| && old(completed) <= completed
        invariant forall k :: 0 <= k < |chips| && k != c ==> chips[k] == old(chips)[k]
        invariant forall i: nat :: i < j ==> chips[c].At(i) == None
        invariant chips[c] == old(chips)[c].(work := chips[c].work)
      {
        var _ := EmptySlot(c, j);
      }
      ShapedChip(c);
      assert forall j: nat :: chips[c].At(j) == None;
      UpdateChip(c, chips[c].(lastQueued := 0));
    }
  }
}

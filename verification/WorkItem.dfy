/** Work items, rolled to get more work out of one header: adding one to the block time of a
    header gives new work. The item that keeps rolling is the master, what it emits are clones. */
module WorkItem {
  import opened Basics
  import opened Ntime

  const MAX_ROLLS := 7000

  class Work {
    var id: nat
    var bytes: Four
    var ntime: Option<string>
    var rolls: nat
    var clone: bool
    var stratum: bool
    var rolltime: int
    var pool: Option<int>
    var stagedAt: int

    /** When the time is also kept as digits, the digits show the header bytes. */
    ghost predicate Valid()
      reads this`bytes, this`ntime
    {
      ntime.Some? ==> ntime.value == Hex(bytes)
    }

    function Time(): Word
      reads this`bytes
    {
      FromBytes(bytes)
    }

    predicate Rollable()
      reads this`clone, this`rolltime
    {
      !clone && rolltime != 0
    }

    /** Whether rolling is allowed; staleness is decided elsewhere. */
    predicate CanRoll(stale: bool)
      reads this`stratum, this`pool, this`rolltime, this`clone, this`rolls
    {
      !stratum && pool.Some? && rolltime != 0 && !clone && rolls < MAX_ROLLS && !stale
    }

    constructor (id: nat, bytes: Four, ntime: Option<string>, rolls: nat, clone: bool, stratum: bool, rolltime: int,
                 pool: Option<int>, stagedAt: int)
      ensures this.id == id && this.bytes == bytes && this.ntime == ntime && this.rolls == rolls
      ensures this.clone == clone && this.stratum == stratum && this.rolltime == rolltime
      ensures this.pool == pool && this.stagedAt == stagedAt
    {
      this.id, this.bytes, this.ntime, this.rolls := id, bytes, ntime, rolls;
      this.clone, this.stratum, this.rolltime, this.pool, this.stagedAt := clone, stratum, rolltime, pool, stagedAt;
    }

    /** Adds one second to the header and takes a new id. */
    method Roll(newId: nat)
      requires Valid()
      modifies this`id, this`bytes, this`ntime, this`rolls
      ensures Valid() && rolls == old(rolls) + 1 && id == newId
      ensures Time() == Shifted(old(Time()), 1)
      ensures ntime.Some? <==> old(ntime.Some?)
    {
      hide Hex, ShiftHex, ToBytes, FromBytes;
      FromToBytes(Shifted(Time(), 1));
      ShiftHexTracksBytes(bytes, 1);
      bytes := ToBytes(Shifted(FromBytes(bytes), 1));
      rolls := rolls + 1;
      if ntime.Some? {
        ntime := Some(ShiftHex(ntime.value, 1));
      }
      id := newId;
    }

    /** A copy with its own id, `offset` seconds later than the original. */
    method CopyOffset(newId: nat, offset: int) returns (copy: Work)
      requires Valid()
      ensures fresh(copy) && copy.Valid() && copy.id == newId
      ensures copy.Time() == Shifted(Time(), offset)
      ensures copy.rolls == rolls && copy.clone == clone && copy.stratum == stratum
      ensures copy.rolltime == rolltime && copy.pool == pool && copy.stagedAt == stagedAt
      ensures copy.ntime.Some? <==> ntime.Some?
    {
      hide Hex, ShiftHex, ToBytes, FromBytes;
      FromToBytes(Shifted(Time(), offset));
      ShiftHexTracksBytes(bytes, offset);
      var newBytes, newTime := bytes, ntime;
      if offset != 0 {
        newBytes := ToBytes(Shifted(FromBytes(bytes), offset));
        if ntime.Some? {
          newTime := Some(ShiftHex(ntime.value, offset));
        }
      }
      copy := new Work(newId, newBytes, newTime, rolls, clone, stratum, rolltime, pool, stagedAt);
    }

    /** A clone is not rolled itself, and counts as one second older than its master. */
    method MakeClone(newId: nat) returns (copy: Work)
      requires Valid()
      ensures fresh(copy) && copy.Valid() && copy.clone && copy.id == newId
      ensures copy.Time() == Time() && copy.stagedAt == stagedAt - 1 && copy.pool == pool
      ensures copy.rolltime == rolltime
    {
      copy := CopyOffset(newId, 0);
      copy.clone := true;
      copy.stagedAt := copy.stagedAt - 1;
    }

    /** A clone with a given time. */
    ghost predicate IsCloneAt(time: Word)
      reads this`bytes, this`ntime, this`clone
    {
      Valid() && clone && Time() == time
    }

    /** Emits clones while more are wanted and rolling is allowed. The first clone has the
        time of the master as it was; each later one comes between two rolls. `allow` is the
        environment's answer to the staleness and expiry tests of each round. */
    method CloneWork(wanted: int, allow: seq<bool>, nextId: nat) returns (clones: seq<Work>)
      requires Valid()
      requires wanted >= 0 ==> |allow| >= wanted
      modifies this`id, this`bytes, this`ntime, this`rolls
      ensures Valid() && |clones| != 1
      ensures clones == [] ==> rolls == old(rolls)
      ensures clones != [] ==> old(CanRoll(false)) && rolls == old(rolls) + 2 * (|clones| - 1) <= MAX_ROLLS + 1
      ensures clones != [] ==> Enabled(Run(old(rolls), []), Cloned(|clones| - 1))
      ensures var rounds := (rolls - old(rolls)) / 2;
              && rolls == old(rolls) + 2 * rounds && 0 <= rounds <= Max(0, wanted)
              && |clones| == (if rounds == 0 then 0 else rounds + 1)
              && (forall k :: 0 <= k < rounds ==> allow[k] && old(rolls) + 2 * k < MAX_ROLLS)
              && (rounds > 0 ==> !stratum && pool.Some? && rolltime != 0 && !clone)
              && (rounds < wanted ==>
                    !allow[rounds] || stratum || pool.None? || rolltime == 0 || clone || rolls >= MAX_ROLLS)
      ensures Time() == Shifted(old(Time()), rolls - old(rolls))
      ensures forall i :: 0 <= i < |clones| ==> clones[i].IsCloneAt(Shifted(old(Time()), CloneOffset(i)))
      ensures forall i :: 0 <= i < |clones| ==>
                && clones[i].Valid() && clones[i].clone
                && clones[i].Time() == Shifted(old(Time()), if i == 0 then 0 else 2 * i - 1)
                && clones[i].stagedAt == stagedAt - 1 && clones[i].pool == pool && clones[i].rolltime == rolltime
                && clones[i].id == (if i == 0 then nextId else nextId + 3 * i - 1)
      ensures id == if clones == [] then old(id) else nextId + 3 * (|clones| - 1)
    {
      hide Shifted, Valid, Time;
      ghost var start, startRolls := Time(), rolls;
      ShiftedZero(start);
      clones := [];
      if wanted < 1 {
        return;
      }
      var copy := MakeClone(nextId);
      AsClone(copy, start);
      var round: nat := 0;
      while round < wanted && CanRoll(!allow[round])
        invariant 0 <= round <= wanted
        invariant Valid() && rolls == startRolls + 2 * round && |clones| == round
        invariant round > 0 ==> old(CanRoll(false)) && rolls <= MAX_ROLLS + 1
        invariant forall k :: 0 <= k < round ==> allow[k] && startRolls + 2 * k < MAX_ROLLS
        invariant Time() == Shifted(start, 2 * round)
        invariant copy != this && copy.IsCloneAt(Shifted(start, CloneOffset(round)))
        invariant copy.stagedAt == stagedAt - 1 && copy.pool == pool && copy.rolltime == rolltime
        invariant copy.id == (if round == 0 then nextId else nextId + 3 * round - 1)
        invariant id == if round == 0 then old(id) else nextId + 3 * round
        invariant forall i :: 0 <= i < |clones| ==>
                    && clones[i].stagedAt == stagedAt - 1 && clones[i].pool == pool && clones[i].rolltime == rolltime
                    && clones[i].id == (if i == 0 then nextId else nextId + 3 * i - 1)
        invariant forall i :: 0 <= i < |clones| ==>
                    clones[i] != this && clones[i].IsCloneAt(Shifted(start, CloneOffset(i)))
      {
        clones := clones + [copy];
        copy := RollCloneRoll(nextId + 3 * round + 1);
        ShiftedTwice(start, 2 * round, 1);
        ShiftedTwice(start, 2 * round, 2);
        round := round + 1;
      }
      if round > 0 {
        clones := clones + [copy];
      }
    }

    lemma AsClone(copy: Work, start: Word)
      requires copy.Valid() && copy.clone && copy.Time() == start
      ensures copy.IsCloneAt(Shifted(start, CloneOffset(0)))
    {
      ShiftedZero(start);
    }

    method RollCloneRoll(nextId: nat) returns (copy: Work)
      requires Valid()
      modifies this`id, this`bytes, this`ntime, this`rolls
      ensures Valid() && rolls == old(rolls) + 2 && copy.id == nextId + 1 && id == nextId + 2
      ensures fresh(copy) && copy.IsCloneAt(Shifted(old(Time()), 1)) && Time() == Shifted(old(Time()), 2)
      ensures copy.stagedAt == stagedAt - 1 && copy.pool == pool && copy.rolltime == rolltime
    {
      ghost var start := Time();
      Roll(nextId);
      copy := MakeClone(nextId + 1);
      Roll(nextId + 2);
      ShiftedTwice(start, 1, 1);
    }
  }

  /** How far clone `i` of one call is ahead of the master at the start of the call. */
  function CloneOffset(i: nat): nat {
    if i == 0 then 0 else 2 * i - 1
  }

  // ----- whole runs on one master

  /** Every emission is one of these; `round` counts from 1. */
  datatype Step = Available | Cloned(rounds: nat)

  /** Rolls done so far, and the offsets of all clones from the time the master began with. */
  datatype Run = Run(rolls: nat, emitted: seq<nat>)

  ghost predicate Enabled(r: Run, step: Step) {
    match step
    case Available => r.rolls < MAX_ROLLS
    case Cloned(rounds) => rounds > 0 && r.rolls + 2 * (rounds - 1) < MAX_ROLLS
  }

  function After(r: Run, step: Step): Run {
    match step
    case Available => Run(r.rolls + 2, r.emitted + [r.rolls + 1])
    case Cloned(rounds) =>
      Run(r.rolls + 2 * rounds, r.emitted + seq(rounds + 1, i requires 0 <= i => r.rolls + CloneOffset(i)))
  }

  ghost predicate Reachable(r: Run, steps: seq<Step>)
    decreases |steps|
  {
    if steps == [] then r == Run(0, [])
    else
      var last := |steps| - 1;
      exists p :: Reachable(p, steps[..last]) && Enabled(p, steps[last]) && r == After(p, steps[last])
  }

  ghost predicate Sound(r: Run) {
    && Distinct(r.emitted) && r.rolls <= MAX_ROLLS + 1
    && forall i :: 0 <= i < |r.emitted| ==> r.emitted[i] < r.rolls
  }

  lemma StepKeepsSound(r: Run, step: Step)
    requires Sound(r) && Enabled(r, step)
    ensures Sound(After(r, step))
  {
    match step
    case Available =>
    case Cloned(rounds) =>
      var more := seq(rounds + 1, i requires 0 <= i => r.rolls + CloneOffset(i));
      assert Distinct(more);
      assert forall i :: 0 <= i < |more| ==> r.rolls <= more[i] < r.rolls + 2 * rounds;
  }

  /** In every reachable run no two clones have the same offset, the master is ahead of all of
      them, and it has rolled at most 7001 times. */
  lemma {:induction false} RunsNeverRepeat(r: Run, steps: seq<Step>)
    requires Reachable(r, steps)
    ensures Sound(r)
    ensures r.rolls <= 7001
    ensures forall i, j :: 0 <= i < j < |r.emitted| ==> r.emitted[i] != r.emitted[j] && r.emitted[i] < r.rolls
    decreases |steps|
  {
    if steps != [] {
      var last := |steps| - 1;
      var p :| Reachable(p, steps[..last]) && Enabled(p, steps[last]) && r == After(p, steps[last]);
      RunsNeverRepeat(p, steps[..last]);
      StepKeepsSound(p, steps[last]);
    }
  }

  /** So all emitted headers have different times, even when the 32-bit time wraps, and they
      differ from the master's own. */
  lemma RunHeadersDistinct(r: Run, steps: seq<Step>, start: Word, i: nat, j: nat)
    requires Reachable(r, steps) && i < |r.emitted| && j < |r.emitted| && i != j
    ensures Shifted(start, r.emitted[i]) != Shifted(start, r.emitted[j])
    ensures Shifted(start, r.emitted[i]) != Shifted(start, r.rolls)
  {
    RunsNeverRepeat(r, steps);
    var a, b := r.emitted[i], r.emitted[j];
    assert a != b by {
      assert if i < j then r.emitted[i] != r.emitted[j] else r.emitted[j] != r.emitted[i];
    }
    ShiftedInjective(start, Min(a, b), Max(a, b));
    ShiftedInjective(start, a, r.rolls);
  }

  /** The master's time is a greater number than a clone's exactly when the 32-bit time did
      not wrap between the two. */
  lemma MasterAheadIff(r: Run, steps: seq<Step>, start: Word, i: nat)
    requires Reachable(r, steps) && i < |r.emitted|
    ensures Shifted(start, r.emitted[i]) < Shifted(start, r.rolls)
            <==> !(start + r.emitted[i] < MODULUS <= start + r.rolls)
  {
    RunsNeverRepeat(r, steps);
    AheadIff(start, r.emitted[i], r.rolls);
  }

  lemma AheadIff(start: Word, a: nat, b: nat)
    requires a < b < MODULUS
    ensures Shifted(start, a) < Shifted(start, b) <==> !(start + a < MODULUS <= start + b)
  {
  }
}

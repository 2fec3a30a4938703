/** The Merkle tree of a block, and the path of siblings that is all a miner needs to
    keep in order to recompute the root for a new coinbase transaction.

    The double SHA-256 is a parameter `genHash`: nothing below depends on what it computes. */
module Merkle {
  import opened Basics

  type Hash = h: ByteString | |h| == 32 witness Zeros(32)

  type HashFunction = ByteString -> Hash

  /** A level with an odd number of nodes gets a second copy of its last node. */
  function PadEven(level: seq<Hash>): (r: seq<Hash>)
    requires |level| > 0
    ensures |r| % 2 == 0 && |level| <= |r| <= |level| + 1
  {
    if |level| % 2 == 0 then level else level + [level[|level| - 1]]
  }

  /** The node above slots 2i and 2i+1. */
  function Above(genHash: HashFunction, level: seq<Hash>, i: nat): Hash
    requires 2 * i + 1 < |level|
  {
    genHash(level[2 * i][..] + level[2 * i + 1])
  }

  function LevelUp(genHash: HashFunction, level: seq<Hash>): (r: seq<Hash>)
    requires |level| % 2 == 0
    ensures |r| == |level| / 2
  {
    seq(|level| / 2, i requires 0 <= i < |level| / 2 => Above(genHash, level, i))
  }

  /** The reference: the root of the full tree over `leaves`. */
  function Root(genHash: HashFunction, leaves: seq<Hash>): Hash
    requires |leaves| > 0
    decreases |leaves|
  {
    if |leaves| == 1 then leaves[0] else Root(genHash, LevelUp(genHash, PadEven(leaves)))
  }

  /** What the work generators compute: fold one hash over a list of right siblings. */
  function Fold(genHash: HashFunction, acc: Hash, path: seq<Hash>): Hash
    decreases |path|
  {
    if path == [] then acc else Fold(genHash, genHash(acc + path[0]), path[1..])
  }

  /** The right siblings of slot 0, from the other nodes of its level: slot 0 itself is
      not an argument, so no placeholder stored there can reach the path. */
  function Path(genHash: HashFunction, others: seq<Hash>): seq<Hash>
    decreases |others|
  {
    if others == [] then [] else [others[0]] + Path(genHash, NextOthers(genHash, others))
  }

  /** The nodes of the next level, without its slot 0. */
  function NextOthers(genHash: HashFunction, others: seq<Hash>): (r: seq<Hash>)
    requires |others| > 0
    ensures |r| == |others| / 2
  {
    LevelUp(genHash, (if |others| % 2 == 0 then PadEven(others[1..]) else others[1..]))
  }

  // ----- what the tree and the fold are, without their levels

  /** The last hash of the path is the last one to be joined, on the right. */
  lemma {:induction false} FoldLast(genHash: HashFunction, acc: Hash, path: seq<Hash>, h: Hash)
    ensures Fold(genHash, acc, path + [h]) == genHash(Fold(genHash, acc, path) + h)
    decreases |path|
  {
    if path != [] {
      FoldLast(genHash, genHash(acc + path[0]), path[1..], h);
      assert (path + [h])[1..] == path[1..] + [h];
    }
  }

  /** The root over two full halves is the hash of their roots, left one first. */
  lemma {:induction false} RootOfHalves(genHash: HashFunction, l: seq<Hash>, r: seq<Hash>, k: nat)
    requires |l| == |r| == Pow(2, k)
    ensures |l| > 0 && Root(genHash, l + r) == genHash(Root(genHash, l) + Root(genHash, r))
    decreases k
  {
    hide *;
    PowStep(2, k);
    if k == 0 {
      RootOfTwo(genHash, l, r);
    } else {
      RootUp(genHash, l);
      RootUp(genHash, r);
      RootUp(genHash, l + r);
      LevelUpConcat(genHash, l, r);
      RootOfHalves(genHash, LevelUp(genHash, l), LevelUp(genHash, r), k - 1);
    }
  }

  lemma RootOfTwo(genHash: HashFunction, l: seq<Hash>, r: seq<Hash>)
    requires |l| == |r| == 1
    ensures Root(genHash, l) == l[0] && Root(genHash, r) == r[0]
    ensures Root(genHash, l + r) == genHash(l[0][..] + r[0])
  {
    assert LevelUp(genHash, l + r) == [genHash(l[0][..] + r[0])];
  }

  lemma RootUp(genHash: HashFunction, leaves: seq<Hash>)
    requires |leaves| % 2 == 0 && |leaves| > 0
    ensures Root(genHash, leaves) == Root(genHash, LevelUp(genHash, leaves))
  {
  }

  lemma LevelUpConcat(genHash: HashFunction, l: seq<Hash>, r: seq<Hash>)
    requires |l| % 2 == 0 && |r| % 2 == 0
    ensures LevelUp(genHash, l + r) == LevelUp(genHash, l) + LevelUp(genHash, r)
  {
    var h := |l| / 2;
    forall i | 0 <= i < h + |r| / 2
      ensures LevelUp(genHash, l + r)[i] == (LevelUp(genHash, l) + LevelUp(genHash, r))[i]
    {
      if i >= h {
        assert (l + r)[2 * i] == r[2 * (i - h)] && (l + r)[2 * i + 1] == r[2 * (i - h) + 1];
      }
    }
  }

  /** An even number of full subtrees and one more: that last one counts twice. */
  lemma {:induction false} RootRepeatsLast(genHash: HashFunction, l: seq<Hash>, last: seq<Hash>, m: nat, k: nat)
    requires |last| == Pow(2, k) && |l| == m * Pow(2, k) && m > 0 && m % 2 == 0
    ensures |last| > 0 && Root(genHash, l + last) == Root(genHash, l + last + last)
    decreases k
  {
    hide *;
    PowStep(2, k);
    if k == 0 {
      PaddedRoot(genHash, l, last);
    } else {
      Doubled(m, Pow(2, k - 1), |l|);
      SameRootUp(genHash, l, last);
      RootRepeatsLast(genHash, LevelUp(genHash, l), LevelUp(genHash, last), m, k - 1);
    }
  }

  lemma SameRootUp(genHash: HashFunction, l: seq<Hash>, last: seq<Hash>)
    requires |l| % 2 == 0 && |last| % 2 == 0 && |last| > 0
    ensures var l', last' := LevelUp(genHash, l), LevelUp(genHash, last);
            && |last'| > 0 && Root(genHash, l + last) == Root(genHash, l' + last')
            && Root(genHash, l + last + last) == Root(genHash, l' + last' + last')
  {
    hide *;
    RootUp(genHash, l + last);
    RootUp(genHash, l + last + last);
    LevelUpConcat(genHash, l, last);
    LevelUpConcat(genHash, l + last, last);
  }

  lemma Doubled(m: nat, h: nat, n: nat)
    requires n == m * (2 * h) && m > 0 && h > 0
    ensures n / 2 == m * h && n % 2 == 0 && n > 0
  {
    var p := m * h;
    assert n == 2 * p;
  }

  lemma PaddedRoot(genHash: HashFunction, l: seq<Hash>, last: seq<Hash>)
    requires |l| % 2 == 0 && |l| > 0 && |last| == 1
    ensures Root(genHash, l + last) == Root(genHash, l + last + last)
  {
    assert PadEven(l + last) == l + last + last;
  }

  /** One level up commutes with leaving slot 0 out. */
  lemma NextOthersIsLevelUp(genHash: HashFunction, first: Hash, others: seq<Hash>)
    requires |others| > 0
    ensures LevelUp(genHash, PadEven([first] + others))
            == [genHash(first + others[0])] + NextOthers(genHash, others)
  {
    var whole := PadEven([first] + others);
    var rest := if |others| % 2 == 0 then PadEven(others[1..]) else others[1..];
    assert whole == [first, others[0]] + rest;
    var up := LevelUp(genHash, whole);
    assert |up| == 1 + |rest| / 2;
    assert forall i :: 1 <= i < |up| ==> up[i] == LevelUp(genHash, rest)[i - 1];
  }

  /** Folding any hash over the sibling path gives the root of the full tree in which that
      hash is the first leaf. */
  lemma {:induction false} FoldPathIsRoot(genHash: HashFunction, first: Hash, others: seq<Hash>)
    ensures Fold(genHash, first, Path(genHash, others)) == Root(genHash, [first] + others)
    decreases |others|
  {
    if others != [] {
      var first', others' := genHash(first + others[0]), NextOthers(genHash, others);
      FoldPathIsRoot(genHash, first', others');
      NextOthersIsLevelUp(genHash, first, others);
      var path := Path(genHash, others);
      assert path[1..] == Path(genHash, others');
    }
  }

  /** The path has ceil(log2(n + 1)) entries for n transactions. */
  lemma {:induction false} PathLength(genHash: HashFunction, others: seq<Hash>)
    ensures var k := |Path(genHash, others)|;
            |others| + 1 <= Pow(2, k) && (k > 0 ==> Pow(2, k - 1) < |others| + 1)
    decreases |others|
  {
    if others != [] {
      PathLength(genHash, NextOthers(genHash, others));
    }
  }

  lemma PowOf16()
    ensures Pow(2, 16) == 65536
  {
    assert Pow(2, 4) == 16 && Pow(2, 8) == 256 && Pow(2, 12) == 4096;
  }

  /** The pool keeps room for 16 path entries; they are enough exactly up to 65535
      transactions. */
  lemma PathFitsPoolBuffer(genHash: HashFunction, others: seq<Hash>)
    ensures |Path(genHash, others)| <= 16 <==> |others| <= 65535
  {
    var k := |Path(genHash, others)|;
    PathLength(genHash, others);
    PowOf16();
    if k <= 16 {
      PowMonotone(k, 16);
    } else {
      PowMonotone(16, k - 1);
    }
  }

  lemma {:induction false} PowMonotone(i: nat, j: nat)
    requires i <= j
    ensures Pow(2, i) <= Pow(2, j)
  {
    if i < j {
      PowMonotone(i, j - 1);
    }
  }
}

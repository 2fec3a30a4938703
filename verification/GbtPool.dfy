/** A pool that hands out block templates: the stored sibling path, the coinbase buffer with
    its nonce window, and the work built from them. */
module GbtPool {
  import opened Basics
  import opened Merkle
  import opened Coinbase

  /** The "hash" member of one transaction of a template, after hex decoding. */
  datatype TxnHash = Missing | Malformed | Given(shown: Hash)

  datatype TxnEntry = TxnEntry(data: Option<ByteString>, hash: TxnHash)

  const NONCE2_SPACE: nat := 0x1_0000_0000_0000_0000

  /** swab256: a hash is shown in the byte order opposite to the one it is stored in. */
  function Reversed(h: Hash): Hash {
    seq(32, i requires 0 <= i < 32 => h[31 - i])
  }

  ghost predicate WellFormed(txns: seq<TxnEntry>) {
    forall e :: e in txns ==> e.data.Some? && e.hash != Malformed
  }

  /** A template need not show hashes; then the miner computes them. */
  function LeafOf(genHash: HashFunction, e: TxnEntry): Hash
    requires e.data.Some? && e.hash != Malformed
  {
    match e.hash
    case Missing => genHash(e.data.value)
    case Given(shown) => Reversed(shown)
  }

  function Leaves(genHash: HashFunction, txns: seq<TxnEntry>): (r: seq<Hash>)
    requires WellFormed(txns)
    ensures |r| == |txns|
  {
    seq(|txns|, i requires 0 <= i < |txns| => LeafOf(genHash, txns[i]))
  }

  /** A computed leaf is the hash of the transaction; a given one is stored last byte first. */
  lemma LeafBytes(genHash: HashFunction, txns: seq<TxnEntry>, i: nat)
    requires WellFormed(txns) && i < |txns|
    ensures txns[i].hash == Missing ==> Leaves(genHash, txns)[i] == genHash(txns[i].data.value)
    ensures txns[i].hash.Given? ==>
              forall b :: 0 <= b < 32 ==> Leaves(genHash, txns)[i][b] == txns[i].hash.shown[31 - b]
  {
  }

  class Pool {
    var transactions: nat
    var merkles: nat
    var merklebin: seq<Hash>
    var coinbase: array<Byte>
    var coinbaseLen: nat
    var nonce2Offset: nat
    var n2size: nat
    var nonce2: nat

    /** The nonce window lies inside the coinbase and holds at most 8 bytes. */
    ghost predicate CoinbaseReady()
      reads this
    {
      && coinbaseLen <= coinbase.Length
      && n2size <= 8
      && nonce2Offset + n2size <= coinbaseLen
      && nonce2 < NONCE2_SPACE
    }

    ghost predicate PathReady()
      reads this
    {
      merkles <= |merklebin|
    }

    ghost function StoredPath(): seq<Hash>
      requires PathReady()
      reads this
    {
      merklebin[..merkles]
    }

    constructor ()
      ensures PathReady() && merkles == 0 && nonce2 == 0 && CoinbaseReady()
    {
      transactions, merkles, merklebin := 0, 0, [];
      coinbase := new Byte[0];
      coinbaseLen, nonce2Offset, n2size, nonce2 := 0, 0, 0, 0;
    }

    /** Stores the sibling path of slot 0 by reducing the level array in place. A template
        with missing data or an undecodable hash leaves an empty path. */
    method GbtMerkleBins(genHash: HashFunction, txns: seq<TxnEntry>)
      modifies this`transactions, this`merkles, this`merklebin
      ensures PathReady() && transactions == |txns|
      ensures !WellFormed(txns) ==> merkles == 0
      ensures WellFormed(txns) ==> StoredPath() == Path(genHash, Leaves(genHash, txns))
      ensures WellFormed(txns) ==>
                forall first: Hash :: Fold(genHash, first, StoredPath())
                                      == Root(genHash, [first] + Leaves(genHash, txns))
    {
      transactions, merkles, merklebin := |txns|, 0, [];
      var hashbin := new Hash[|txns| + 2];
      hashbin[0] := Zeros(32);
      for i := 0 to |txns|
        invariant PathReady() && transactions == |txns| && merkles == 0
        invariant forall k :: 0 <= k < i ==> txns[k].data.Some?
      {
        if txns[i].data.None? {
          return;
        }
      }
      var ok := LoadLeaves(genHash, txns, hashbin);
      if !ok {
        return;
      }
      ghost var leaves := Leaves(genHash, txns);
      ReduceInPlace(genHash, hashbin, |txns| + 1);
      forall first: Hash
        ensures Fold(genHash, first, StoredPath()) == Root(genHash, [first] + leaves)
      {
        FoldPathIsRoot(genHash, first, leaves);
      }
    }

    /** Puts the hash of each transaction behind the placeholder. */
    static method LoadLeaves(genHash: HashFunction, txns: seq<TxnEntry>, hashbin: array<Hash>) returns (ok: bool)
      requires hashbin.Length > |txns| && forall k :: 0 <= k < |txns| ==> txns[k].data.Some?
      modifies hashbin
      ensures ok <==> WellFormed(txns)
      ensures ok ==> hashbin[1..|txns| + 1] == Leaves(genHash, txns)
    {
      for i := 0 to |txns|
        invariant forall k :: 0 <= k < i ==> txns[k].hash != Malformed
        invariant forall k :: 0 <= k < i ==> hashbin[k + 1] == LeafOf(genHash, txns[k])
      {
        if txns[i].hash == Malformed {
          return false;
        }
        hashbin[i + 1] := LeafOf(genHash, txns[i]);
      }
      ok := true;
    }

    /** The level loop. `binleft` slots of `hashbin` are in use; slot 0 is the placeholder for
        the coinbase. Each pass stores slot 1 as the sibling and then overwrites the level
        with the one above it, slot i from slots 2i and 2i+1. */
    method ReduceInPlace(genHash: HashFunction, hashbin: array<Hash>, slots: nat)
      requires PathReady() && merkles == 0
      requires 1 <= slots < hashbin.Length
      modifies this`merkles, this`merklebin, hashbin
      ensures PathReady()
      ensures StoredPath() == Path(genHash, old(hashbin[1..slots]))
    {
      var binleft := slots;
      ghost var all := Path(genHash, hashbin[1..slots]);
      assert StoredPath() + all == all;
      while binleft > 1
        invariant 1 <= binleft < hashbin.Length
        invariant PathReady()
        invariant StoredPath() + Path(genHash, hashbin[1..binleft]) == all
      {
        ghost var others, before := hashbin[1..binleft], StoredPath();
        StoreSibling(hashbin[1]);
        binleft := ReduceLevel(genHash, hashbin, binleft);
        PathStep(genHash, others, before);
      }
      assert hashbin[1..1] == [];
    }

    /** Pads the level to an even number of slots and overwrites it with the one above. */
    method ReduceLevel(genHash: HashFunction, hashbin: array<Hash>, slots: nat) returns (binleft: nat)
      requires 2 <= slots < hashbin.Length
      modifies hashbin
      ensures 1 <= binleft == (slots + 1) / 2
      ensures hashbin[1..binleft] == NextOthers(genHash, old(hashbin[1..slots]))
    {
      binleft := slots;
      if binleft % 2 == 1 {
        hashbin[binleft] := hashbin[binleft - 1];
        binleft := binleft + 1;
      }
      ghost var all, level := hashbin[..], hashbin[..binleft];
      assert forall k :: 1 <= k < binleft / 2 ==> Above(genHash, all, k) == Above(genHash, level, k);
      assert level[1..slots] == old(hashbin[1..slots]);
      PaddedLevel(old(hashbin[1..slots]), level);
      HashLevel(genHash, hashbin, binleft);
      NextOthersFromLevel(genHash, old(hashbin[1..slots]), level, hashbin[..binleft / 2]);
      binleft := binleft / 2;
      assert hashbin[1..binleft] == hashbin[..binleft][1..];
    }

    method StoreSibling(h: Hash)
      requires PathReady()
      modifies this`merkles, this`merklebin
      ensures PathReady() && StoredPath() == old(StoredPath()) + [h]
    {
      merklebin := merklebin[..merkles] + [h];
      merkles := merkles + 1;
    }

    /** One pass over the level: every read is ahead of every slot written so far. */
    method HashLevel(genHash: HashFunction, hashbin: array<Hash>, binleft: nat)
      requires 2 <= binleft <= hashbin.Length && binleft % 2 == 0
      modifies hashbin
      ensures hashbin[0] == old(hashbin[0])
      ensures forall k :: 1 <= k < binleft / 2 ==>
                hashbin[k] == genHash(old(hashbin[2 * k])[..] + old(hashbin[2 * k + 1]))
      ensures forall k :: binleft / 2 <= k < hashbin.Length ==> hashbin[k] == old(hashbin[k])
    {
      ghost var level := hashbin[..];
      var i, j := 1, 2;
      while j < binleft
        invariant j == 2 * i && 1 <= i <= binleft / 2
        invariant hashbin[0] == level[0]
        invariant forall k :: 1 <= k < i ==> hashbin[k] == genHash(level[2 * k][..] + level[2 * k + 1])
        invariant forall k :: i <= k < hashbin.Length ==> hashbin[k] == level[k]
      {
        hashbin[i] := genHash(hashbin[j][..] + hashbin[j + 1]);
        i, j := i + 1, j + 2;
      }
    }

    /** Hashes the coinbase and folds it over the stored path. */
    method GbtMerkleRoot(genHash: HashFunction) returns (root: Hash)
      requires CoinbaseReady() && PathReady()
      ensures root == Fold(genHash, genHash(coinbase[..coinbaseLen]), StoredPath())
    {
      root := genHash(coinbase[..coinbaseLen]);
      ghost var goal := Fold(genHash, root, StoredPath());
      for i := 0 to merkles
        invariant Fold(genHash, root, StoredPath()[i..]) == goal
      {
        root := genHash(root + merklebin[i]);
        assert StoredPath()[i..][1..] == StoredPath()[i + 1..];
      }
      assert StoredPath()[merkles..] == [];
    }

    /** Rebuilds the coinbase of a template with room for an 8-byte nonce in its script. */
    method GbtDecodeCoinbase(t: ByteString)
      requires |t| > HEAD_LENGTH && |t| >= HEAD_LENGTH + 1 + t[HEAD_LENGTH]
      requires nonce2 < NONCE2_SPACE
      modifies this`coinbase, this`coinbaseLen, this`nonce2Offset, this`n2size
      ensures fresh(coinbase) && CoinbaseReady()
      ensures coinbaseLen == |t| + NONCE2_SIZE && n2size == NONCE2_SIZE
      ensures nonce2Offset == NonceOffset(t)
      ensures coinbase[..coinbaseLen] == Spliced(t)
    {
      n2size := NONCE2_SIZE;
      coinbaseLen := |t| + n2size;
      coinbase := new Byte[(coinbaseLen + 4) / 4 * 4](_ => 0);
      SpliceInto(coinbase, t);
      nonce2Offset := 42 + t[HEAD_LENGTH] as nat;
    }

    /** Puts the next nonce into the coinbase and computes the Merkle root that goes into
        the header. */
    method GenGbtWork(genHash: HashFunction, ghost leaves: seq<Hash>) returns (cb: ByteString, root: Hash)
      requires CoinbaseReady() && PathReady()
      requires StoredPath() == Path(genHash, leaves)
      modifies this`nonce2, coinbase
      ensures CoinbaseReady() && PathReady()
      ensures nonce2 == (old(nonce2) + 1) % NONCE2_SPACE
      ensures cb == coinbase[..coinbaseLen]
                 == NonceWritten(old(coinbase[..coinbaseLen]), nonce2Offset, old(nonce2), n2size)
      ensures root == Root(genHash, [genHash(cb)] + leaves)
    {
      CopyInto(coinbase, nonce2Offset, LittleEndian(nonce2, n2size), coinbaseLen);
      nonce2 := (nonce2 + 1) % NONCE2_SPACE;
      root := GbtMerkleRoot(genHash);
      cb := coinbase[..coinbaseLen];
      FoldPathIsRoot(genHash, genHash(cb), leaves);
    }
  }

  /** memcpy / hex2bin into a buffer, seen on its first `size` bytes. */
  method CopyInto(buf: array<Byte>, at: nat, piece: ByteString, ghost size: nat)
    requires at + |piece| <= size <= buf.Length
    modifies buf
    ensures buf[..size] == Overwrite(old(buf[..size]), at, piece)
    ensures forall k :: size <= k < buf.Length ==> buf[k] == old(buf[k])
  {
    for i := 0 to |piece|
      invariant forall k :: 0 <= k < i ==> buf[at + k] == piece[k]
      invariant forall k :: 0 <= k < buf.Length && !(at <= k < at + i) ==> buf[k] == old(buf[k])
    {
      buf[at + i] := piece[i];
    }
    ghost var want := Overwrite(old(buf[..size]), at, piece);
    assert forall k :: at <= k < at + |piece| ==> want[k] == want[at..at + |piece|][k - at];
    assert forall k :: 0 <= k < size ==> buf[k] == want[k];
  }

  /** The four writes of the splice, into a zeroed buffer. */
  method SpliceInto(buf: array<Byte>, t: ByteString)
    requires |t| > HEAD_LENGTH && |t| >= HEAD_LENGTH + 1 + t[HEAD_LENGTH]
    requires buf.Length >= |t| + NONCE2_SIZE
    requires forall k :: 0 <= k < buf.Length ==> buf[k] == 0
    modifies buf
    ensures buf[..|t| + NONCE2_SIZE] == Spliced(t)
  {
    hide Overwrite;
    ghost var size := |t| + NONCE2_SIZE;
    assert buf[..size] == Zeros(size);
    CopyInto(buf, 0, t[..42], size);
    ghost var b0 := buf[..size];
    var origLen := buf[HEAD_LENGTH];
    LengthByteCopied(b0, size, t);
    assert b0[HEAD_LENGTH] == buf[HEAD_LENGTH];
    CopyInto(buf, 42, t[42..42 + origLen], size);
    ghost var b1 := buf[..size];
    assert b1[HEAD_LENGTH] == b0[HEAD_LENGTH];
    assert buf[HEAD_LENGTH] == b1[HEAD_LENGTH];
    buf[HEAD_LENGTH] := (buf[HEAD_LENGTH] + NONCE2_SIZE) % 256;
    assert buf[..size] == b1[HEAD_LENGTH := buf[HEAD_LENGTH]];
    CopyInto(buf, 42 + buf[HEAD_LENGTH] as nat, t[42 + origLen..], size);
  }

  lemma LengthByteCopied(b0: ByteString, size: nat, t: ByteString)
    requires |t| > HEAD_LENGTH && size >= 42 && b0 == Overwrite(Zeros(size), 0, t[..42])
    ensures |b0| == size && b0[HEAD_LENGTH] == t[HEAD_LENGTH]
  {
  }

  lemma PaddedLevel(others: seq<Hash>, level: seq<Hash>)
    requires |others| > 0 && |level| >= |others| + 1
    requires level[1..|others| + 1] == others
    requires |level| == if |others| % 2 == 0 then |others| + 2 else |others| + 1
    requires |others| % 2 == 0 ==> level[|level| - 1] == level[|level| - 2]
    ensures level[2..] == if |others| % 2 == 0 then PadEven(others[1..]) else others[1..]
  {
    assert forall k :: 0 <= k < |others| ==> level[1 + k] == others[k];
    if |others| % 2 == 0 {
      assert others[1..][|others| - 2] == others[|others| - 1];
    }
  }

  lemma PathStep(genHash: HashFunction, others: seq<Hash>, before: seq<Hash>)
    requires |others| > 0
    ensures (before + [others[0]]) + Path(genHash, NextOthers(genHash, others))
            == before + Path(genHash, others)
  {
  }

  /** Overwriting a level with the pairs of itself, slot 0 apart, is one step of the path. */
  lemma NextOthersFromLevel(genHash: HashFunction, others: seq<Hash>, level: seq<Hash>, up: seq<Hash>)
    requires |others| > 0 && |level| % 2 == 0 && |level| >= 2 && |up| == |level| / 2
    requires level[2..] == if |others| % 2 == 0 then PadEven(others[1..]) else others[1..]
    requires forall k :: 1 <= k < |up| ==> up[k] == Above(genHash, level, k)
    ensures up[1..] == NextOthers(genHash, others)
  {
    var rest := level[2..];
    assert forall k :: 0 <= k < |rest| ==> rest[k] == level[k + 2];
    assert |up[1..]| == |rest| / 2;
    forall k | 0 <= k < |rest| / 2
      ensures up[1..][k] == LevelUp(genHash, rest)[k]
    {
      assert up[k + 1] == Above(genHash, level, k + 1) == Above(genHash, rest, k);
    }
  }

  /** Work `k` of a run that starts at nonce `start`. */
  function RunNonce(start: nat, k: nat): nat {
    (start + k) % NONCE2_SPACE
  }

  /** Within any run of at most 2^64 works on one template, all coinbases differ. */
  lemma RunCoinbasesDistinct(buf: ByteString, at: nat, start: nat, i: nat, j: nat)
    requires at + 8 <= |buf| && i < j < i + NONCE2_SPACE
    ensures NonceWritten(buf, at, RunNonce(start, i), 8) != NonceWritten(buf, at, RunNonce(start, j), 8)
  {
    NonceSeparatesCoinbases(buf, at, RunNonce(start, i), RunNonce(start, j), 8);
    PowOf256();
    var a, b := start + i, start + j;
    var d := b / NONCE2_SPACE - a / NONCE2_SPACE;
    assert b - a == d * NONCE2_SPACE + (b % NONCE2_SPACE - a % NONCE2_SPACE);
  }

  lemma PowOf256()
    ensures Pow(256, 8) == NONCE2_SPACE
  {
    assert Pow(256, 2) == 0x1_0000 && Pow(256, 4) == 0x1_0000_0000;
  }
}

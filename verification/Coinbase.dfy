/** The coinbase transaction and the splice that makes room for an extra nonce in it. */
module Coinbase {
  import opened Basics

  /** A one-input transaction, up to the part the miner never touches: `head` is the
      version, the input count and the previous output, `rest` begins with the outputs. */
  datatype Tx = Tx(head: ByteString, script: ByteString, sequence: ByteString, rest: ByteString)

  const HEAD_LENGTH := 41

  const NONCE2_SIZE := 8

  /** Length of the variable-size length field that encodes `n`. */
  function LengthSize(n: nat): nat {
    if n < 253 then 1 else if n < 0x1_0000 then 3 else if n < 0x1_0000_0000 then 5 else 9
  }

  /** Reads a variable-size length field: value and field width. Only the shortest encoding
      of each value is accepted. */
  function ReadLength(b: ByteString): Option<(nat, nat)> {
    if b == [] then None
    else
      var width := if b[0] < 253 then 1 else if b[0] == 253 then 3 else if b[0] == 254 then 5 else 9;
      if |b| < width then None
      else
        var n := if width == 1 then b[0] else FromLittleEndian(b[1..width]);
        if LengthSize(n) == width then Some((n, width)) else None
  }

  /** The shortest length field for `n`. */
  function WriteLength(n: nat): ByteString
    requires n < Pow(256, 8)
  {
    if n < 253 then [n]
    else if n <= 0xFFFF then [253] + LittleEndian(n, 2)
    else if n <= 0xFFFF_FFFF then [254] + LittleEndian(n, 4)
    else [255] + LittleEndian(n, 8)
  }

  lemma PowersOf256()
    ensures Pow(256, 2) == 0x1_0000 && Pow(256, 4) == 0x1_0000_0000
  {
    assert Pow(256, 1) == 256;
  }

  lemma ModSmall(n: nat, m: nat)
    requires n < m
    ensures n % m == n
  {
  }

  /** Every length is read back, and every length field accepted is the one written for its value. */
  lemma ReadWritten(n: nat, rest: ByteString)
    requires n < Pow(256, 8)
    ensures ReadLength(WriteLength(n) + rest) == Some((n, |WriteLength(n)|))
  {
    hide LittleEndian, FromLittleEndian, Pow;
    var b := WriteLength(n) + rest;
    PowersOf256();
    if n >= 253 {
      var width := |WriteLength(n)| - 1;
      LittleEndianRoundTrip(n, width);
      ModSmall(n, Pow(256, width));
      assert b[1..width + 1] == LittleEndian(n, width);
    }
  }

  lemma WrittenRead(b: ByteString)
    requires ReadLength(b).Some?
    ensures var (n, width) := ReadLength(b).value;
            n < Pow(256, 8) && width <= |b| && WriteLength(n) == b[..width]
  {
    hide LittleEndian, FromLittleEndian, Pow;
    PowersOf256();
    var (n, width) := ReadLength(b).value;
    if width > 1 {
      FromLittleEndianRoundTrip(b[1..width]);
      assert b[..width] == [b[0]] + b[1..width];
    } else {
      assert b[..1] == [b[0]];
    }
    Below(n, width);
  }

  lemma Below(n: nat, width: nat)
    ensures Pow(256, 8) > 0x1_0000_0000
    ensures width <= 1 && n < 253 ==> n < Pow(256, 8)
  {
    assert Pow(256, 4) == 0x1_0000_0000;
  }

  function Parse(b: ByteString): Option<Tx> {
    if |b| < HEAD_LENGTH || b[4] != 1 then None
    else
      match ReadLength(b[HEAD_LENGTH..])
      case None => None
      case Some((n, width)) =>
        var at := HEAD_LENGTH + width;
        if |b| < at + n + 4 then None
        else Some(Tx(b[..HEAD_LENGTH], b[at..at + n], b[at + n..at + n + 4], b[at + n + 4..]))
  }

  /** The buffer after the splice, as the writes of the decoder produce it: the length byte
      is an 8-bit counter, and the tail is written after the place that byte now names. */
  function Spliced(t: ByteString): (r: ByteString)
    requires |t| > HEAD_LENGTH && |t| >= HEAD_LENGTH + 1 + t[HEAD_LENGTH]
    ensures |r| == |t| + NONCE2_SIZE
  {
    var origLen := t[HEAD_LENGTH];
    var extraLen := (origLen + NONCE2_SIZE) % 256;
    var b0 := Overwrite(Zeros(|t| + NONCE2_SIZE), 0, t[..42]);
    var b1 := Overwrite(b0, 42, t[42..42 + origLen]);
    var b2 := b1[HEAD_LENGTH := extraLen];
    Overwrite(b2, 42 + extraLen, t[42 + origLen..])
  }

  /** Where the nonce goes. */
  function NonceOffset(t: ByteString): nat
    requires |t| > HEAD_LENGTH
  {
    42 + t[HEAD_LENGTH] as nat
  }

  function WithScript(tx: Tx, extra: ByteString): Tx {
    tx.(script := tx.script + extra)
  }

  /** A template whose script is longer than the byte before it can say still has enough
      bytes for the splice. */
  lemma ParsedIsLongEnough(t: ByteString)
    requires Parse(t).Some?
    ensures |t| > HEAD_LENGTH && |t| >= HEAD_LENGTH + 1 + t[HEAD_LENGTH]
    ensures var n := |Parse(t).value.script|;
            |t| == HEAD_LENGTH + LengthSize(n) + n + 4 + |Parse(t).value.rest|
  {
  }

  /** The bytes of a transaction. */
  function Serialise(tx: Tx): ByteString
    requires |tx.script| < Pow(256, 8)
  {
    tx.head + WriteLength(|tx.script|) + tx.script + tx.sequence + tx.rest
  }

  ghost predicate Shaped(tx: Tx) {
    |tx.head| == HEAD_LENGTH && tx.head[4] == 1 && |tx.script| < Pow(256, 8) && |tx.sequence| == 4
  }

  lemma ParseSerialise(tx: Tx)
    requires Shaped(tx)
    ensures Parse(Serialise(tx)) == Some(tx)
  {
    hide ReadLength, WriteLength;
    var b, n, w := Serialise(tx), |tx.script|, WriteLength(|tx.script|);
    var at := HEAD_LENGTH + |w|;
    ReadWritten(n, tx.script + tx.sequence + tx.rest);
    assert b[HEAD_LENGTH..] == w + (tx.script + tx.sequence + tx.rest);
    assert b[..HEAD_LENGTH] == tx.head;
    assert b[at..at + n] == tx.script;
    assert b[at + n..at + n + 4] == tx.sequence;
    assert b[at + n + 4..] == tx.rest;
  }

  lemma SerialiseParse(t: ByteString)
    requires Parse(t).Some?
    ensures Shaped(Parse(t).value) && Serialise(Parse(t).value) == t
  {
    hide ReadLength, WriteLength;
    WrittenRead(t[HEAD_LENGTH..]);
  }

  /** On a short script the four writes of the splice, and then a nonce, give the bytes of
      the extended transaction. */
  lemma SpliceSerialised(tx: Tx, nonce: ByteString)
    requires Shaped(tx) && |tx.script| <= 244 && |nonce| == NONCE2_SIZE
    ensures var t := Serialise(tx);
            && |t| >= HEAD_LENGTH + 1 + t[HEAD_LENGTH]
            && Overwrite(Spliced(t), NonceOffset(t), nonce) == Serialise(WithScript(tx, nonce))
  {
    hide Spliced, Overwrite;
    var t, n := Serialise(tx), |tx.script|;
    assert t[HEAD_LENGTH] == n;
    SplicedShape(t);
    SerialisedPieces(tx);
    var prefix, tail := tx.head + [n + NONCE2_SIZE] + tx.script, tx.sequence + tx.rest;
    assert Spliced(t) == prefix + Zeros(NONCE2_SIZE) + tail;
    OverwriteGap(prefix, Zeros(NONCE2_SIZE), nonce, tail);
    SerialisedExtension(tx, nonce);
  }

  lemma SerialisedExtension(tx: Tx, nonce: ByteString)
    requires Shaped(tx) && |tx.script| + |nonce| < 253
    ensures Serialise(WithScript(tx, nonce))
            == tx.head + [|tx.script| + |nonce|] + tx.script + nonce + (tx.sequence + tx.rest)
  {
  }

  lemma SerialisedPieces(tx: Tx)
    requires Shaped(tx) && |tx.script| < 253
    ensures var t, n := Serialise(tx), |tx.script|;
            && t[..HEAD_LENGTH] == tx.head && t[42..42 + n] == tx.script
            && t[42 + n..] == tx.sequence + tx.rest
  {
  }

  lemma OverwriteGap(before: ByteString, gap: ByteString, piece: ByteString, after: ByteString)
    requires |gap| == |piece|
    ensures Overwrite(before + gap + after, |before|, piece) == before + piece + after
  {
  }

  lemma SplicedShape(t: ByteString)
    requires |t| > HEAD_LENGTH && t[HEAD_LENGTH] <= 244 && |t| >= HEAD_LENGTH + 1 + t[HEAD_LENGTH]
    ensures Spliced(t) == t[..HEAD_LENGTH] + [t[HEAD_LENGTH] + NONCE2_SIZE]
                          + t[42..NonceOffset(t)] + Zeros(NONCE2_SIZE) + t[NonceOffset(t)..]
  {
  }

  /** Putting a nonce in the gap changes only the gap: the transaction is the template with
      the nonce bytes at the end of its script. */
  lemma NonceLandsInScript(t: ByteString, nonce: ByteString)
    requires Parse(t).Some? && |Parse(t).value.script| <= 244 && |nonce| == NONCE2_SIZE
    ensures |t| > HEAD_LENGTH && |t| >= HEAD_LENGTH + 1 + t[HEAD_LENGTH]
    ensures Parse(Overwrite(Spliced(t), NonceOffset(t), nonce)) == Some(WithScript(Parse(t).value, nonce))
  {
    ParsedIsLongEnough(t);
    SerialiseParse(t);
    SpliceSerialised(Parse(t).value, nonce);
    ParseSerialise(WithScript(Parse(t).value, nonce));
  }

  lemma GapIsZero(t: ByteString)
    requires |t| > HEAD_LENGTH && t[HEAD_LENGTH] <= 244 && |t| >= HEAD_LENGTH + 1 + t[HEAD_LENGTH]
    ensures Overwrite(Spliced(t), NonceOffset(t), Zeros(NONCE2_SIZE)) == Spliced(t)
  {
    SplicedShape(t);
  }

  /** The rebuilt transaction is the template with 8 bytes appended to its script, exactly
      when the script has at most 244 bytes. */
  lemma SpliceExtendsScript(t: ByteString)
    requires Parse(t).Some?
    ensures |t| > HEAD_LENGTH && |t| >= HEAD_LENGTH + 1 + t[HEAD_LENGTH]
    ensures var tx := Parse(t).value;
            Parse(Spliced(t)) == Some(WithScript(tx, Zeros(NONCE2_SIZE))) <==> |tx.script| <= 244
  {
    ParsedIsLongEnough(t);
    if |Parse(t).value.script| <= 244 {
      NonceLandsInScript(t, Zeros(NONCE2_SIZE));
      assert t[HEAD_LENGTH..][0] == t[HEAD_LENGTH];
      GapIsZero(t);
    } else {
      SpliceLongScript(t);
    }
  }

  /** A longer script makes the 8-bit length byte wrap, or name a multi-byte length. */
  lemma SpliceLongScript(t: ByteString)
    requires Parse(t).Some? && |Parse(t).value.script| > 244
    requires |t| > HEAD_LENGTH && |t| >= HEAD_LENGTH + 1 + t[HEAD_LENGTH]
    ensures Parse(Spliced(t)) != Some(WithScript(Parse(t).value, Zeros(NONCE2_SIZE)))
  {
    var s, n := Spliced(t), t[HEAD_LENGTH];
    assert t[HEAD_LENGTH..][0] == n > 244;
    SplicedLengthByte(t);
    assert s[HEAD_LENGTH..][0] == s[HEAD_LENGTH];
    if Parse(s) == Some(WithScript(Parse(t).value, Zeros(NONCE2_SIZE))) {
      ParsedIsLongEnough(s);
      ParsedIsLongEnough(t);
      assert false;
    }
  }

  lemma SplicedLengthByte(t: ByteString)
    requires |t| > HEAD_LENGTH && |t| >= HEAD_LENGTH + 1 + t[HEAD_LENGTH]
    ensures Spliced(t)[HEAD_LENGTH] == (t[HEAD_LENGTH] + NONCE2_SIZE) % 256
  {
  }

  /** The coinbase after `n` has been written as a nonce of `width` bytes. */
  function NonceWritten(buf: ByteString, at: nat, n: nat, width: nat): (r: ByteString)
    requires at + width <= |buf|
    ensures |r| == |buf|
  {
    Overwrite(buf, at, LittleEndian(n, width))
  }

  /** Two nonces give the same coinbase exactly when they agree in the bytes that are
      written; whatever nonce was in the window before does not matter. */
  lemma NonceSeparatesCoinbases(buf: ByteString, at: nat, m: nat, n: nat, width: nat)
    requires at + width <= |buf|
    ensures Pow(256, width) > 0
    ensures NonceWritten(buf, at, m, width) == NonceWritten(buf, at, n, width)
            <==> m % Pow(256, width) == n % Pow(256, width)
    ensures NonceWritten(NonceWritten(buf, at, m, width), at, n, width) == NonceWritten(buf, at, n, width)
  {
    LittleEndianInjective(m, n, width);
    var bm, bn := NonceWritten(buf, at, m, width), NonceWritten(buf, at, n, width);
    assert bm[at..at + width] == LittleEndian(m, width);
    assert bn[at..at + width] == LittleEndian(n, width);
    assert NonceWritten(bm, at, n, width) == bn;
  }
}

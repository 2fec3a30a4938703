/** The table-driven 16-bit CRC, against bit-serial division by the generator polynomial
    x^16 + x^12 + x^5 + 1. */
module Crc16 {

  /** One row of the table, eight entries. */
  function Pick(c: bv8, e0: bv16, e1: bv16, e2: bv16, e3: bv16, e4: bv16, e5: bv16, e6: bv16, e7: bv16): bv16 {
    if c == 0 then e0 else if c == 1 then e1 else if c == 2 then e2 else if c == 3 then e3
    else if c == 4 then e4 else if c == 5 then e5 else if c == 6 then e6 else e7
  }

  /** The 256-entry table, in rows of eight. */
  function Table(i: bv8): bv16 {
    var row, c := i >> 3, i & 7;
    if row == 0 then Pick(c, 0x0000, 0x1021, 0x2042, 0x3063, 0x4084, 0x50A5, 0x60C6, 0x70E7)
    else if row == 1 then Pick(c, 0x8108, 0x9129, 0xA14A, 0xB16B, 0xC18C, 0xD1AD, 0xE1CE, 0xF1EF)
    else if row == 2 then Pick(c, 0x1231, 0x0210, 0x3273, 0x2252, 0x52B5, 0x4294, 0x72F7, 0x62D6)
    else if row == 3 then Pick(c, 0x9339, 0x8318, 0xB37B, 0xA35A, 0xD3BD, 0xC39C, 0xF3FF, 0xE3DE)
    else if row == 4 then Pick(c, 0x2462, 0x3443, 0x0420, 0x1401, 0x64E6, 0x74C7, 0x44A4, 0x5485)
    else if row == 5 then Pick(c, 0xA56A, 0xB54B, 0x8528, 0x9509, 0xE5EE, 0xF5CF, 0xC5AC, 0xD58D)
    else if row == 6 then Pick(c, 0x3653, 0x2672, 0x1611, 0x0630, 0x76D7, 0x66F6, 0x5695, 0x46B4)
    else if row == 7 then Pick(c, 0xB75B, 0xA77A, 0x9719, 0x8738, 0xF7DF, 0xE7FE, 0xD79D, 0xC7BC)
    else if row == 8 then Pick(c, 0x48C4, 0x58E5, 0x6886, 0x78A7, 0x0840, 0x1861, 0x2802, 0x3823)
    else if row == 9 then Pick(c, 0xC9CC, 0xD9ED, 0xE98E, 0xF9AF, 0x8948, 0x9969, 0xA90A, 0xB92B)
    else if row == 10 then Pick(c, 0x5AF5, 0x4AD4, 0x7AB7, 0x6A96, 0x1A71, 0x0A50, 0x3A33, 0x2A12)
    else if row == 11 then Pick(c, 0xDBFD, 0xCBDC, 0xFBBF, 0xEB9E, 0x9B79, 0x8B58, 0xBB3B, 0xAB1A)
    else if row == 12 then Pick(c, 0x6CA6, 0x7C87, 0x4CE4, 0x5CC5, 0x2C22, 0x3C03, 0x0C60, 0x1C41)
    else if row == 13 then Pick(c, 0xEDAE, 0xFD8F, 0xCDEC, 0xDDCD, 0xAD2A, 0xBD0B, 0x8D68, 0x9D49)
    else if row == 14 then Pick(c, 0x7E97, 0x6EB6, 0x5ED5, 0x4EF4, 0x3E13, 0x2E32, 0x1E51, 0x0E70)
    else if row == 15 then Pick(c, 0xFF9F, 0xEFBE, 0xDFDD, 0xCFFC, 0xBF1B, 0xAF3A, 0x9F59, 0x8F78)
    else if row == 16 then Pick(c, 0x9188, 0x81A9, 0xB1CA, 0xA1EB, 0xD10C, 0xC12D, 0xF14E, 0xE16F)
    else if row == 17 then Pick(c, 0x1080, 0x00A1, 0x30C2, 0x20E3, 0x5004, 0x4025, 0x7046, 0x6067)
    else if row == 18 then Pick(c, 0x83B9, 0x9398, 0xA3FB, 0xB3DA, 0xC33D, 0xD31C, 0xE37F, 0xF35E)
    else if row == 19 then Pick(c, 0x02B1, 0x1290, 0x22F3, 0x32D2, 0x4235, 0x5214, 0x6277, 0x7256)
    else if row == 20 then Pick(c, 0xB5EA, 0xA5CB, 0x95A8, 0x8589, 0xF56E, 0xE54F, 0xD52C, 0xC50D)
    else if row == 21 then Pick(c, 0x34E2, 0x24C3, 0x14A0, 0x0481, 0x7466, 0x6447, 0x5424, 0x4405)
    else if row == 22 then Pick(c, 0xA7DB, 0xB7FA, 0x8799, 0x97B8, 0xE75F, 0xF77E, 0xC71D, 0xD73C)
    else if row == 23 then Pick(c, 0x26D3, 0x36F2, 0x0691, 0x16B0, 0x6657, 0x7676, 0x4615, 0x5634)
    else if row == 24 then Pick(c, 0xD94C, 0xC96D, 0xF90E, 0xE92F, 0x99C8, 0x89E9, 0xB98A, 0xA9AB)
    else if row == 25 then Pick(c, 0x5844, 0x4865, 0x7806, 0x6827, 0x18C0, 0x08E1, 0x3882, 0x28A3)
    else if row == 26 then Pick(c, 0xCB7D, 0xDB5C, 0xEB3F, 0xFB1E, 0x8BF9, 0x9BD8, 0xABBB, 0xBB9A)
    else if row == 27 then Pick(c, 0x4A75, 0x5A54, 0x6A37, 0x7A16, 0x0AF1, 0x1AD0, 0x2AB3, 0x3A92)
    else if row == 28 then Pick(c, 0xFD2E, 0xED0F, 0xDD6C, 0xCD4D, 0xBDAA, 0xAD8B, 0x9DE8, 0x8DC9)
    else if row == 29 then Pick(c, 0x7C26, 0x6C07, 0x5C64, 0x4C45, 0x3CA2, 0x2C83, 0x1CE0, 0x0CC1)
    else if row == 30 then Pick(c, 0xEF1F, 0xFF3E, 0xCF5D, 0xDF7C, 0xAF9B, 0xBFBA, 0x8FD9, 0x9FF8)
    else Pick(c, 0x6E17, 0x7E36, 0x4E55, 0x5E74, 0x2E93, 0x3EB2, 0x0ED1, 0x1EF0)
  }

  // ----- the reference: one message bit at a time, most significant bit first

  /** Shifts a zero bit into the remainder register; the bit that leaves it stands for x^16
      and comes back as x^12 + x^5 + 1. */
  function Shift(s: bv16): bv16 {
    (s << 1) ^ ((s >> 15) << 12) ^ ((s >> 15) << 5) ^ (s >> 15)
  }

  function Add(s: bv16, t: bv16): bv16 {
    s ^ t
  }

  function TopBit(bit: bool): bv16 {
    if bit then 0x8000 else 0
  }

  /** Adds a message bit to the end of the register that leaves first. */
  function Inject(s: bv16, bit: bool): bv16 {
    Add(s, TopBit(bit))
  }

  function Divide(s: bv16, bits: seq<bool>): bv16
    decreases |bits|
  {
    if bits == [] then s else Divide(Shift(Inject(s, bits[0])), bits[1..])
  }

  function Bits(b: bv8): (r: seq<bool>)
    ensures |r| == 8
  {
    [b & 0x80 != 0, b & 0x40 != 0, b & 0x20 != 0, b & 0x10 != 0,
     b & 0x08 != 0, b & 0x04 != 0, b & 0x02 != 0, b & 0x01 != 0]
  }

  function Message(buffer: seq<bv8>): (r: seq<bool>)
    ensures |r| == 8 * |buffer|
  {
    if buffer == [] then [] else Bits(buffer[0]) + Message(buffer[1..])
  }

  function Reference(buffer: seq<bv8>): bv16 {
    Divide(0, Message(buffer))
  }

  // ----- the algorithm

  function Index(crc: bv16, b: bv8): bv8 {
    ((crc >> 8) as bv8) ^ b
  }

  method ComputeCrc16(buffer: array<bv8>) returns (crc: bv16)
    ensures crc == Reference(buffer[..])
  {
    hide Table, Divide, Bits, Index, Add;
    crc := 0;
    var at := 0;
    assert buffer[0..] == buffer[..];
    while at < buffer.Length
      invariant 0 <= at <= buffer.Length
      invariant Divide(crc, Message(buffer[at..])) == Reference(buffer[..])
    {
      ByteStep(crc, buffer[at]);
      MessageStep(crc, buffer[at..]);
      assert buffer[at..][1..] == buffer[at + 1..];
      crc := Add(Table(Index(crc, buffer[at])), crc << 8);
      at := at + 1;
    }
    DivideNothing(crc, Message(buffer[at..]));
  }

  lemma DivideNothing(s: bv16, bits: seq<bool>)
    requires bits == []
    ensures Divide(s, bits) == s
  {
  }

  // ----- shifting is linear and loses nothing

  function Shifts(s: bv16, n: nat): bv16
    decreases n
  {
    if n == 0 then s else Shifts(Shift(s), n - 1)
  }

  // The solver mixes bit-vector terms and function definitions badly. The lemmas named after
  // one function state its definition; proofs hide the functions and work from those.

  lemma ShiftDef(s: bv16)
    ensures Shift(s) == (s << 1) ^ ((s >> 15) << 12) ^ ((s >> 15) << 5) ^ (s >> 15)
  {
  }

  lemma AddDef(s: bv16, t: bv16)
    ensures Add(s, t) == s ^ t
  {
  }

  lemma ShiftLinear(s: bv16, t: bv16)
    ensures Shift(Add(s, t)) == Add(Shift(s), Shift(t))
  {
    hide Shift, Add;
    AddDef(s, t);
    ShiftDef(s);
    ShiftDef(t);
    ShiftDef(Add(s, t));
    AddDef(Shift(s), Shift(t));
    ShiftLinearBits(s, t, Add(s, t), Shift(s), Shift(t), Shift(Add(s, t)));
  }

  lemma ShiftLinearBits(s: bv16, t: bv16, u: bv16, s': bv16, t': bv16, u': bv16)
    requires u == s ^ t
    requires s' == (s << 1) ^ ((s >> 15) << 12) ^ ((s >> 15) << 5) ^ (s >> 15)
    requires t' == (t << 1) ^ ((t >> 15) << 12) ^ ((t >> 15) << 5) ^ (t >> 15)
    requires u' == (u << 1) ^ ((u >> 15) << 12) ^ ((u >> 15) << 5) ^ (u >> 15)
    ensures u' == s' ^ t'
  {
  }

  lemma AddAssociative(s: bv16, t: bv16, u: bv16)
    ensures Add(Add(s, t), u) == Add(s, Add(t, u))
  {
    hide Add;
    AddDef(s, t);
    AddDef(t, u);
    AddDef(s ^ t, u);
    AddDef(s, t ^ u);
  }

  lemma AddCommutes(s: bv16, t: bv16)
    ensures Add(s, t) == Add(t, s)
  {
  }

  lemma AddExchange(s: bv16, t: bv16, u: bv16, v: bv16)
    ensures Add(Add(s, t), Add(u, v)) == Add(Add(s, u), Add(t, v))
    ensures Add(s, Add(t, u)) == Add(Add(s, u), t)
  {
    hide Add;
    AddAssociative(s, t, Add(u, v));
    AddAssociative(t, u, v);
    AddCommutes(t, u);
    AddAssociative(u, t, v);
    AddAssociative(s, u, Add(t, v));
    AddAssociative(s, u, t);
  }

  lemma ShiftInjective(s: bv16, t: bv16)
    requires s != t
    ensures Shift(s) != Shift(t)
  {
  }

  lemma {:induction false} ShiftsLinear(s: bv16, t: bv16, n: nat)
    ensures Shifts(Add(s, t), n) == Add(Shifts(s, n), Shifts(t, n))
    decreases n
  {
    hide Shift, Add;
    if n > 0 {
      ShiftLinear(s, t);
      ShiftsLinear(Shift(s), Shift(t), n - 1);
    }
  }

  lemma {:induction false} ShiftsInjective(s: bv16, t: bv16, n: nat)
    requires s != t
    ensures Shifts(s, n) != Shifts(t, n)
    decreases n
  {
    hide Shift, Add;
    if n > 0 {
      ShiftInjective(s, t);
      ShiftsInjective(Shift(s), Shift(t), n - 1);
    }
  }

  // ----- the table

  /** A byte at the top of the register. */
  function Top(b: bv8): bv16 {
    (b as bv16) << 8
  }

  function LowByte(s: bv16): bv16 {
    s & 0xff
  }

  lemma EightShifts(s: bv16)
    ensures Shifts(s, 8) == Shift(Shift(Shift(Shift(Shift(Shift(Shift(Shift(s))))))))
  {
    hide Shift;
    assert Shifts(s, 4) == Shift(Shift(Shift(Shift(s))));
  }

  /** The table holds the remainders of the 256 one-byte messages. */
  lemma TableIsDivision(i: bv8)
    ensures Table(i) == Shifts(Top(i), 8)
  {
    hide Shift, Shifts, Table;
    if i < 0x40 {
      TableFirstQuarter(i);
    } else if i < 0x80 {
      TableSecondQuarter(i);
    } else if i < 0xC0 {
      TableThirdQuarter(i);
    } else {
      TableLastQuarter(i);
    }
  }

  lemma TableFirstQuarter(i: bv8)
    requires i < 0x40
    ensures Table(i) == Shifts(Top(i), 8)
  {
    EightShifts(Top(i));
  }

  lemma TableSecondQuarter(i: bv8)
    requires 0x40 <= i < 0x80
    ensures Table(i) == Shifts(Top(i), 8)
  {
    EightShifts(Top(i));
  }

  lemma TableThirdQuarter(i: bv8)
    requires 0x80 <= i < 0xC0
    ensures Table(i) == Shifts(Top(i), 8)
  {
    EightShifts(Top(i));
  }

  lemma TableLastQuarter(i: bv8)
    requires 0xC0 <= i
    ensures Table(i) == Shifts(Top(i), 8)
  {
    EightShifts(Top(i));
  }

  // ----- a message of at most 16 bits, as a word aligned to the top of the register

  function Word(bits: seq<bool>): bv16
    decreases |bits|
  {
    if bits == [] then 0 else Inject(Half(Word(bits[1..])), bits[0])
  }

  function Half(w: bv16): bv16 {
    w >> 1
  }

  predicate Even(w: bv16) {
    w & 1 == 0
  }

  predicate Clear(w: bv16, mask: bv16) {
    w & mask == 0
  }

  /** The low `n` bits. */
  function LowBits(n: nat): bv16
    decreases n
  {
    if n == 0 then 0 else MoreLowBits(LowBits(n - 1))
  }

  function MoreLowBits(mask: bv16): bv16 {
    (mask << 1) | 1
  }

  lemma LowBitsBelowTop(n: nat)
    requires n <= 15
    ensures Clear(LowBits(n), 0x8000)
  {
    assert LowBits(4) == 0xf && LowBits(8) == 0xff && LowBits(12) == 0xfff;
  }

  /** Only the top |bits| bits of the word can be set. */
  lemma {:induction false} WordAligned(bits: seq<bool>)
    requires |bits| <= 16
    ensures Clear(Word(bits), LowBits(16 - |bits|))
    decreases |bits|
  {
    hide Inject, MoreLowBits, Half, Clear;
    if bits != [] {
      WordAligned(bits[1..]);
      LowBitsBelowTop(16 - |bits|);
      InjectAligned(Word(bits[1..]), bits[0], LowBits(16 - |bits|));
    } else {
      ZeroWord(LowBits(16));
    }
  }

  lemma ZeroWord(mask: bv16)
    ensures Clear(0, mask)
  {
  }

  lemma InjectAligned(w: bv16, bit: bool, mask: bv16)
    requires Clear(w, MoreLowBits(mask)) && Clear(mask, 0x8000)
    ensures Clear(Inject(Half(w), bit), mask)
  {
    HalfAlignedBits(w, mask);
    ClearAddBits(w >> 1, TopBit(bit), mask);
    ZeroWord(mask);
    TopClearBits(mask);
  }

  lemma HalfAlignedBits(w: bv16, mask: bv16)
    requires w & ((mask << 1) | 1) == 0 && mask & 0x8000 == 0
    ensures (w >> 1) & mask == 0
  {
  }

  lemma TopClearBits(mask: bv16)
    requires mask & 0x8000 == 0
    ensures 0x8000 & mask == 0
  {
  }

  lemma ClearAddBits(v: bv16, t: bv16, mask: bv16)
    requires v & mask == 0
    ensures t & mask == 0 ==> (v ^ t) & mask == 0
  {
  }

  lemma WordIsEven(bits: seq<bool>)
    requires |bits| <= 15
    ensures Even(Word(bits))
  {
    hide Inject, Word, Even, Clear, MoreLowBits;
    WordAligned(bits);
    LastBitClear(Word(bits), LowBits(15 - |bits|));
  }

  lemma LastBitClear(w: bv16, mask: bv16)
    requires Clear(w, MoreLowBits(mask))
    ensures Even(w)
  {
  }

  lemma {:induction false} WordInjective(a: seq<bool>, b: seq<bool>)
    requires |a| == |b| <= 16 && a != b
    ensures Word(a) != Word(b)
    decreases |a|
  {
    hide Inject, Half, Even;
    WordIsEven(a[1..]);
    WordIsEven(b[1..]);
    if Word(a) == Word(b) {
      InjectSeparates(Word(a[1..]), a[0], Word(b[1..]), b[0]);
    }
    if a[1..] != b[1..] {
      WordInjective(a[1..], b[1..]);
    } else {
      assert a == [a[0]] + a[1..] && b == [b[0]] + b[1..];
    }
  }

  lemma InjectSeparates(w: bv16, bit: bool, w': bv16, bit': bool)
    requires Even(w) && Even(w') && Inject(Half(w), bit) == Inject(Half(w'), bit')
    ensures w == w' && bit == bit'
  {
    hide Add, Half, Even, Clear, Shift;
    TopOfSum(w, bit);
    TopOfSum(w', bit');
    assert bit == bit';
    AddCancels(Half(w), TopBit(bit));
    AddCancels(Half(w'), TopBit(bit));
    ShiftOfHalf(w);
    ShiftOfHalf(w');
  }

  lemma TopOfSum(w: bv16, bit: bool)
    ensures Clear(Add(Half(w), TopBit(bit)), 0x8000) <==> !bit
  {
    hide Add, Half, Clear;
    var t := TopBit(bit);
    AddDef(Half(w), t);
    HalfDef(w);
    TopOfSumBits(w, Half(w), t, Add(Half(w), t));
    TopBitClear(bit);
  }

  lemma TopBitClear(bit: bool)
    ensures Clear(TopBit(bit), 0x8000) <==> !bit
  {
  }

  lemma HalfDef(w: bv16)
    ensures Half(w) == w >> 1
  {
  }

  lemma TopOfSumBits(w: bv16, h: bv16, t: bv16, x: bv16)
    requires h == w >> 1 && x == h ^ t
    ensures Clear(x, 0x8000) <==> Clear(t, 0x8000)
  {
  }

  lemma AddCancels(s: bv16, t: bv16)
    ensures Add(Add(s, t), t) == s
  {
    hide Add;
    AddDef(s, t);
    AddDef(Add(s, t), t);
    AddCancelsBits(s, t, Add(s, t));
  }

  lemma AddCancelsBits(s: bv16, t: bv16, u: bv16)
    requires u == s ^ t
    ensures u ^ t == s
  {
  }

  // ----- dividing a block of bits

  /** One division step on a register that already holds the rest of the message. */
  lemma ShiftInjected(s: bv16, bit: bool, w: bv16)
    requires Even(w)
    ensures Shift(Add(s, Inject(Half(w), bit))) == Add(Shift(Inject(s, bit)), w)
  {
    hide Shift, Add, Half, Even, TopBit;
    ShiftOfHalf(w);
    AddExchange(s, Half(w), TopBit(bit), 0);
    ShiftLinear(Inject(s, bit), Half(w));
  }

  lemma ShiftOfHalf(w: bv16)
    requires Even(w)
    ensures Shift(Half(w)) == w
  {
    ShiftOfHalfBits(w);
  }

  lemma ShiftOfHalfBits(w: bv16)
    requires w & 1 == 0
    ensures ((w >> 1) << 1) ^ (((w >> 1) >> 15) << 12) ^ (((w >> 1) >> 15) << 5) ^ ((w >> 1) >> 15) == w
  {
  }

  /** Dividing up to 16 bits is adding them to the register all at once, then shifting. */
  lemma {:induction false} DivideIsShifts(s: bv16, bits: seq<bool>)
    requires |bits| <= 16
    ensures Divide(s, bits) == Shifts(Add(s, Word(bits)), |bits|)
    decreases |bits|
  {
    hide Inject, Shift, Add, Half, Even;
    if bits != [] {
      var rest := bits[1..];
      WordIsEven(rest);
      ShiftInjected(s, bits[0], Word(rest));
      DivideIsShifts(Shift(Inject(s, bits[0])), rest);
    } else {
      AddZero(s);
    }
  }

  lemma AddZero(s: bv16)
    ensures Add(s, 0) == s
  {
  }

  lemma {:induction false} DivideAppend(s: bv16, first: seq<bool>, rest: seq<bool>)
    ensures Divide(s, first + rest) == Divide(Divide(s, first), rest)
    decreases |first|
  {
    hide Inject, Shift;
    if first == [] {
      assert first + rest == rest;
    } else {
      assert (first + rest)[1..] == first[1..] + rest;
      DivideAppend(Shift(Inject(s, first[0])), first[1..], rest);
    }
  }

  lemma WordOfByte(b: bv8)
    ensures Word(Bits(b)) == Top(b)
  {
    hide Four, Top, Word;
    var bits := Bits(b);
    WordOfFour(bits);
    WordOfFour(bits[4..]);
    assert bits[4..][4..] == [];
    WordOfFlags(b);
  }

  /** Unrolls the definition on four bits. */
  lemma WordOfFour(bits: seq<bool>)
    requires |bits| >= 4
    ensures Word(bits) == Four(bits[0], bits[1], bits[2], bits[3], Word(bits[4..]))
    ensures bits[4..] == [] ==> Word(bits[4..]) == 0
  {
    hide Inject, Half;
    var b1, b2, b3 := bits[1..], bits[2..], bits[3..];
    assert b1[1..] == b2 && b2[1..] == b3 && b3[1..] == bits[4..];
    assert Word(b3) == Inject(Half(Word(bits[4..])), bits[3]);
    assert Word(b2) == Inject(Half(Word(b3)), bits[2]);
    assert Word(b1) == Inject(Half(Word(b2)), bits[1]);
  }

  function Four(b0: bool, b1: bool, b2: bool, b3: bool, w: bv16): bv16 {
    Inject(Half(Inject(Half(Inject(Half(Inject(Half(w), b3)), b2)), b1)), b0)
  }

  lemma WordOfFlags(b: bv8)
    ensures Four(b & 0x80 != 0, b & 0x40 != 0, b & 0x20 != 0, b & 0x10 != 0,
                 Four(b & 0x08 != 0, b & 0x04 != 0, b & 0x02 != 0, b & 0x01 != 0, 0)) == Top(b)
  {
  }

  /** Eight shifts move the low byte to the top and cannot meet the generator. */
  lemma LowByteShifts(s: bv16)
    ensures Shifts(LowByte(s), 8) == s << 8
  {
    EightShifts(LowByte(s));
  }

  lemma SplitRegister(crc: bv16, b: bv8)
    ensures Add(crc, Top(b)) == Add(Top(Index(crc, b)), LowByte(crc))
  {
    hide Add, Top, Index, LowByte;
    var i := Index(crc, b);
    AddDef(crc, Top(b));
    AddDef(Top(i), LowByte(crc));
    ByteDefs(crc, b);
    ByteDefs(crc, i);
    SplitRegisterBits(crc, b, i, Top(b), Top(i), LowByte(crc));
  }

  lemma ByteDefs(crc: bv16, b: bv8)
    ensures Top(b) == (b as bv16) << 8
    ensures Index(crc, b) == ((crc >> 8) as bv8) ^ b
    ensures LowByte(crc) == crc & 0xff
  {
  }

  lemma SplitRegisterBits(crc: bv16, b: bv8, i: bv8, bt: bv16, it: bv16, low: bv16)
    requires i == ((crc >> 8) as bv8) ^ b
    requires bt == (b as bv16) << 8 && it == (i as bv16) << 8 && low == crc & 0xff
    ensures crc ^ bt == it ^ low
  {
  }

  /** One table step is the division of eight message bits. */
  lemma ByteStep(crc: bv16, b: bv8)
    ensures Divide(crc, Bits(b)) == Add(Table(Index(crc, b)), crc << 8)
  {
    hide Shift, Shifts, Table, Divide, Word, Bits, Add, Top, LowByte, Index;
    DivideIsShifts(crc, Bits(b));
    WordOfByte(b);
    SplitRegister(crc, b);
    ShiftsLinear(Top(Index(crc, b)), LowByte(crc), 8);
    TableIsDivision(Index(crc, b));
    LowByteShifts(crc);
  }

  // ----- linearity over whole messages

  function XorBytes(a: seq<bv8>, b: seq<bv8>): (r: seq<bv8>)
    requires |a| == |b|
    ensures |r| == |a|
  {
    if a == [] then [] else [a[0] ^ b[0]] + XorBytes(a[1..], b[1..])
  }

  lemma ShiftInjectLinear(s: bv16, p: bool, t: bv16, q: bool)
    ensures Shift(Inject(Add(s, t), p != q)) == Add(Shift(Inject(s, p)), Shift(Inject(t, q)))
  {
    hide Shift, Add, TopBit;
    TopBitLinear(p, q);
    AddExchange(s, t, TopBit(p), TopBit(q));
    ShiftLinear(Inject(s, p), Inject(t, q));
  }

  lemma TopBitLinear(p: bool, q: bool)
    ensures TopBit(p != q) == Add(TopBit(p), TopBit(q))
  {
  }

  lemma {:induction false} DivideLinear(s: bv16, a: seq<bool>, t: bv16, b: seq<bool>, c: seq<bool>)
    requires |a| == |b| == |c|
    requires forall i :: 0 <= i < |a| ==> c[i] == (a[i] != b[i])
    ensures Divide(Add(s, t), c) == Add(Divide(s, a), Divide(t, b))
    decreases |a|
  {
    hide Inject, Shift, Add;
    if a != [] {
      ShiftInjectLinear(s, a[0], t, b[0]);
      DivideLinear(Shift(Inject(s, a[0])), a[1..], Shift(Inject(t, b[0])), b[1..], c[1..]);
    }
  }

  lemma FlagOfXor(a: bv8, b: bv8, mask: bv8)
    requires mask in {0x80, 0x40, 0x20, 0x10, 0x08, 0x04, 0x02, 0x01}
    ensures ((a ^ b) & mask != 0) == ((a & mask != 0) != (b & mask != 0))
  {
  }

  lemma BitsOfXor(a: bv8, b: bv8, c: bv8)
    requires c == a ^ b
    ensures forall i :: 0 <= i < 8 ==> Bits(c)[i] == (Bits(a)[i] != Bits(b)[i])
  {
    hide Bits;
    BitsDef(a);
    BitsDef(b);
    BitsDef(c);
    FlagOfXor(a, b, 0x80);
    FlagOfXor(a, b, 0x40);
    FlagOfXor(a, b, 0x20);
    FlagOfXor(a, b, 0x10);
    FlagOfXor(a, b, 0x08);
    FlagOfXor(a, b, 0x04);
    FlagOfXor(a, b, 0x02);
    FlagOfXor(a, b, 0x01);
    forall i | 0 <= i < 8
      ensures Bits(c)[i] == (Bits(a)[i] != Bits(b)[i])
    {
      assert i == 0 || i == 1 || i == 2 || i == 3 || i == 4 || i == 5 || i == 6 || i == 7;
    }
  }

  lemma BitsDef(b: bv8)
    ensures var r := Bits(b);
            && r[0] == (b & 0x80 != 0) && r[1] == (b & 0x40 != 0) && r[2] == (b & 0x20 != 0)
            && r[3] == (b & 0x10 != 0) && r[4] == (b & 0x08 != 0) && r[5] == (b & 0x04 != 0)
            && r[6] == (b & 0x02 != 0) && r[7] == (b & 0x01 != 0)
  {
  }

  /** The CRC is linear over XOR for buffers of equal length. */
  lemma {:induction false} CrcLinear(s: bv16, a: seq<bv8>, t: bv16, b: seq<bv8>)
    requires |a| == |b|
    ensures Divide(Add(s, t), Message(XorBytes(a, b))) == Add(Divide(s, Message(a)), Divide(t, Message(b)))
    decreases |a|
  {
    hide Inject, Shift, Bits, Add;
    if a != [] {
      var x := XorBytes(a, b);
      var p, q, c := Bits(a[0]), Bits(b[0]), Bits(x[0]);
      BitsOfXor(a[0], b[0], x[0]);
      DivideLinear(s, p, t, q, c);
      CrcLinear(Divide(s, p), a[1..], Divide(t, q), b[1..]);
      assert x[1..] == XorBytes(a[1..], b[1..]);
      MessageStep(s, a);
      MessageStep(t, b);
      MessageStep(Add(s, t), x);
    }
  }

  lemma MessageStep(s: bv16, a: seq<bv8>)
    requires a != []
    ensures Divide(s, Message(a)) == Divide(Divide(s, Bits(a[0])), Message(a[1..]))
  {
    hide Divide, Bits;
    DivideAppend(s, Bits(a[0]), Message(a[1..]));
  }

  lemma ReferenceLinear(a: seq<bv8>, b: seq<bv8>)
    requires |a| == |b|
    ensures Reference(XorBytes(a, b)) == Add(Reference(a), Reference(b))
  {
    hide Divide, Message, XorBytes;
    CrcLinear(0, a, 0, b);
  }

  // ----- burst errors

  lemma InjectInjective(s: bv16, t: bv16, bit: bool)
    requires s != t
    ensures Inject(s, bit) != Inject(t, bit)
  {
    hide Add, TopBit;
    AddCancels(s, TopBit(bit));
    AddCancels(t, TopBit(bit));
  }

  /** A wrong register stays wrong however the message goes on. */
  lemma {:induction false} DivideInjective(s: bv16, t: bv16, bits: seq<bool>)
    requires s != t
    ensures Divide(s, bits) != Divide(t, bits)
    decreases |bits|
  {
    hide Inject, Shift;
    if bits != [] {
      InjectInjective(s, t, bits[0]);
      ShiftInjective(Inject(s, bits[0]), Inject(t, bits[0]));
      DivideInjective(Shift(Inject(s, bits[0])), Shift(Inject(t, bits[0])), bits[1..]);
    }
  }

  lemma XorInjective(s: bv16, a: bv16, b: bv16)
    requires a != b
    ensures Add(s, a) != Add(s, b)
  {
    hide Add;
    AddCommutes(s, a);
    AddCommutes(s, b);
    AddCancels(a, s);
    AddCancels(b, s);
  }

  lemma BlocksSeparate(s: bv16, a: seq<bool>, b: seq<bool>)
    requires |a| == |b| <= 16 && a != b
    ensures Divide(s, a) != Divide(s, b)
  {
    hide Shifts, Word, Divide, Add;
    DivideIsShifts(s, a);
    DivideIsShifts(s, b);
    WordInjective(a, b);
    XorInjective(s, Word(a), Word(b));
    ShiftsInjective(Add(s, Word(a)), Add(s, Word(b)), |a|);
  }

  lemma BitsInjective(a: bv8, b: bv8)
    requires a != b
    ensures Bits(a) != Bits(b)
  {
    hide Bits;
    BitsDef(a);
    BitsDef(b);
    SameFlags(a, b);
  }

  lemma SameFlags(a: bv8, b: bv8)
    requires a != b
    ensures (a & 0x80 != 0) != (b & 0x80 != 0) || (a & 0x40 != 0) != (b & 0x40 != 0)
            || (a & 0x20 != 0) != (b & 0x20 != 0) || (a & 0x10 != 0) != (b & 0x10 != 0)
            || (a & 0x08 != 0) != (b & 0x08 != 0) || (a & 0x04 != 0) != (b & 0x04 != 0)
            || (a & 0x02 != 0) != (b & 0x02 != 0) || (a & 0x01 != 0) != (b & 0x01 != 0)
  {
  }

  lemma {:induction false} MessageInjective(a: seq<bv8>, b: seq<bv8>)
    requires |a| == |b| && a != b
    ensures Message(a) != Message(b)
    decreases |a|
  {
    hide Bits;
    assert Message(a)[..8] == Bits(a[0]) && Message(b)[..8] == Bits(b[0]);
    assert Message(a)[8..] == Message(a[1..]) && Message(b)[8..] == Message(b[1..]);
    if a[0] != b[0] {
      BitsInjective(a[0], b[0]);
    } else {
      assert a == [a[0]] + a[1..] && b == [b[0]] + b[1..];
      MessageInjective(a[1..], b[1..]);
    }
  }

  /** Two different buffers of one length never share a CRC when they differ only inside one
      window of 16 consecutive bits, wherever it lies. */
  lemma BurstDetected(a: seq<bv8>, b: seq<bv8>, lo: nat, hi: nat)
    requires |a| == |b| && a != b
    requires lo <= hi <= 8 * |a| && hi - lo <= 16
    requires Message(a)[..lo] == Message(b)[..lo] && Message(a)[hi..] == Message(b)[hi..]
    ensures Reference(a) != Reference(b)
  {
    hide Divide, Message;
    var p, q := Message(a), Message(b);
    MessageInjective(a, b);
    assert p == p[..lo] + (p[lo..hi] + p[hi..]);
    assert q == q[..lo] + (q[lo..hi] + q[hi..]);
    DivideAppend(0, p[..lo], p[lo..hi] + p[hi..]);
    DivideAppend(0, p[..lo], q[lo..hi] + q[hi..]);
    var s := Divide(0, p[..lo]);
    DivideAppend(s, p[lo..hi], p[hi..]);
    DivideAppend(s, q[lo..hi], p[hi..]);
    BlocksSeparate(s, p[lo..hi], q[lo..hi]);
    DivideInjective(Divide(s, p[lo..hi]), Divide(s, q[lo..hi]), p[hi..]);
  }

  /** The generator itself spans 17 bits and divides itself, so a window of 17 bits is not
      enough. */
  lemma SeventeenBitsCollide()
    ensures Reference([0x88, 0x10, 0x80]) == Reference([0, 0, 0])
  {
    hide Divide, Bits, Message;
    ThreeBytes(0x88, 0x10, 0x80, 0x1080, 0x8000, 0);
    ThreeBytes(0, 0, 0, 0, 0, 0);
  }

  lemma ThreeBytes(b0: bv8, b1: bv8, b2: bv8, s1: bv16, s2: bv16, s3: bv16)
    requires s1 == Add(Table(Index(0, b0)), 0 << 8)
    requires s2 == Add(Table(Index(s1, b1)), s1 << 8)
    requires s3 == Add(Table(Index(s2, b2)), s2 << 8)
    ensures Reference([b0, b1, b2]) == s3
  {
    hide Divide, Bits, Table, Add, Index;
    var m := [b0, b1, b2];
    assert m[1..] == [b1, b2] && [b1, b2][1..] == [b2] && [b2][1..] == [];
    MessageStep(0, m);
    ByteStep(0, b0);
    MessageStep(s1, [b1, b2]);
    ByteStep(s1, b1);
    MessageStep(s2, [b2]);
    ByteStep(s2, b2);
    DivideNothing(s3, Message([]));
  }
}

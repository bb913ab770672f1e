/** CRC-32 as the archive writer computes it: a table of 256 words, one look-up per byte. The
    reference is the bit-serial division it stands for: a shift register fed one message bit at a
    time, least significant bit first, with the reflected polynomial. */
module Crc {
  type Byte = bv8

  const POLYNOMIAL: bv32 := 0xedb8_8320

  /** A 32-bit register. */
  datatype Word = Word(bits: bv32)

  ghost function Xor(x: Word, y: Word): Word { Word(x.bits ^ y.bits) }

  ghost function OfByte(b: Byte): Word { Word(b as bv32) }

  // ---------------------------------------------------------------- reference: one bit at a time

  ghost function Feed(reg: bv32, bit: bool): bv32 {
    if (reg & 1 == 1) != bit then POLYNOMIAL ^ (reg >> 1) else reg >> 1
  }

  ghost function FeedBit(reg: Word, bit: bool): Word {
    Word(Feed(reg.bits, bit))
  }

  ghost predicate LowBit(w: Word) { w.bits & 1 == 1 }

  ghost function Half(w: Word): Word { Word(w.bits >> 1) }

  /** Feeds the `n` lowest bits of `w`, the lowest first. */
  ghost function FeedBits(reg: Word, w: Word, n: nat): Word
    decreases n
  {
    if n == 0 then reg else FeedBits(FeedBit(reg, LowBit(w)), Half(w), n - 1)
  }

  ghost function FeedBytes(reg: Word, data: seq<Byte>): Word {
    if data == [] then reg
    else FeedBits(FeedBytes(reg, data[..|data| - 1]), OfByte(data[|data| - 1]), 8)
  }

  const ONES: bv32 := 0xffff_ffff

  function Complement(c: bv32): bv32 { c ^ ONES }

  /** The CRC-32 of a message: register all ones, every bit fed in order, register complemented. */
  ghost function CrcOf(data: seq<Byte>): bv32 {
    Complement(FeedBytes(Word(ONES), data).bits)
  }

  // ---------------------------------------------------------------- shifting is linear

  function Step(c: bv32): bv32 {
    if c & 1 == 1 then POLYNOMIAL ^ (c >> 1) else c >> 1
  }

  ghost function Shift(w: Word): Word { Word(Step(w.bits)) }

  ghost function Shifts(w: Word, n: nat): Word
    decreases n
  {
    if n == 0 then w else Shifts(Shift(w), n - 1)
  }

  lemma BitsOfXor(x: bv32, y: bv32)
    ensures (x ^ y) >> 1 == (x >> 1) ^ (y >> 1)
    ensures (x ^ y) & 1 == 1 <==> ((x & 1 == 1) != (y & 1 == 1))
  {}

  lemma XorCancel(p: bv32, a: bv32, b: bv32)
    ensures (p ^ a) ^ (p ^ b) == a ^ b
    ensures (p ^ a) ^ b == p ^ (a ^ b) == a ^ (p ^ b)
  {}

  lemma StepLinear(x: bv32, y: bv32)
    ensures Step(x ^ y) == Step(x) ^ Step(y)
  {
    BitsOfXor(x, y);
    XorCancel(POLYNOMIAL, x >> 1, y >> 1);
  }

  lemma ShiftOf(c: bv32)
    ensures Shift(Word(c)) == Word(Step(c))
  {}

  lemma XorOf(x: bv32, y: bv32)
    ensures Xor(Word(x), Word(y)) == Word(x ^ y)
  {}

  lemma ShiftLinear(x: Word, y: Word)
    ensures Shift(Xor(x, y)) == Xor(Shift(x), Shift(y))
  {
    hide *;
    XorOf(x.bits, y.bits);
    ShiftOf(x.bits ^ y.bits);
    ShiftOf(x.bits);
    ShiftOf(y.bits);
    StepLinear(x.bits, y.bits);
    XorOf(Step(x.bits), Step(y.bits));
  }

  /** Shifting is linear. */
  lemma {:induction false} ShiftsLinear(x: Word, y: Word, n: nat)
    ensures Shifts(Xor(x, y), n) == Xor(Shifts(x, n), Shifts(y, n))
    decreases n
  {
    if n > 0 {
      ShiftLinear(x, y);
      ShiftsLinear(Shift(x), Shift(y), n - 1);
    }
  }

  // ---------------------------------------------------------------- a whole byte at once

  ghost function Halves(w: Word, n: nat): Word
    decreases n
  {
    if n == 0 then w else Halves(Half(w), n - 1)
  }

  lemma FeedIsStep(reg: bv32, w: bv32)
    ensures Step(reg ^ w) == Feed(reg, w & 1 == 1) ^ (w >> 1)
  {
    BitsOfXor(reg, w);
    XorCancel(POLYNOMIAL, reg >> 1, w >> 1);
  }

  lemma FeedOf(reg: bv32, w: bv32)
    ensures FeedBit(Word(reg), LowBit(Word(w))) == Word(Feed(reg, w & 1 == 1))
    ensures Half(Word(w)) == Word(w >> 1)
  {}

  lemma FeedIsShift(reg: Word, w: Word)
    ensures Shift(Xor(reg, w)) == Xor(FeedBit(reg, LowBit(w)), Half(w))
  {
    hide *;
    XorOf(reg.bits, w.bits);
    ShiftOf(reg.bits ^ w.bits);
    FeedIsStep(reg.bits, w.bits);
    FeedOf(reg.bits, w.bits);
    XorOf(Feed(reg.bits, w.bits & 1 == 1), w.bits >> 1);
  }

  /** Mixing `n` bits in at once, then shifting, feeds them one by one. */
  lemma {:induction false} FeedIsShifts(reg: Word, w: Word, n: nat)
    ensures Shifts(Xor(reg, w), n) == Xor(FeedBits(reg, w, n), Halves(w, n))
    decreases n
  {
    if n > 0 {
      FeedIsShift(reg, w);
      FeedIsShifts(FeedBit(reg, LowBit(w)), Half(w), n - 1);
    }
  }

  /** The `n` lowest bits are zero. */
  ghost predicate Clear(w: Word, n: nat)
    decreases n
  {
    n == 0 || (!LowBit(w) && Clear(Half(w), n - 1))
  }

  lemma {:induction false} ClearShifts(w: Word, n: nat)
    requires Clear(w, n)
    ensures Shifts(w, n) == Halves(w, n)
    decreases n
  {
    if n > 0 {
      ClearShifts(Half(w), n - 1);
    }
  }

  lemma ClearByte(w: Word)
    requires w.bits & 0xff == 0
    ensures Clear(w, 8)
  {
    ClearBits(w.bits);
    var w1 := Half(w);
    var w2 := Half(w1);
    var w3 := Half(w2);
    var w4 := Half(w3);
    var w5 := Half(w4);
    var w6 := Half(w5);
    var w7 := Half(w6);
    assert Clear(Half(w7), 0);
    assert Clear(w7, 1);
    assert Clear(w6, 2);
    assert Clear(w5, 3);
    assert Clear(w4, 4);
    assert Clear(w3, 5);
    assert Clear(w2, 6);
    assert Clear(w1, 7);
  }

  lemma ClearBits(c: bv32)
    requires c & 0xff == 0
    ensures c & 1 == 0 && (c >> 1) & 1 == 0 && (c >> 1 >> 1) & 1 == 0 && (c >> 1 >> 1 >> 1) & 1 == 0
    ensures (c >> 1 >> 1 >> 1 >> 1) & 1 == 0 && (c >> 1 >> 1 >> 1 >> 1 >> 1) & 1 == 0
    ensures (c >> 1 >> 1 >> 1 >> 1 >> 1 >> 1) & 1 == 0 && (c >> 1 >> 1 >> 1 >> 1 >> 1 >> 1 >> 1) & 1 == 0
  {}

  ghost function Half4(w: Word): Word { Half(Half(Half(Half(w)))) }

  lemma FourHalves(w: Word, n: nat)
    requires n >= 4
    ensures Halves(w, n) == Halves(Half4(w), n - 4)
  {
    hide Half;
    var w1 := Half(w);
    var w2 := Half(w1);
    var w3 := Half(w2);
    assert Halves(w, n) == Halves(w1, n - 1);
    assert Halves(w1, n - 1) == Halves(w2, n - 2);
    assert Halves(w2, n - 2) == Halves(w3, n - 3);
  }

  lemma Half4Of(c: bv32)
    ensures Half4(Word(c)) == Word(c >> 4)
  {}

  lemma FourFour(c: bv32)
    ensures (c >> 4) >> 4 == c >> 8
  {}

  lemma Half4Twice(c: bv32)
    ensures Half4(Half4(Word(c))) == Word(c >> 8)
  {
    hide *;
    Half4Of(c);
    Half4Of(c >> 4);
    FourFour(c);
  }

  lemma HalvesZero(w: Word)
    ensures Halves(w, 0) == w
  {}

  lemma EightHalves(c: bv32)
    ensures Halves(Word(c), 8) == Word(c >> 8)
  {
    hide *;
    FourHalves(Word(c), 8);
    FourHalves(Half4(Word(c)), 4);
    HalvesZero(Half4(Half4(Word(c))));
    Half4Twice(c);
  }

  // ---------------------------------------------------------------- the table and the loop

  function Low(c: bv32, d: bv32): bv32 { (c ^ d) & 0xff }

  ghost function High(c: bv32, d: bv32): bv32 { (c ^ d) & 0xffff_ff00 }

  lemma LowHigh(c: bv32, d: bv32)
    requires d & 0xffff_ff00 == 0
    ensures Low(c, d) ^ High(c, d) == c ^ d
    ensures Word(High(c, d)).bits & 0xff == 0
    ensures High(c, d) >> 8 == c >> 8
    ensures d >> 8 == 0
  {}

  lemma ByteIsSmall(b: Byte)
    ensures (b as bv32) & 0xffff_ff00 == 0
    ensures OfByte(b) == Word(b as bv32)
  {}

  lemma XorZero(w: Word)
    ensures Xor(w, Word(0)) == w
  {}

  /** The high bits only move down: they meet no polynomial. */
  lemma HighShifts(c: bv32, d: bv32)
    requires d & 0xffff_ff00 == 0
    ensures Shifts(Word(High(c, d)), 8) == Word(c >> 8)
  {
    hide *;
    LowHigh(c, d);
    ClearByte(Word(High(c, d)));
    ClearShifts(Word(High(c, d)), 8);
    EightHalves(High(c, d));
  }

  lemma XorSplits(c: bv32, d: bv32)
    requires d & 0xffff_ff00 == 0
    ensures Xor(Word(c), Word(d)) == Xor(Word(Low(c, d)), Word(High(c, d)))
  {
    hide *;
    LowHigh(c, d);
    XorOf(c, d);
    XorOf(Low(c, d), High(c, d));
  }

  lemma SplitShifts(c: bv32, d: bv32)
    requires d & 0xffff_ff00 == 0
    ensures Shifts(Xor(Word(c), Word(d)), 8) == Xor(Shifts(Word(Low(c, d)), 8), Word(c >> 8))
  {
    hide *;
    XorSplits(c, d);
    ShiftsLinear(Word(Low(c, d)), Word(High(c, d)), 8);
    HighShifts(c, d);
  }

  lemma FeedsAll(c: bv32, d: bv32)
    requires d & 0xffff_ff00 == 0
    ensures Shifts(Xor(Word(c), Word(d)), 8) == FeedBits(Word(c), Word(d), 8)
  {
    hide *;
    LowHigh(c, d);
    FeedIsShifts(Word(c), Word(d), 8);
    EightHalves(d);
    XorZero(FeedBits(Word(c), Word(d), 8));
  }

  /** What the table holds at `n`: the register after eight shifts from `n`. */
  ghost function Entry(n: nat): Word
    requires n < 256
  {
    Shifts(Word(n as bv32), 8)
  }

  lemma LowIndex(c: bv32, b: Byte)
    ensures Low(c, b as bv32) as int < 256
    ensures (Low(c, b as bv32) as int) as bv32 == Low(c, b as bv32)
  {}

  lemma EntryOf(n: nat)
    requires n < 256
    ensures Entry(n) == Shifts(Word(n as bv32), 8)
  {}

  /** One look-up feeds the register all eight bits of a byte. */
  lemma LookUpFeedsByte(c: bv32, b: Byte, index: nat)
    requires index == Low(c, b as bv32) as int < 256
    ensures Xor(Entry(index), Word(c >> 8)) == FeedBits(Word(c), OfByte(b), 8)
  {
    hide *;
    LowIndex(c, b);
    EntryOf(index);
    ByteIsSmall(b);
    SplitShifts(c, b as bv32);
    FeedsAll(c, b as bv32);
  }

  ghost predicate TableReady(table: array<bv32>)
    reads table
  {
    table.Length == 256 && forall n :: 0 <= n < 256 ==> Word(table[n]) == Entry(n)
  }

  /** The table of the 256 bytes: eight shifts each. */
  method MakeTable() returns (table: array<bv32>)
    ensures fresh(table) && TableReady(table)
  {
    hide Entry;
    table := new bv32[256];
    for n := 0 to 256
      invariant forall m :: 0 <= m < n ==> Word(table[m]) == Entry(m)
    {
      var c := MakeEntry(n);
      table[n] := c;
    }
  }

  method MakeEntry(n: nat) returns (c: bv32)
    requires n < 256
    ensures Word(c) == Entry(n)
  {
    c := n as bv32;
    for k := 0 to 8
      invariant Shifts(Word(c), 8 - k) == Entry(n)
    {
      c := Step(c);
    }
  }

  method NextRegister(table: array<bv32>, c: bv32, b: Byte) returns (next: bv32)
    requires TableReady(table)
    ensures Word(next) == FeedBits(Word(c), OfByte(b), 8)
  {
    LowIndex(c, b);
    var index: nat := Low(c, b as bv32) as int;
    next := table[index] ^ (c >> 8);
    LookUpFeedsByte(c, b, index);
    XorOf(table[index], c >> 8);
  }

  lemma FeedOneMore(reg: Word, data: seq<Byte>, i: nat)
    requires i < |data|
    ensures FeedBytes(reg, data[..i + 1]) == FeedBits(FeedBytes(reg, data[..i]), OfByte(data[i]), 8)
  {
    hide FeedBits;
    assert data[..i + 1][..i] == data[..i];
  }

  lemma CrcOfRegister(data: seq<Byte>, c: bv32)
    requires Word(c) == FeedBytes(Word(ONES), data)
    ensures Complement(c) == CrcOf(data)
  {
    hide FeedBytes;
  }

  lemma FeedNone(reg: Word, data: seq<Byte>)
    ensures FeedBytes(reg, data[..0]) == reg
    ensures data[..|data|] == data
  {}

  /** The table-driven loop computes the bit-serial CRC of every byte sequence. */
  method Crc32(table: array<bv32>, data: seq<Byte>) returns (crc: bv32)
    requires TableReady(table)
    ensures crc == CrcOf(data)
  {
    hide *;
    var c := ONES;
    FeedNone(Word(c), data);
    for i := 0 to |data|
      invariant Word(c) == FeedBytes(Word(ONES), data[..i])
    {
      FeedOneMore(Word(ONES), data, i);
      c := NextRegister(table, c, data[i]);
    }
    CrcOfRegister(data, c);
    crc := Complement(c);
  }
}

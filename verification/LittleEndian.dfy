/** Bytes of a number, the lowest first, and the number they make. */
module LittleEndian {
  /** Quotient and remainder, rounding down. */
  function Div(v: int, k: nat): int
    requires k > 0
  {
    v / k
  }

  function Mod(v: int, k: nat): int
    requires k > 0
  {
    v % k
  }

  lemma Positive(d: nat, x: int)
    ensures x > 0 ==> d * x >= d
    ensures x < 0 ==> d * x <= -(d as int)
  {
    if x > 0 {
      Step(d, x - 1);
    } else if x < 0 {
      Step(d, -x - 1);
      assert d * x == -(d * -x);
    }
  }

  lemma {:induction false} Step(d: nat, n: nat)
    ensures d * (n + 1) >= d
  {
    if n > 0 {
      Step(d, n - 1);
      assert d * (n + 1) == d * n + d;
    }
  }

  /** Quotient and remainder are unique. */
  lemma Unique(v: int, d: nat, k: int, t: int)
    requires d > 0 && v == d * k + t && 0 <= t < d
    ensures Div(v, d) == k && Mod(v, d) == t
  {
    assert v == d * (v / d) + v % d;
    assert d * (k - v / d) == v % d - t;
    Positive(d, k - v / d);
  }

  /** A remainder in two digits. */
  lemma Split(v: int, a: nat, b: nat)
    requires a > 0 && b > 0
    ensures a * b > 0
    ensures Mod(v, a * b) == Mod(v, a) + a * Mod(Div(v, a), b)
    ensures Div(v, a * b) == Div(Div(v, a), b)
  {
    var q, r := v / a, v % a;
    var k, s := q / b, q % b;
    Positive(a, b - s);
    assert a * (b - s) == a * b - a * s;
    assert a * (b * k + s) == a * b * k + a * s;
    Unique(v, a * b, k, a * s + r);
  }

  predicate Odd(v: int) { Mod(v, 2) == 1 }

  function FromBits(b0: bool, b1: bool, b2: bool, b3: bool, b4: bool, b5: bool, b6: bool, b7: bool): bv8 {
    (if b0 then 0x01 else 0) | (if b1 then 0x02 else 0) | (if b2 then 0x04 else 0) | (if b3 then 0x08 else 0)
    | (if b4 then 0x10 else 0) | (if b5 then 0x20 else 0) | (if b6 then 0x40 else 0) | (if b7 then 0x80 else 0)
  }

  /** The byte of a number's eight lowest bits. */
  function ByteOf(v: int): bv8 {
    var high := Div(v, 16);
    FromBits(Odd(v), Odd(Div(v, 2)), Odd(Div(v, 4)), Odd(Div(v, 8)),
             Odd(high), Odd(Div(high, 2)), Odd(Div(high, 4)), Odd(Div(high, 8)))
  }

  ghost function Unit(b: bool): nat { if b then 1 else 0 }

  ghost function Weight(b0: bool, b1: bool, b2: bool, b3: bool, b4: bool, b5: bool, b6: bool, b7: bool): nat {
    Unit(b0) + 2 * Unit(b1) + 4 * Unit(b2) + 8 * Unit(b3)
    + 16 * Unit(b4) + 32 * Unit(b5) + 64 * Unit(b6) + 128 * Unit(b7)
  }

  lemma BitsCount(b0: bool, b1: bool, b2: bool, b3: bool, b4: bool, b5: bool, b6: bool, b7: bool)
    ensures FromBits(b0, b1, b2, b3, b4, b5, b6, b7) as nat == Weight(b0, b1, b2, b3, b4, b5, b6, b7)
  {}

  lemma NoBits()
    ensures FromBits(false, false, false, false, false, false, false, false) == 0
  {}

  lemma LastBit(v: int)
    ensures Mod(v, 2) == Unit(Odd(v))
  {}

  lemma LowBits(v: int)
    ensures Mod(v, 16) == Unit(Odd(v)) + 2 * Unit(Odd(Div(v, 2))) + 4 * Unit(Odd(Div(v, 4))) + 8 * Unit(Odd(Div(v, 8)))
  {
    hide Div, Mod, Odd, Unit;
    Split(v, 2, 2);
    Split(v, 4, 2);
    Split(v, 8, 2);
    LastBit(v);
    LastBit(Div(v, 2));
    LastBit(Div(v, 4));
    LastBit(Div(v, 8));
  }

  lemma EightBits(v: int)
    ensures var high := Div(v, 16);
      Mod(v, 256) == Weight(Odd(v), Odd(Div(v, 2)), Odd(Div(v, 4)), Odd(Div(v, 8)),
                            Odd(high), Odd(Div(high, 2)), Odd(Div(high, 4)), Odd(Div(high, 8)))
  {
    hide Div, Mod, Odd, Unit;
    LowBits(v);
    LowBits(Div(v, 16));
    Split(v, 16, 16);
  }

  lemma ByteCounts(v: int)
    ensures ByteOf(v) as nat == Mod(v, 256)
  {
    hide Div, Mod, Odd, FromBits, Weight;
    EightBits(v);
    var high := Div(v, 16);
    BitsCount(Odd(v), Odd(Div(v, 2)), Odd(Div(v, 4)), Odd(Div(v, 8)),
              Odd(high), Odd(Div(high, 2)), Odd(Div(high, 4)), Odd(Div(high, 8)));
  }

  lemma ByteOfZero()
    ensures ByteOf(0) == 0
  {
    hide FromBits;
    NoBits();
  }

  lemma Digits16(v: int)
    ensures Mod(v, 0x1_0000) == Mod(v, 256) + 256 * Mod(Div(v, 256), 256)
  {
    hide Div, Mod;
    Split(v, 256, 256);
  }

  lemma Digits32(v: int)
    ensures Mod(v, 0x1_0000_0000)
         == Mod(v, 256) + 256 * Mod(Div(v, 256), 256)
            + 65536 * Mod(Div(v, 65536), 256) + 16777216 * Mod(Div(v, 16777216), 256)
  {
    hide Div, Mod;
    Split(v, 0x1_0000, 0x1_0000);
    Digits16(v);
    Digits16(Div(v, 65536));
    Split(v, 65536, 256);
  }
}

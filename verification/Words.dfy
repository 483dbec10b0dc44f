/** The 32-bit words of the ZIP cipher: what its masks and shifts amount to, and the CRC-32
    register of section 4.4.7 of PKWARE APPNOTE.TXT, one bit at a time. */
module Words {

  function LowByte(x: bv32): bv8 {
    (x & 0xff) as bv8
  }

  function Xor32(a: bv32, b: bv32): bv32 {
    a ^ b
  }

  function Product(a: bv32, b: bv32): bv32 {
    a * b
  }

  /** The 16 low bits with bit 1 set. */
  function Temp(k2: bv32): bv32 {
    (k2 & 0xffff) | 2
  }

  // ---------------------------------------------------------------------------
  // The same without masks and shifts
  // ---------------------------------------------------------------------------

  function Lower(x: bv32): bv32 {
    4 * (x % 0x1_0000 / 4) + 2
  }

  function Upper(x: bv32): bv32 {
    4 * (x % 0x1_0000 / 4) + 3
  }

  function SecondByte(x: bv32): bv32 {
    x / 256 % 256
  }

  lemma TempIsOneOfTwo(x: bv32)
    ensures Temp(x) == Lower(x) || Temp(x) == Upper(x)
  {
  }

  lemma Neighbours(x: bv32)
    ensures Xor32(Lower(x), 1) == Upper(x) && Xor32(Upper(x), 1) == Lower(x)
  {
  }

  lemma FactorsAreSmall(x: bv32)
    ensures Lower(x) < Upper(x) < 0x1_0000
  {
  }

  lemma ProductCommutes(x: bv32, y: bv32)
    ensures Product(x, y) == Product(y, x)
  {
  }

  /** The second lowest byte. */
  function Middle(x: bv32): bv8 {
    LowByte(x >> 8)
  }

  function Widened(b: bv8): bv32 {
    b as bv32
  }

  lemma SecondByteIs(x: bv32)
    ensures Widened(Middle(x)) == SecondByte(x)
  {
  }

  /** The key byte of the cipher depends on bits 2 to 15 of its word alone. The factors are so
      small that their product is exact. */
  lemma KeyByteIs(x: bv32)
    ensures Lower(x) < Upper(x) < 0x1_0000
    ensures Widened(Middle(Product(Temp(x), Xor32(Temp(x), 1)))) == SecondByte(Product(Lower(x), Upper(x)))
  {
    TempIsOneOfTwo(x);
    Neighbours(x);
    FactorsAreSmall(x);
    ProductCommutes(Lower(x), Upper(x));
    SecondByteIs(Product(Lower(x), Upper(x)));
    hide *;
  }

  // ---------------------------------------------------------------------------
  // The CRC register
  // ---------------------------------------------------------------------------

  /** One step of the register. */
  function Shift(c: bv32): bv32 {
    if c & 1 == 1 then (c >> 1) ^ 0xEDB8_8320 else c >> 1
  }

  function Shifts(c: bv32, n: nat): bv32
    decreases n
  {
    if n == 0 then c else Shifts(Shift(c), n - 1)
  }

  /** What the register makes of a byte in eight steps. */
  function Remainder(b: bv8): bv32 {
    Shifts(Widened(b), 8)
  }

  lemma ShiftIsLinear(x: bv32, y: bv32)
    ensures Shift(Xor32(x, y)) == Xor32(Shift(x), Shift(y))
  {
    XorByBits(x, y);
    XorMoves(x >> 1, y >> 1, 0xEDB8_8320);
  }

  lemma XorByBits(x: bv32, y: bv32)
    ensures (x ^ y) & 1 == (x & 1) ^ (y & 1) && (x ^ y) >> 1 == (x >> 1) ^ (y >> 1)
    ensures (x & 1 == 0 || x & 1 == 1) && (y & 1 == 0 || y & 1 == 1)
  {
  }

  lemma XorMoves(a: bv32, b: bv32, p: bv32)
    ensures (a ^ b) ^ p == (a ^ p) ^ b == a ^ (b ^ p) && (a ^ p) ^ (b ^ p) == a ^ b
  {
  }

  lemma {:induction false} ShiftsAreLinear(x: bv32, y: bv32, n: nat)
    ensures Shifts(Xor32(x, y), n) == Xor32(Shifts(x, n), Shifts(y, n))
    decreases n
  {
    hide Shift, Xor32;
    if n > 0 {
      ShiftIsLinear(x, y);
      ShiftsAreLinear(Shift(x), Shift(y), n - 1);
    }
  }

  function Twice(h: bv32): bv32 {
    h << 1
  }

  predicate IsSmall(h: bv32) {
    h < 0x8000_0000
  }

  lemma ZeroMovesOut(h: bv32)
    requires IsSmall(h)
    ensures Shift(Twice(h)) == h
  {
  }

  function Doubled(h: bv32, n: nat): bv32
    decreases n
  {
    if n == 0 then h else Twice(Doubled(h, n - 1))
  }

  lemma {:induction false} ZerosMoveOut(h: bv32, n: nat)
    requires forall i: nat :: i < n ==> IsSmall(Doubled(h, i))
    ensures Shifts(Doubled(h, n), n) == h
    decreases n
  {
    hide Shift, Twice, IsSmall;
    if n > 0 {
      ZeroMovesOut(Doubled(h, n - 1));
      ZerosMoveOut(h, n - 1);
    }
  }

  function High(c: bv32): bv32 {
    c >> 8
  }

  function Index(c: bv32, b: bv8): bv8 {
    LowByte(c) ^ b
  }

  lemma Recombined(c: bv32, b: bv8)
    ensures Xor32(c, Widened(b)) == Xor32(Widened(Index(c, b)), Doubled(High(c), 8))
    ensures forall i: nat :: i < 8 ==> IsSmall(Doubled(High(c), i))
  {
  }

  /** The eight steps for a byte: the low byte by itself, the others move down. */
  lemma ByteStep(c: bv32, b: bv8)
    ensures Shifts(Xor32(c, Widened(b)), 8) == Xor32(Remainder(Index(c, b)), High(c))
  {
    Recombined(c, b);
    hide Xor32, Index, High, Shifts, Widened, Doubled, IsSmall;
    ShiftsAreLinear(Widened(Index(c, b)), Doubled(High(c), 8), 8);
    ZerosMoveOut(High(c), 8);
  }

  lemma KnownRemainders()
    ensures Remainder(0x19) == 0x646B_A8C0 && Remainder(0x23) == 0xA267_7172
  {
    assert Shifts(0x19, 8) == 0x646B_A8C0;
    assert Shifts(0x23, 8) == 0xA267_7172;
  }
}

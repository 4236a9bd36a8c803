/**
 * CRC32C (section 12.1 of RFC 3720): the bit-by-bit division, the table-driven form and burst detection.
 * Registers are naturals below 2^32: a right shift is a division, a mask of low bits a remainder,
 * the complement a subtraction from all ones.
 */
module Crc32c {
  import opened Bytes

  // The reflected Castagnoli polynomial.
  const POLY: U32 := 0x82F6_3B78
  const ONES: U32 := 0xFFFF_FFFF

  /** Bitwise exclusive or. */
  function Xor(a: nat, b: nat): nat
    decreases a + b
  {
    if a == 0 && b == 0 then 0 else (a + b) % 2 + 2 * Xor(a / 2, b / 2)
  }

  /** One step of the reflected polynomial division: shift right, subtract the divisor when a one falls out. */
  function Step(x: nat): nat {
    if x % 2 == 1 then Xor(x / 2, POLY) else x / 2
  }

  function Steps(x: nat, n: nat): nat
    decreases n
  {
    if n == 0 then x else Steps(Step(x), n - 1)
  }

  /** The reference: the register after feeding every byte through eight division steps. */
  function Register(reg: nat, data: Bytes): nat
    decreases data
  {
    if data == [] then reg else Register(Steps(Xor(reg, data[0]), 8), data[1..])
  }

  function Extend(prior: U32, data: Bytes): U32 {
    RegisterBounded(ONES - prior, data);
    ONES - Register(ONES - prior, data)
  }

  function Crc(data: Bytes): U32 {
    Extend(0, data)
  }

  // ---- The polynomial ----

  lemma SmallPowers()
    ensures Pow2(3) == 8 && Pow2(4) == 16 && Pow2(5) == 32 && Pow2(6) == 64 && Pow2(8) == 256 && Pow2(9) == 512
    ensures Pow2(11) == 0x800 && Pow2(12) == 0x1000 && Pow2(13) == 0x2000
  {
  }

  lemma LargePowers()
    ensures Pow2(17) == 0x2_0000 && Pow2(18) == 0x4_0000 && Pow2(20) == 0x10_0000 && Pow2(21) == 0x20_0000
    ensures Pow2(22) == 0x40_0000 && Pow2(23) == 0x80_0000 && Pow2(25) == 0x200_0000 && Pow2(31) == 0x8000_0000
  {
    assert Pow2(12) == 0x1000;
    assert Pow2(16) == 0x1_0000;
    assert Pow2(20) == 0x10_0000;
    assert Pow2(24) == 0x100_0000;
    assert Pow2(28) == 0x1000_0000;
  }

  /**
   * The divisor of the loops is the polynomial of section 12.1 of RFC 3720, x^32 + x^28 + x^27 + x^26 + x^25 + x^23 +
   * x^22 + x^20 + x^19 + x^18 + x^14 + x^13 + x^11 + x^10 + x^9 + x^8 + x^6 + 1, reflected: the coefficient of x^k is
   * bit 31 - k.
   */
  lemma PolyIsCastagnoli()
    ensures POLY
         == Pow2(31 - 28) + Pow2(31 - 27) + Pow2(31 - 26) + Pow2(31 - 25) + Pow2(31 - 23) + Pow2(31 - 22) + Pow2(31 - 20)
            + Pow2(31 - 19) + Pow2(31 - 18) + Pow2(31 - 14) + Pow2(31 - 13) + Pow2(31 - 11) + Pow2(31 - 10) + Pow2(31 - 9)
            + Pow2(31 - 8) + Pow2(31 - 6) + Pow2(31 - 0)
  {
    hide Pow2;
    SmallPowers();
    LargePowers();
  }

  // ---- Exclusive or ----

  lemma {:induction false} XorCommutes(a: nat, b: nat)
    ensures Xor(a, b) == Xor(b, a)
    decreases a + b
  {
    if a > 0 || b > 0 {
      XorCommutes(a / 2, b / 2);
    }
  }

  lemma {:induction false} XorAssociates(a: nat, b: nat, c: nat)
    ensures Xor(Xor(a, b), c) == Xor(a, Xor(b, c))
    decreases a + b + c
  {
    if a > 0 || b > 0 || c > 0 {
      var ab, bc := Xor(a, b), Xor(b, c);
      XorParts(a, b);
      XorParts(b, c);
      XorParts(ab, c);
      XorParts(a, bc);
      ParityOfSums(a, b, c, ab, bc);
      XorAssociates(a / 2, b / 2, c / 2);
      SameBits(Xor(ab, c), Xor(a, bc));
    }
  }

  lemma {:induction false} XorParts(a: nat, b: nat)
    ensures Xor(a, b) % 2 == (a + b) % 2
    ensures Xor(a, b) / 2 == Xor(a / 2, b / 2)
  {
    if a > 0 || b > 0 {
      BitAndRest((a + b) % 2, Xor(a / 2, b / 2));
    }
  }

  lemma BitAndRest(bit: nat, rest: nat)
    requires bit < 2
    ensures (bit + 2 * rest) % 2 == bit && (bit + 2 * rest) / 2 == rest
  {
  }

  lemma SameBits(x: nat, y: nat)
    requires x % 2 == y % 2 && x / 2 == y / 2
    ensures x == y
  {
  }

  lemma ParityOfSums(a: nat, b: nat, c: nat, x: nat, y: nat)
    requires x % 2 == (a + b) % 2 && y % 2 == (b + c) % 2
    ensures (x + c) % 2 == (a + y) % 2
  {
  }

  lemma {:induction false} XorZero(a: nat)
    ensures Xor(a, 0) == a && Xor(0, a) == a
  {
    if a > 0 {
      XorZero(a / 2);
    }
  }

  lemma {:induction false} XorSelf(a: nat)
    ensures Xor(a, a) == 0
  {
    if a > 0 {
      XorSelf(a / 2);
    }
  }

  lemma XorCancels(r: nat, x: nat, y: nat)
    requires Xor(r, x) == Xor(r, y)
    ensures x == y
  {
    XorAssociates(r, r, x);
    XorAssociates(r, r, y);
    XorSelf(r);
    XorZero(x);
    XorZero(y);
  }

  lemma {:induction false} XorBounded(a: nat, b: nat, n: nat)
    requires a < Pow2(n) && b < Pow2(n)
    ensures Xor(a, b) < Pow2(n)
    decreases n
  {
    if n > 0 {
      XorBounded(a / 2, b / 2, n - 1);
    }
  }

  lemma {:induction false} XorTopBit(a: nat, b: nat, n: nat)
    requires a < Pow2(n) <= b
    ensures Pow2(n) <= Xor(a, b)
    decreases n
  {
    if n == 0 {
      XorZero(b);
    } else {
      XorTopBit(a / 2, b / 2, n - 1);
    }
  }

  // ---- Division steps ----

  /** Bits above the lowest only move down one place; they do not take part in the division. */
  lemma {:induction false} StepAbsorbs(x: nat, y: nat)
    ensures Step(Xor(x, 2 * y)) == Xor(Step(x), y)
  {
    hide Xor;
    XorParts(x, 2 * y);
    BitAndRest(0, y);
    assert (x + 2 * y) % 2 == x % 2;
    if x % 2 == 1 {
      XorAssociates(x / 2, y, POLY);
      XorCommutes(y, POLY);
      XorAssociates(x / 2, POLY, y);
    }
  }

  /** y moved up by n bits. */
  function Shift(y: nat, n: nat): nat {
    if n == 0 then y else 2 * Shift(y, n - 1)
  }

  lemma ShiftByByte(y: nat)
    ensures Shift(y, 8) == 256 * y
  {
    assert Shift(y, 1) == 2 * y;
    assert Shift(y, 2) == 4 * y;
    assert Shift(y, 4) == 16 * y;
    assert Shift(y, 6) == 64 * y;
  }

  lemma {:induction false} StepsAbsorb(x: nat, y: nat, n: nat)
    ensures Steps(Xor(x, Shift(y, n)), n) == Xor(Steps(x, n), y)
    decreases n
  {
    if n > 0 {
      StepAbsorbs(x, Shift(y, n - 1));
      StepsAbsorb(Step(x), y, n - 1);
    }
  }

  lemma StepBounded(x: nat)
    requires x <= ONES
    ensures Step(x) <= ONES
  {
    Pow2Values();
    XorBounded(x / 2, POLY, 32);
  }

  lemma {:induction false} StepsBounded(x: nat, n: nat)
    requires x <= ONES
    ensures Steps(x, n) <= ONES
    decreases n
  {
    if n > 0 {
      StepBounded(x);
      StepsBounded(Step(x), n - 1);
    }
  }

  lemma FedBounded(reg: nat, b: nat)
    requires reg <= ONES && b <= ONES
    ensures Xor(reg, b) <= ONES
  {
    Pow2Values();
    XorBounded(reg, b, 32);
  }

  lemma {:induction false} RegisterBounded(reg: nat, data: Bytes)
    requires reg <= ONES
    ensures Register(reg, data) <= ONES
    decreases data
  {
    if data != [] {
      FedBounded(reg, data[0]);
      StepsBounded(Xor(reg, data[0]), 8);
      RegisterBounded(Steps(Xor(reg, data[0]), 8), data[1..]);
    }
  }

  /** The polynomial's top bit marks the steps that subtracted it, so a step can be undone. */
  lemma StepInjective(x: nat, y: nat)
    requires x <= ONES && y <= ONES
    requires Step(x) == Step(y)
    ensures x == y
  {
    Pow2Values();
    XorTopBit(x / 2, POLY, 31);
    XorTopBit(y / 2, POLY, 31);
    if x % 2 == 1 && y % 2 == 1 {
      XorCommutes(x / 2, POLY);
      XorCommutes(y / 2, POLY);
      XorCancels(POLY, x / 2, y / 2);
    }
  }

  lemma {:induction false} StepsInjective(x: nat, y: nat, n: nat)
    requires x <= ONES && y <= ONES
    requires Steps(x, n) == Steps(y, n)
    ensures x == y
    decreases n
  {
    if n > 0 {
      StepBounded(x);
      StepBounded(y);
      StepsInjective(Step(x), Step(y), n - 1);
      StepInjective(x, y);
    }
  }

  lemma {:induction false} StepsCompose(x: nat, m: nat, n: nat)
    ensures Steps(Steps(x, m), n) == Steps(x, m + n)
    decreases m
  {
    if m > 0 {
      StepsCompose(Step(x), m - 1, n);
    }
  }

  // ---- The table-driven form ----

  /** Low bits and high bits do not meet. */
  lemma XorOfEven(low: nat, half: nat)
    requires Xor(low / 2, half) == low / 2 + half
    ensures Xor(low, 2 * half) == low + 2 * half
  {
    hide Xor;
    XorParts(low, 2 * half);
    BitAndRest(0, half);
    SameBits(Xor(low, 2 * half), low + 2 * half);
  }

  lemma {:induction false} XorOfParts(low: nat, high: nat, n: nat)
    requires low < Pow2(n)
    ensures Xor(low, Shift(high, n)) == low + Shift(high, n)
    decreases n
  {
    hide Xor;
    if n == 0 {
      XorZero(high);
    } else {
      XorOfParts(low / 2, high, n - 1);
      XorOfEven(low, Shift(high, n - 1));
    }
  }

  lemma XorOfByte(low: Byte, high: nat)
    ensures Xor(low, 256 * high) == low + 256 * high
  {
    Pow2Values();
    ShiftByByte(high);
    XorOfParts(low, high, 8);
  }

  /** Eight division steps of a register are one lookup of its low byte and a shift by eight. */
  lemma LookupIdentity(x: nat)
    ensures Steps(x, 8) == Xor(Steps(x % 256, 8), x / 256)
  {
    hide *;
    XorOfByte(x % 256, x / 256);
    ShiftByByte(x / 256);
    StepsAbsorb(x % 256, x / 256, 8);
  }

  lemma HighBitsKept(x: nat, b: Byte)
    ensures Xor(x, b) / 256 == x / 256
  {
    hide Xor;
    var high := 256 * (x / 256);
    var low := Xor(x % 256, b);
    Pow2Values();
    XorBounded(x % 256, b, 8);
    XorOfByte(x % 256, x / 256);
    XorCommutes(x % 256, high);
    XorAssociates(high, x % 256, b);
    XorCommutes(high, low);
    XorOfByte(low, x / 256);
  }

  ghost predicate IsTable(t: seq<nat>) {
    |t| == 256 && forall i :: 0 <= i < 256 ==> t[i] == Steps(i, 8)
  }

  method MakeTable() returns (table: array<nat>)
    ensures fresh(table) && IsTable(table[..])
  {
    hide Steps;
    table := new nat[256];
    var i := 0;
    while i < 256
      invariant 0 <= i <= 256
      invariant forall j :: 0 <= j < i ==> table[j] == Steps(j, 8)
    {
      var crc := TableEntry(i);
      table[i] := crc;
      i := i + 1;
    }
  }

  /** The inner loop: eight steps on one index. */
  method TableEntry(i: nat) returns (crc: nat)
    ensures crc == Steps(i, 8)
  {
    hide Xor;
    crc := i;
    var bit := 0;
    while bit < 8
      invariant 0 <= bit <= 8
      invariant Steps(crc, 8 - bit) == Steps(i, 8)
    {
      crc := if crc % 2 == 1 then Xor(crc / 2, POLY) else crc / 2;
      bit := bit + 1;
    }
  }

  method ExtendByTable(table: array<nat>, prior: U32, data: Bytes) returns (crc: nat)
    requires IsTable(table[..])
    ensures crc == Extend(prior, data)
  {
    crc := ONES - prior;
    RegisterBounded(crc, data);
    var i := 0;
    while i < |data|
      invariant 0 <= i <= |data|
      invariant Register(crc, data[i..]) == Register(ONES - prior, data)
    {
      assert data[i..][1..] == data[i + 1..];
      LookupIdentity(Xor(crc, data[i]));
      HighBitsKept(crc, data[i]);
      crc := Xor(table[Xor(crc, data[i]) % 256], crc / 256);
      i := i + 1;
    }
    crc := ONES - crc;
  }

  // ---- Incremental use ----

  lemma {:induction false} RegisterAppend(reg: nat, a: Bytes, b: Bytes)
    ensures Register(reg, a + b) == Register(Register(reg, a), b)
    decreases a
  {
    if a == [] {
      assert a + b == b;
    } else {
      assert (a + b)[1..] == a[1..] + b;
      RegisterAppend(Steps(Xor(reg, a[0]), 8), a[1..], b);
    }
  }

  /** Resuming from the checksum of a is the same as checking a and b in one go. */
  lemma ExtendIsIncremental(a: Bytes, b: Bytes)
    ensures Extend(Crc(a), b) == Crc(a + b)
  {
    RegisterAppend(ONES, a, b);
  }

  // ---- Burst detection ----

  lemma FeedWord(reg: nat, b: Byte, word: nat)
    ensures Xor(Steps(Xor(reg, b), 8), word) == Steps(Xor(reg, b + 256 * word), 8)
  {
    hide *;
    XorAssociates(reg, b, 256 * word);
    XorOfByte(b, word);
    ShiftByByte(word);
    StepsAbsorb(Xor(reg, b), word, 8);
  }

  lemma NoSteps(x: nat)
    ensures Steps(x, 0) == x
  {
  }

  /** Bytes fed one by one are one little-endian word fed at once. */
  lemma {:induction false} RegisterOfWindow(reg: nat, d: Bytes)
    ensures Register(reg, d) == Steps(Xor(reg, FromLittleEndian(d)), 8 * |d|)
    decreases d
  {
    hide Xor, Steps;
    if d == [] {
      XorZero(reg);
      NoSteps(reg);
    } else {
      var word := FromLittleEndian(d[1..]);
      RegisterOfWindow(Steps(Xor(reg, d[0]), 8), d[1..]);
      FeedWord(reg, d[0], word);
      StepsCompose(Xor(reg, FromLittleEndian(d)), 8, 8 * |d[1..]|);
    }
  }

  lemma {:induction false} RegisterInjective(r: nat, q: nat, s: Bytes)
    requires r <= ONES && q <= ONES
    requires Register(r, s) == Register(q, s)
    ensures r == q
    decreases s
  {
    if s != [] {
      FedBounded(r, s[0]);
      FedBounded(q, s[0]);
      StepsBounded(Xor(r, s[0]), 8);
      StepsBounded(Xor(q, s[0]), 8);
      RegisterInjective(Steps(Xor(r, s[0]), 8), Steps(Xor(q, s[0]), 8), s[1..]);
      StepsInjective(Xor(r, s[0]), Xor(q, s[0]), 8);
      XorCommutes(r, s[0]);
      XorCommutes(q, s[0]);
      XorCancels(s[0], r, q);
    }
  }

  lemma WindowBounded(d: Bytes)
    requires |d| <= 4
    ensures FromLittleEndian(d) <= ONES
  {
    FromLittleEndianBounded(d);
    assert Pow256(1) == 0x100 && Pow256(2) == 0x1_0000 && Pow256(3) == 0x100_0000 && Pow256(4) == 0x1_0000_0000;
  }

  /** Messages that differ only inside four consecutive bytes never share a checksum, whatever their length. */
  lemma BurstDetected(pre: Bytes, d: Bytes, e: Bytes, post: Bytes)
    requires |d| == |e| <= 4 && d != e
    ensures Crc(pre + d + post) != Crc(pre + e + post)
  {
    if Crc(pre + d + post) == Crc(pre + e + post) {
      var r := Register(ONES, pre);
      RegisterAppend(ONES, pre + d, post);
      RegisterAppend(ONES, pre + e, post);
      RegisterAppend(ONES, pre, d);
      RegisterAppend(ONES, pre, e);
      RegisterBounded(ONES, pre);
      RegisterBounded(r, d);
      RegisterBounded(r, e);
      RegisterInjective(Register(r, d), Register(r, e), post);
      WindowsAgree(r, d, e);
    }
  }

  lemma WindowsAgree(r: nat, d: Bytes, e: Bytes)
    requires r <= ONES && |d| == |e| <= 4
    requires Register(r, d) == Register(r, e)
    ensures d == e
  {
    var v, w := FromLittleEndian(d), FromLittleEndian(e);
    RegisterOfWindow(r, d);
    RegisterOfWindow(r, e);
    WindowBounded(d);
    WindowBounded(e);
    FedBounded(r, v);
    FedBounded(r, w);
    StepsInjective(Xor(r, v), Xor(r, w), 8 * |d|);
    XorCancels(r, v, w);
    LittleEndianInverse(d);
    LittleEndianInverse(e);
  }

  // ---- The inversions ----

  lemma {:induction false} StepsOfZero(n: nat)
    ensures Steps(0, n) == 0
    decreases n
  {
    if n > 0 {
      StepsOfZero(n - 1);
    }
  }

  /**
   * A message followed by its own checksum inverted has the checksum of all ones, whatever the message: the register
   * starts at all ones, is inverted at the end, and both inversions undo each other in between.
   */
  lemma Residue(data: Bytes)
    ensures Crc([]) == 0 && Crc(data + LittleEndian(ONES - Crc(data), 4)) == ONES
  {
    hide Xor, Steps, LittleEndian, FromLittleEndian;
    assert Crc([]) == 0;
    var reg := Register(ONES, data);
    RegisterBounded(ONES, data);
    assert ONES - Crc(data) == reg;
    Pow256Values();
    LittleEndianRoundTrip(reg, 4);
    RegisterAppend(ONES, data, LittleEndian(reg, 4));
    RegisterOfWindow(reg, LittleEndian(reg, 4));
    XorSelf(reg);
    StepsOfZero(32);
  }
}

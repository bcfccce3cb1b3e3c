/** Bit operations on 32-bit words, with the few facts about them that the checksum needs. */
module Words {

  function XorOf(a: bv32, b: bv32): bv32 {
    a ^ b
  }

  function HalfOf(a: bv32): bv32 {
    a >> 1
  }

  predicate IsOdd(a: bv32) {
    a & 1 == 1
  }

  lemma XorHalf(a: bv32, b: bv32)
    ensures HalfOf(XorOf(a, b)) == XorOf(HalfOf(a), HalfOf(b))
  {
  }

  lemma XorOdd(a: bv32, b: bv32)
    ensures IsOdd(XorOf(a, b)) <==> IsOdd(a) != IsOdd(b)
  {
  }

  lemma XorAssoc(p: bv32, a: bv32, b: bv32)
    ensures XorOf(p, XorOf(a, b)) == XorOf(XorOf(p, a), b)
  {
  }

  lemma XorSwap(p: bv32, a: bv32, b: bv32)
    ensures XorOf(p, XorOf(a, b)) == XorOf(a, XorOf(p, b))
  {
  }

  lemma XorMeets(p: bv32, a: bv32)
    ensures XorOf(XorOf(p, a), p) == a
  {
  }

  lemma XorZero(a: bv32)
    ensures XorOf(a, 0) == a
  {
  }

  /** The polynomial's top bit is set, so a shifted word tells whether the bit that fell out was
      one. */
  lemma ShiftTells(p: bv32, a: bv32, b: bv32)
    requires !Clear(p, 0x8000_0000)
    ensures XorOf(p, HalfOf(a)) != HalfOf(b)
  {
  }

  lemma HalfTells(a: bv32, b: bv32)
    requires HalfOf(a) == HalfOf(b) && IsOdd(a) == IsOdd(b)
    ensures a == b
  {
  }

  lemma XorCommutes(a: bv32, b: bv32)
    ensures XorOf(a, b) == XorOf(b, a)
  {
  }

  lemma XorTells(p: bv32, a: bv32, b: bv32)
    requires XorOf(p, a) == XorOf(p, b)
    ensures a == b
  {
  }

  // ---- The low bit of a word, and the rest ----

  function LowBitOf(a: bv32): bv32 {
    a & 1
  }

  function RestOf(a: bv32): bv32 {
    a & 0xFFFF_FFFE
  }

  lemma SplitLow(c: bv32, b: bv32)
    ensures XorOf(c, b) == XorOf(XorOf(c, LowBitOf(b)), RestOf(b))
  {
  }

  lemma RestIsEven(b: bv32)
    ensures !IsOdd(RestOf(b)) && HalfOf(RestOf(b)) == HalfOf(b)
  {
  }

  // ---- The low byte of a word, and the rest ----

  function LowByteOf(a: bv32): bv32 {
    a & 0xFF
  }

  function HighBytesOf(a: bv32): bv32 {
    a & 0xFFFF_FF00
  }

  function DownByteOf(a: bv32): bv32 {
    a >> 8
  }

  lemma SplitByte(a: bv32)
    ensures a == XorOf(LowByteOf(a), HighBytesOf(a))
  {
  }

  lemma DownByteOfHigh(a: bv32)
    ensures DownByteOf(HighBytesOf(a)) == DownByteOf(a)
  {
  }

  lemma EightHalves(a: bv32)
    ensures HalfOf(HalfOf(HalfOf(HalfOf(HalfOf(HalfOf(HalfOf(HalfOf(a)))))))) == DownByteOf(a)
  {
  }

  /** All the bits that the mask names are zero. */
  predicate Clear(a: bv32, mask: bv32) {
    a & mask == 0
  }

  lemma HighIsClear(a: bv32)
    ensures Clear(HighBytesOf(a), 0xFF)
  {
  }

  lemma ClearIsEven(a: bv32, mask: bv32)
    requires Clear(a, mask) && IsOdd(mask)
    ensures !IsOdd(a) && Clear(HalfOf(a), HalfOf(mask))
  {
  }

  /** A low byte used as a table index. */
  lemma LowByteIndex(a: bv32)
    ensures LowByteOf(a) as int < 256
  {
  }

  lemma IndexBack(a: bv32)
    ensures (a as int) as bv32 == a
  {
  }

  lemma ByteHasEightBits(a: bv32)
    requires Clear(a, 0xFFFF_FF00)
    ensures DownByteOf(a) == 0
  {
  }
}

/** The checksum of the log and the snapshot (crc32 in cpp/write_ahead_log.h): a table-driven
    CRC-32. What it must be is the bit-at-a-time division of section 8 of RFC 1952, where every
    bit of the message, lowest first, is added to a register and shifted out of it. */
module Crc32 {
  import opened Words

  /** The 32-bit register. A datatype of its own, so that proofs about many shifts need not look
      at its bits. */
  datatype Reg = Reg(v: bv32)

  const POLY: bv32 := 0xEDB8_8320
  const ZERO := Reg(0)
  const ONES := Reg(0xFFFF_FFFF)

  function Xor(a: Reg, b: Reg): Reg {
    Reg(XorOf(a.v, b.v))
  }

  function Half(c: Reg): Reg {
    Reg(HalfOf(c.v))
  }

  predicate Odd(c: Reg) {
    IsOdd(c.v)
  }

  function LowBit(c: Reg): Reg {
    Reg(LowBitOf(c.v))
  }

  /** One shift: the bit that falls out decides whether the polynomial is subtracted. */
  function Shift(c: Reg): Reg {
    if Odd(c) then Xor(Reg(POLY), Half(c)) else Half(c)
  }

  function Shifts(c: Reg, n: nat): Reg
    decreases n
  {
    if n == 0 then c else Shifts(Shift(c), n - 1)
  }

  /** Dividing a message one bit at a time. */
  function Remainder(c: Reg, bits: seq<Reg>): Reg
    decreases |bits|
  {
    if bits == [] then c else Remainder(Shift(Xor(c, bits[0])), bits[1..])
  }

  /** The low n bits of a byte, lowest first. */
  function LowBits(b: Reg, n: nat): (r: seq<Reg>)
    ensures |r| == n
    decreases n
  {
    if n == 0 then [] else [LowBit(b)] + LowBits(Half(b), n - 1)
  }

  /** A byte in the register. */
  function OfByte(b: bv8): Reg {
    Reg(b as bv32)
  }

  /** The message's bits, lowest bit of the first byte first. */
  function Bits(data: seq<bv8>): seq<Reg> {
    if data == [] then [] else Bits(data[..|data| - 1]) + LowBits(OfByte(data[|data| - 1]), 8)
  }

  // ---- Many shifts ----

  lemma ShiftOfXor(a: Reg, b: Reg)
    ensures Shift(Xor(a, b)) == Xor(Shift(a), Shift(b))
  {
    hide XorOf, HalfOf, IsOdd;
    var p, x, y := POLY, HalfOf(a.v), HalfOf(b.v);
    XorHalf(a.v, b.v);
    XorOdd(a.v, b.v);
    XorAssoc(p, x, y);
    XorSwap(p, x, y);
    XorAssoc(XorOf(p, x), p, y);
    XorMeets(p, x);
  }

  /** Shifting is linear. */
  lemma {:induction false} ShiftsOfXor(a: Reg, b: Reg, n: nat)
    ensures Shifts(Xor(a, b), n) == Xor(Shifts(a, n), Shifts(b, n))
    decreases n
  {
    hide Shift, Xor;
    if n > 0 {
      ShiftOfXor(a, b);
      ShiftsOfXor(Shift(a), Shift(b), n - 1);
    }
  }

  function Halves(y: Reg, n: nat): Reg
    decreases n
  {
    if n == 0 then y else Halves(Half(y), n - 1)
  }

  /** The mask's low n bits are all set. */
  predicate Covers(mask: bv32, n: nat)
    decreases n
  {
    n == 0 || (IsOdd(mask) && Covers(HalfOf(mask), n - 1))
  }

  lemma ByteMaskCovers()
    ensures Covers(0xFF, 8)
  {
    assert Covers(0, 0);
    assert Covers(1, 1);
    assert Covers(3, 2);
    assert Covers(7, 3);
    assert Covers(0xF, 4);
    assert Covers(0x1F, 5);
    assert Covers(0x3F, 6);
    assert Covers(0x7F, 7);
  }

  /** A register whose low n bits are zero just moves down. */
  lemma {:induction false} ClearMovesDown(y: Reg, mask: bv32, n: nat)
    requires Covers(mask, n) && Clear(y.v, mask)
    ensures Shifts(y, n) == Halves(y, n)
    decreases n
  {
    hide IsOdd, HalfOf, Clear;
    if n > 0 {
      ClearIsEven(y.v, mask);
      ClearMovesDown(Half(y), HalfOf(mask), n - 1);
    }
  }

  lemma HalvesIsDownByte(y: Reg)
    ensures Halves(y, 8) == Reg(DownByteOf(y.v))
  {
    hide HalfOf, DownByteOf;
    EightHalves(y.v);
    var r := Half(Half(Half(Half(y))));
    assert Halves(r, 4) == Half(Half(Half(Half(r)))) by {
      assert Halves(Half(Half(r)), 2) == Half(Half(Half(Half(r))));
    }
    assert Halves(Half(Half(y)), 6) == Halves(r, 4);
  }

  /** Eight shifts are a table entry for the low byte, and the rest moved down. */
  lemma EightAtOnce(x: Reg)
    ensures Shifts(x, 8) == Xor(Shifts(Reg(LowByteOf(x.v)), 8), Reg(DownByteOf(x.v)))
  {
    hide *;
    var low, high := Reg(LowByteOf(x.v)), Reg(HighBytesOf(x.v));
    SplitByte(x.v);
    XorIs(low, high);
    ShiftsOfXor(low, high, 8);
    HighIsClear(x.v);
    ByteMaskCovers();
    ClearMovesDown(high, 0xFF, 8);
    HalvesIsDownByte(high);
    DownByteOfHigh(x.v);
  }

  lemma XorIs(a: Reg, b: Reg)
    ensures Xor(a, b) == Reg(XorOf(a.v, b.v))
  {
    hide XorOf;
  }

  // ---- A byte's bits one by one, or all at once ----

  /** Feeding a byte's bits one by one is the same as adding the whole byte and shifting. */
  lemma {:induction false} ByteAtOnce(c: Reg, b: Reg, n: nat)
    requires Halves(b, n) == ZERO
    ensures Remainder(c, LowBits(b, n)) == Shifts(Xor(c, b), n)
    decreases n
  {
    if n == 0 {
      XorZero(c.v);
    } else {
      hide Shift, Xor, LowBit, Half;
      var bits := LowBits(b, n);
      assert bits[0] == LowBit(b) && bits[1..] == LowBits(Half(b), n - 1);
      ByteAtOnce(Shift(Xor(c, LowBit(b))), Half(b), n - 1);
      ShiftAddsTheRest(c, b);
    }
  }

  lemma ShiftAddsTheRest(c: Reg, b: Reg)
    ensures Shift(Xor(c, b)) == Xor(Shift(Xor(c, LowBit(b))), Half(b))
  {
    hide XorOf, HalfOf, IsOdd, LowBitOf, RestOf;
    SplitLow(c.v, b.v);
    RestIsEven(b.v);
    ShiftOfXor(Xor(c, LowBit(b)), Reg(RestOf(b.v)));
  }

  lemma ByteFits(b: bv8)
    ensures Halves(OfByte(b), 8) == ZERO
  {
    hide DownByteOf, Halves;
    HalvesIsDownByte(OfByte(b));
    ByteIsClear(b);
    ByteHasEightBits(b as bv32);
  }

  lemma ByteIsClear(b: bv8)
    ensures Clear(b as bv32, 0xFFFF_FF00)
  {
  }

  lemma {:induction false} RemainderOfAppend(c: Reg, a: seq<Reg>, b: seq<Reg>)
    ensures Remainder(c, a + b) == Remainder(Remainder(c, a), b)
    decreases |a|
  {
    hide Shift, Xor;
    if a == [] {
      assert a + b == b;
    } else {
      RemainderOfAppend(Shift(Xor(c, a[0])), a[1..], b);
      assert (a + b)[1..] == a[1..] + b;
    }
  }

  /** One table step takes one more byte of the message. */
  lemma OneByteMore(c: Reg, data: seq<bv8>, b: bv8)
    requires c == Remainder(ONES, Bits(data))
    ensures Remainder(ONES, Bits(data + [b])) == Shifts(Xor(c, OfByte(b)), 8)
  {
    hide Remainder, Shifts, LowBits, OfByte, Xor, Halves;
    assert (data + [b])[..|data|] == data;
    RemainderOfAppend(ONES, Bits(data), LowBits(OfByte(b), 8));
    ByteFits(b);
    ByteAtOnce(c, OfByte(b), 8);
  }

  // ---- The code ----

  /** Entry i is what eight shifts make of the byte i. */
  predicate IsTable(table: seq<bv32>) {
    |table| == 256 && forall i :: 0 <= i < 256 ==> Reg(table[i]) == Shifts(Reg(i as bv32), 8)
  }

  method BuildTable() returns (table: seq<bv32>)
    ensures |table| == 256 && IsTable(table)
  {
    hide Shifts, Xor, Half, Odd;
    table := [];
    var i := 0;
    while i < 256
      invariant 0 <= i <= 256 && |table| == i
      invariant forall j :: 0 <= j < i ==> Reg(table[j]) == Shifts(Reg(j as bv32), 8)
    {
      var c := EightShifts(i as bv32);
      table := table + [c];
      i := i + 1;
    }
  }

  method EightShifts(start: bv32) returns (c: bv32)
    ensures Reg(c) == Shifts(Reg(start), 8)
  {
    hide XorOf, HalfOf, IsOdd;
    c := start;
    var bit := 0;
    while bit < 8
      invariant 0 <= bit <= 8
      invariant Shifts(Reg(c), 8 - bit) == Shifts(Reg(start), 8)
    {
      c := if IsOdd(c) then XorOf(POLY, HalfOf(c)) else HalfOf(c);
      bit := bit + 1;
    }
  }

  lemma TableStep(table: seq<bv32>, x: bv32)
    requires IsTable(table)
    ensures LowByteOf(x) as int < 256
    ensures XorOf(table[LowByteOf(x) as int], DownByteOf(x)) == Shifts(Reg(x), 8).v
  {
    hide Shifts, Xor, XorOf, DownByteOf, LowByteOf;
    LowByteIndex(x);
    IndexBack(LowByteOf(x));
    EightAtOnce(Reg(x));
    XorIs(Shifts(Reg(LowByteOf(x)), 8), Reg(DownByteOf(x)));
  }

  /** The loop over the message gives what dividing it bit by bit gives. */
  method Checksum(data: seq<bv8>) returns (r: bv32)
    ensures Reg(r) == Xor(Remainder(ONES, Bits(data)), ONES)
  {
    hide Remainder, Shifts, XorOf, DownByteOf, LowByteOf, IsTable, Bits;
    var table := BuildTable();
    var c: bv32 := 0xFFFF_FFFF;
    NothingYet();
    var i := 0;
    while i < |data|
      invariant 0 <= i <= |data|
      invariant Reg(c) == Remainder(ONES, Bits(data[..i]))
    {
      var x := XorOf(c, data[i] as bv32);
      OneByteMore(Reg(c), data[..i], data[i]);
      assert data[..i] + [data[i]] == data[..i + 1];
      TableStep(table, x);
      c := XorOf(table[LowByteOf(x) as int], DownByteOf(x));
      i := i + 1;
    }
    assert data[..i] == data;
    r := XorOf(c, 0xFFFF_FFFF);
  }

  lemma NothingYet()
    ensures ONES == Remainder(ONES, Bits([]))
  {
  }

  // ---- What the checksum notices ----

  lemma ShiftIsOneToOne(a: Reg, b: Reg)
    requires Shift(a) == Shift(b)
    ensures a == b
  {
    assert !Clear(POLY, 0x8000_0000);
    hide XorOf, HalfOf, IsOdd, Clear;
    if Odd(a) != Odd(b) {
      ShiftTells(POLY, a.v, b.v);
      ShiftTells(POLY, b.v, a.v);
    } else {
      if Odd(a) {
        XorTells(POLY, HalfOf(a.v), HalfOf(b.v));
      }
      HalfTells(a.v, b.v);
    }
  }

  lemma {:induction false} ShiftsOneToOne(a: Reg, b: Reg, n: nat)
    requires Shifts(a, n) == Shifts(b, n)
    ensures a == b
    decreases n
  {
    hide Shift;
    if n > 0 {
      ShiftsOneToOne(Shift(a), Shift(b), n - 1);
      ShiftIsOneToOne(a, b);
    }
  }

  lemma {:induction false} RemainderOneToOne(a: Reg, b: Reg, bits: seq<Reg>)
    requires Remainder(a, bits) == Remainder(b, bits)
    ensures a == b
    decreases |bits|
  {
    hide Shift, Xor;
    if bits != [] {
      RemainderOneToOne(Shift(Xor(a, bits[0])), Shift(Xor(b, bits[0])), bits[1..]);
      ShiftIsOneToOne(Xor(a, bits[0]), Xor(b, bits[0]));
      XorOneToOne(bits[0], a, b);
    }
  }

  lemma XorOneToOne(p: Reg, a: Reg, b: Reg)
    requires Xor(p, a) == Xor(p, b) || Xor(a, p) == Xor(b, p)
    ensures a == b
  {
    hide XorOf;
    XorCommutes(p.v, a.v);
    XorCommutes(p.v, b.v);
    XorTells(p.v, a.v, b.v);
  }

  lemma {:induction false} BitsOfAppend(a: seq<bv8>, b: seq<bv8>)
    ensures Bits(a + b) == Bits(a) + Bits(b)
    decreases |b|
  {
    hide LowBits, OfByte;
    if b == [] {
      assert a + b == a;
    } else {
      var b' := b[..|b| - 1];
      assert (a + b)[..|a + b| - 1] == a + b';
      BitsOfAppend(a, b');
    }
  }

  lemma ByteOneToOne(x: bv8, y: bv8)
    requires OfByte(x) == OfByte(y)
    ensures x == y
  {
  }

  /** A message of which one byte was changed has another checksum. */
  lemma ChangedByteIsSeen(before: seq<bv8>, x: bv8, y: bv8, after: seq<bv8>)
    requires x != y
    ensures Xor(Remainder(ONES, Bits(before + [x] + after)), ONES)
         != Xor(Remainder(ONES, Bits(before + [y] + after)), ONES)
  {
    hide *;
    if Xor(Remainder(ONES, Bits(before + [x] + after)), ONES)
      == Xor(Remainder(ONES, Bits(before + [y] + after)), ONES)
    {
      XorOneToOne(ONES, Remainder(ONES, Bits(before + [x] + after)), Remainder(ONES, Bits(before + [y] + after)));
      BitsOfAppend(before + [x], after);
      BitsOfAppend(before + [y], after);
      RemainderOfAppend(ONES, Bits(before + [x]), Bits(after));
      RemainderOfAppend(ONES, Bits(before + [y]), Bits(after));
      var c := Remainder(ONES, Bits(before));
      OneByteMore(c, before, x);
      OneByteMore(c, before, y);
      RemainderOneToOne(Shifts(Xor(c, OfByte(x)), 8), Shifts(Xor(c, OfByte(y)), 8), Bits(after));
      ShiftsOneToOne(Xor(c, OfByte(x)), Xor(c, OfByte(y)), 8);
      XorOneToOne(c, OfByte(x), OfByte(y));
      ByteOneToOne(x, y);
    }
  }
}

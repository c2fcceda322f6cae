/** The table-driven CRC-32 of source/kernel/src/Crc32.c against a shift register fed one message bit at a time.

    A register or message word is a bv32, a byte a bv8. The generator is the polynomial of section 3.2.9 of
    IEEE 802.3; the code neither reflects bits nor complements the register. */
module Crc32 {
  const POLY: bv32 := 0x04c1_1db7

  // Crc32Lut, sixteen entries a row.
  const ROW0: seq<bv32> := [
    0x00000000, 0x04c11db7, 0x09823b6e, 0x0d4326d9, 0x130476dc, 0x17c56b6b, 0x1a864db2, 0x1e475005,
    0x2608edb8, 0x22c9f00f, 0x2f8ad6d6, 0x2b4bcb61, 0x350c9b64, 0x31cd86d3, 0x3c8ea00a, 0x384fbdbd]
  const ROW1: seq<bv32> := [
    0x4c11db70, 0x48d0c6c7, 0x4593e01e, 0x4152fda9, 0x5f15adac, 0x5bd4b01b, 0x569796c2, 0x52568b75,
    0x6a1936c8, 0x6ed82b7f, 0x639b0da6, 0x675a1011, 0x791d4014, 0x7ddc5da3, 0x709f7b7a, 0x745e66cd]
  const ROW2: seq<bv32> := [
    0x9823b6e0, 0x9ce2ab57, 0x91a18d8e, 0x95609039, 0x8b27c03c, 0x8fe6dd8b, 0x82a5fb52, 0x8664e6e5,
    0xbe2b5b58, 0xbaea46ef, 0xb7a96036, 0xb3687d81, 0xad2f2d84, 0xa9ee3033, 0xa4ad16ea, 0xa06c0b5d]
  const ROW3: seq<bv32> := [
    0xd4326d90, 0xd0f37027, 0xddb056fe, 0xd9714b49, 0xc7361b4c, 0xc3f706fb, 0xceb42022, 0xca753d95,
    0xf23a8028, 0xf6fb9d9f, 0xfbb8bb46, 0xff79a6f1, 0xe13ef6f4, 0xe5ffeb43, 0xe8bccd9a, 0xec7dd02d]
  const ROW4: seq<bv32> := [
    0x34867077, 0x30476dc0, 0x3d044b19, 0x39c556ae, 0x278206ab, 0x23431b1c, 0x2e003dc5, 0x2ac12072,
    0x128e9dcf, 0x164f8078, 0x1b0ca6a1, 0x1fcdbb16, 0x018aeb13, 0x054bf6a4, 0x0808d07d, 0x0cc9cdca]
  const ROW5: seq<bv32> := [
    0x7897ab07, 0x7c56b6b0, 0x71159069, 0x75d48dde, 0x6b93dddb, 0x6f52c06c, 0x6211e6b5, 0x66d0fb02,
    0x5e9f46bf, 0x5a5e5b08, 0x571d7dd1, 0x53dc6066, 0x4d9b3063, 0x495a2dd4, 0x44190b0d, 0x40d816ba]
  const ROW6: seq<bv32> := [
    0xaca5c697, 0xa864db20, 0xa527fdf9, 0xa1e6e04e, 0xbfa1b04b, 0xbb60adfc, 0xb6238b25, 0xb2e29692,
    0x8aad2b2f, 0x8e6c3698, 0x832f1041, 0x87ee0df6, 0x99a95df3, 0x9d684044, 0x902b669d, 0x94ea7b2a]
  const ROW7: seq<bv32> := [
    0xe0b41de7, 0xe4750050, 0xe9362689, 0xedf73b3e, 0xf3b06b3b, 0xf771768c, 0xfa325055, 0xfef34de2,
    0xc6bcf05f, 0xc27dede8, 0xcf3ecb31, 0xcbffd686, 0xd5b88683, 0xd1799b34, 0xdc3abded, 0xd8fba05a]
  const ROW8: seq<bv32> := [
    0x690ce0ee, 0x6dcdfd59, 0x608edb80, 0x644fc637, 0x7a089632, 0x7ec98b85, 0x738aad5c, 0x774bb0eb,
    0x4f040d56, 0x4bc510e1, 0x46863638, 0x42472b8f, 0x5c007b8a, 0x58c1663d, 0x558240e4, 0x51435d53]
  const ROW9: seq<bv32> := [
    0x251d3b9e, 0x21dc2629, 0x2c9f00f0, 0x285e1d47, 0x36194d42, 0x32d850f5, 0x3f9b762c, 0x3b5a6b9b,
    0x0315d626, 0x07d4cb91, 0x0a97ed48, 0x0e56f0ff, 0x1011a0fa, 0x14d0bd4d, 0x19939b94, 0x1d528623]
  const ROWA: seq<bv32> := [
    0xf12f560e, 0xf5ee4bb9, 0xf8ad6d60, 0xfc6c70d7, 0xe22b20d2, 0xe6ea3d65, 0xeba91bbc, 0xef68060b,
    0xd727bbb6, 0xd3e6a601, 0xdea580d8, 0xda649d6f, 0xc423cd6a, 0xc0e2d0dd, 0xcda1f604, 0xc960ebb3]
  const ROWB: seq<bv32> := [
    0xbd3e8d7e, 0xb9ff90c9, 0xb4bcb610, 0xb07daba7, 0xae3afba2, 0xaafbe615, 0xa7b8c0cc, 0xa379dd7b,
    0x9b3660c6, 0x9ff77d71, 0x92b45ba8, 0x9675461f, 0x8832161a, 0x8cf30bad, 0x81b02d74, 0x857130c3]
  const ROWC: seq<bv32> := [
    0x5d8a9099, 0x594b8d2e, 0x5408abf7, 0x50c9b640, 0x4e8ee645, 0x4a4ffbf2, 0x470cdd2b, 0x43cdc09c,
    0x7b827d21, 0x7f436096, 0x7200464f, 0x76c15bf8, 0x68860bfd, 0x6c47164a, 0x61043093, 0x65c52d24]
  const ROWD: seq<bv32> := [
    0x119b4be9, 0x155a565e, 0x18197087, 0x1cd86d30, 0x029f3d35, 0x065e2082, 0x0b1d065b, 0x0fdc1bec,
    0x3793a651, 0x3352bbe6, 0x3e119d3f, 0x3ad08088, 0x2497d08d, 0x2056cd3a, 0x2d15ebe3, 0x29d4f654]
  const ROWE: seq<bv32> := [
    0xc5a92679, 0xc1683bce, 0xcc2b1d17, 0xc8ea00a0, 0xd6ad50a5, 0xd26c4d12, 0xdf2f6bcb, 0xdbee767c,
    0xe3a1cbc1, 0xe760d676, 0xea23f0af, 0xeee2ed18, 0xf0a5bd1d, 0xf464a0aa, 0xf9278673, 0xfde69bc4]
  const ROWF: seq<bv32> := [
    0x89b8fd09, 0x8d79e0be, 0x803ac667, 0x84fbdbd0, 0x9abc8bd5, 0x9e7d9662, 0x933eb0bb, 0x97ffad0c,
    0xafb010b1, 0xab710d06, 0xa6322bdf, 0xa2f33668, 0xbcb4666d, 0xb8757bda, 0xb5365d03, 0xb1f740b4]

  const LUT: seq<seq<bv32>> :=
    [ROW0, ROW1, ROW2, ROW3, ROW4, ROW5, ROW6, ROW7, ROW8, ROW9, ROWA, ROWB, ROWC, ROWD, ROWE, ROWF]

  lemma LutShape()
    ensures |LUT| == 16 && forall k :: 0 <= k < 16 ==> |LUT[k]| == 16
  {}

  /** Crc32Lut[i]. */
  function Entry(i: bv8): bv32 {
    LutShape();
    LUT[(i >> 4) as int][(i & 0xf) as int]
  }

  // ----- the reference: a 32-bit shift register that takes one message bit a clock, highest bit first -----

  predicate Top(r: bv32) { r & 0x8000_0000 != 0 }

  function ShiftIn(r: bv32, bit: bool): bv32 {
    if Top(r) != bit then (r << 1) ^ POLY else r << 1
  }

  function BitsIn(r: bv32, b: bv8, n: nat): bv32
    decreases n
  {
    if n == 0 then r else BitsIn(ShiftIn(r, b & 0x80 != 0), b << 1, n - 1)
  }

  function Bitwise(r: bv32, data: seq<bv8>): bv32
    decreases |data|
  {
    if data == [] then r else Bitwise(BitsIn(r, data[0], 8), data[1..])
  }

  // ----- the register clocked without input is linear and injective -----

  function Clock(r: bv32): bv32 { if Top(r) then (r << 1) ^ POLY else r << 1 }

  function Clocks(r: bv32, n: nat): bv32
    decreases n
  {
    if n == 0 then r else Clocks(Clock(r), n - 1)
  }

  lemma TopXor(a: bv32, b: bv32)
    ensures Top(a ^ b) == (Top(a) != Top(b))
  {}

  lemma ShiftXor(a: bv32, b: bv32)
    ensures (a ^ b) << 1 == (a << 1) ^ (b << 1)
  {}

  lemma XorPoly(x: bv32, y: bv32, p: bv32)
    ensures (x ^ p) ^ (y ^ p) == x ^ y
    ensures (x ^ p) ^ y == (x ^ y) ^ p && x ^ (y ^ p) == (x ^ y) ^ p
  {}

  lemma ClockXorTops(a: bv32, b: bv32)
    requires Top(a)
    ensures Clock(a ^ b) == Clock(a) ^ Clock(b)
  {
    TopXor(a, b);
    ShiftXor(a, b);
    if Top(b) {
      XorPoly(a << 1, b << 1, POLY);
    } else {
      XorPoly(a << 1, b << 1, POLY);
    }
  }

  lemma ClockXorClear(a: bv32, b: bv32)
    requires !Top(a) && !Top(b)
    ensures Clock(a ^ b) == Clock(a) ^ Clock(b)
  {
    TopXor(a, b);
    ShiftXor(a, b);
  }

  lemma XorSwap(a: bv32, b: bv32)
    ensures a ^ b == b ^ a
  {}

  lemma ClockXor(a: bv32, b: bv32)
    ensures Clock(a ^ b) == Clock(a) ^ Clock(b)
  {
    if Top(a) {
      ClockXorTops(a, b);
    } else if Top(b) {
      ClockXorTops(b, a);
      XorSwap(a, b);
      XorSwap(Clock(a), Clock(b));
    } else {
      ClockXorClear(a, b);
    }
  }

  /** c is the bitwise sum of a and b. The proofs below keep sums behind this name. */
  predicate Sum(a: bv32, b: bv32, c: bv32) { c == a ^ b }

  lemma SumOfEquals(a: bv32, b: bv32, a': bv32, b': bv32, c: bv32)
    requires Sum(a, b, c) && a == a' && b == b'
    ensures Sum(a', b', c)
  {}

  lemma ClockSum(a: bv32, b: bv32, c: bv32)
    requires Sum(a, b, c)
    ensures Sum(Clock(a), Clock(b), Clock(c))
  {
    ClockXor(a, b);
  }

  /** If c is the sum of a and b now, it still is after n clocks. */
  predicate StaysSum(a: bv32, b: bv32, c: bv32, n: nat) {
    Sum(a, b, c) ==> Sum(Clocks(a, n), Clocks(b, n), Clocks(c, n))
  }

  lemma StaysSumStep(a: bv32, b: bv32, c: bv32, n: nat)
    requires n > 0 && StaysSum(Clock(a), Clock(b), Clock(c), n - 1)
    ensures StaysSum(a, b, c, n)
  {
    assert Clocks(a, n) == Clocks(Clock(a), n - 1);
    assert Clocks(b, n) == Clocks(Clock(b), n - 1);
    assert Clocks(c, n) == Clocks(Clock(c), n - 1);
    if Sum(a, b, c) {
      ClockSum(a, b, c);
    }
  }

  lemma {:induction false} ClocksSum(a: bv32, b: bv32, c: bv32, n: nat)
    ensures StaysSum(a, b, c, n)
    decreases n
  {
    if n > 0 {
      ClocksSum(Clock(a), Clock(b), Clock(c), n - 1);
      StaysSumStep(a, b, c, n);
    }
  }

  /** The generator has its lowest bit set, so no clock loses information. */
  lemma ClockZero(r: bv32)
    requires Clock(r) == 0
    ensures r == 0
  {}

  lemma {:induction false} ClocksZero(r: bv32, n: nat)
    requires Clocks(r, n) == 0
    ensures r == 0
    decreases n
  {
    if n > 0 {
      ClocksZero(Clock(r), n - 1);
      ClockZero(r);
    }
  }

  // ----- the table holds what eight clocks make of a byte -----

  /** A byte in the position from which the register takes it. */
  function Load(b: bv8): bv32 { (b as bv32) << 24 }

  predicate Doubles(i: bv8) {
    Entry(i) == if i & 1 == 1 then Clock(Entry(i >> 1)) ^ POLY else Clock(Entry(i >> 1))
  }

  lemma LowEntriesDouble0()
    ensures Doubles(0x00) && Doubles(0x01) && Doubles(0x02) && Doubles(0x03)
    ensures Doubles(0x04) && Doubles(0x05) && Doubles(0x06) && Doubles(0x07)
  {}

  lemma LowEntriesDouble1()
    ensures Doubles(0x08) && Doubles(0x09) && Doubles(0x0a) && Doubles(0x0b)
    ensures Doubles(0x0c) && Doubles(0x0d) && Doubles(0x0e) && Doubles(0x0f)
  {}

  lemma HighEntriesDouble0()
    ensures Doubles(0x10) && Doubles(0x20) && Doubles(0x30)
    ensures Doubles(0x40) && Doubles(0x50) && Doubles(0x60) && Doubles(0x70)
  {}

  lemma HighEntriesDouble1()
    ensures Doubles(0x80) && Doubles(0x90) && Doubles(0xa0) && Doubles(0xb0)
    ensures Doubles(0xc0) && Doubles(0xd0) && Doubles(0xe0) && Doubles(0xf0)
  {}

  predicate OffsetOfRow0(row: seq<bv32>)
    requires |ROW0| == 16
  {
    && |row| == 16
    && Sum(row[0], ROW0[0], row[0]) && Sum(row[0], ROW0[1], row[1])
    && Sum(row[0], ROW0[2], row[2]) && Sum(row[0], ROW0[3], row[3])
    && Sum(row[0], ROW0[4], row[4]) && Sum(row[0], ROW0[5], row[5])
    && Sum(row[0], ROW0[6], row[6]) && Sum(row[0], ROW0[7], row[7])
    && Sum(row[0], ROW0[8], row[8]) && Sum(row[0], ROW0[9], row[9])
    && Sum(row[0], ROW0[10], row[10]) && Sum(row[0], ROW0[11], row[11])
    && Sum(row[0], ROW0[12], row[12]) && Sum(row[0], ROW0[13], row[13])
    && Sum(row[0], ROW0[14], row[14]) && Sum(row[0], ROW0[15], row[15])
  }

  lemma Row0() ensures |ROW0| == 16 && OffsetOfRow0(ROW0) {}
  lemma Row1() ensures |ROW0| == 16 && OffsetOfRow0(ROW1) {}
  lemma Row2() ensures |ROW0| == 16 && OffsetOfRow0(ROW2) {}
  lemma Row3() ensures |ROW0| == 16 && OffsetOfRow0(ROW3) {}
  lemma Row4() ensures |ROW0| == 16 && OffsetOfRow0(ROW4) {}
  lemma Row5() ensures |ROW0| == 16 && OffsetOfRow0(ROW5) {}
  lemma Row6() ensures |ROW0| == 16 && OffsetOfRow0(ROW6) {}
  lemma Row7() ensures |ROW0| == 16 && OffsetOfRow0(ROW7) {}
  lemma Row8() ensures |ROW0| == 16 && OffsetOfRow0(ROW8) {}
  lemma Row9() ensures |ROW0| == 16 && OffsetOfRow0(ROW9) {}
  lemma RowA() ensures |ROW0| == 16 && OffsetOfRow0(ROWA) {}
  lemma RowB() ensures |ROW0| == 16 && OffsetOfRow0(ROWB) {}
  lemma RowC() ensures |ROW0| == 16 && OffsetOfRow0(ROWC) {}
  lemma RowD() ensures |ROW0| == 16 && OffsetOfRow0(ROWD) {}
  lemma RowE() ensures |ROW0| == 16 && OffsetOfRow0(ROWE) {}
  lemma RowF() ensures |ROW0| == 16 && OffsetOfRow0(ROWF) {}

  lemma ListedEntryDoubles(i: bv8)
    requires i < 0x10 || i & 0xf == 0
    ensures Doubles(i)
  {
    LowEntriesDouble0();
    LowEntriesDouble1();
    HighEntriesDouble0();
    HighEntriesDouble1();
  }

  lemma RowsAreOffsets(k: int)
    requires 0 <= k < 16
    ensures |ROW0| == 16 && |LUT| == 16 && OffsetOfRow0(LUT[k])
  {
    if k < 8 {
      if k < 4 {
        if k == 0 { Row0(); } else if k == 1 { Row1(); } else if k == 2 { Row2(); } else { Row3(); }
      } else {
        if k == 4 { Row4(); } else if k == 5 { Row5(); } else if k == 6 { Row6(); } else { Row7(); }
      }
    } else {
      if k < 12 {
        if k == 8 { Row8(); } else if k == 9 { Row9(); } else if k == 10 { RowA(); } else { RowB(); }
      } else {
        if k == 12 { RowC(); } else if k == 13 { RowD(); } else if k == 14 { RowE(); } else { RowF(); }
      }
    }
  }

  lemma OffsetAt(row: seq<bv32>, j: int)
    requires 0 <= j < 16 && |ROW0| == 16 && OffsetOfRow0(row)
    ensures Sum(row[0], ROW0[j], row[j])
  {}

  lemma EntrySplits(i: bv8)
    ensures Sum(Entry(i & 0xf0), Entry(i & 0x0f), Entry(i))
  {
    LutShape();
    RowsAreOffsets((i >> 4) as int);
    OffsetAt(LUT[(i >> 4) as int], (i & 0xf) as int);
    assert (i & 0xf0) >> 4 == i >> 4 && (i & 0xf0) & 0xf == 0;
    assert (i & 0x0f) >> 4 == 0 && (i & 0x0f) & 0xf == i & 0xf;
  }

  lemma {:induction false} ClockLast(r: bv32, n: nat)
    ensures Clock(Clocks(r, n)) == Clocks(Clock(r), n)
    decreases n
  {
    if n > 0 {
      ClockLast(Clock(r), n - 1);
    }
  }

  lemma OneByteOne()
    ensures Clocks(Load(1), 8) == POLY
  {
    assert Load(1) == 0x0100_0000;
    assert Clocks(0x8000_0000, 1) == POLY;
    assert Clocks(0x4000_0000, 2) == POLY;
    assert Clocks(0x2000_0000, 3) == POLY;
    assert Clocks(0x1000_0000, 4) == POLY;
    assert Clocks(0x0800_0000, 5) == POLY;
    assert Clocks(0x0400_0000, 6) == POLY;
    assert Clocks(0x0200_0000, 7) == POLY;
  }

  lemma LoadSplits(i: bv8)
    ensures i & 1 == 1 ==> Sum(Clock(Load(i >> 1)), Load(1), Load(i))
    ensures i & 1 == 0 ==> Load(i) == Clock(Load(i >> 1))
    ensures Sum(Load(i & 0xf0), Load(i & 0x0f), Load(i))
  {}

  lemma {:induction false} TableIsClocks(i: bv8)
    ensures EntryIsClocks(i)
    decreases i
  {
    LoadSplits(i);
    if i == 0 {
      TableIsClocksZero();
    } else if i < 0x10 || i & 0xf == 0 {
      TableIsClocks(i >> 1);
      TableIsClocksDouble(i);
    } else {
      TableIsClocks(i & 0xf0);
      TableIsClocks(i & 0x0f);
      EntrySplits(i);
      ClocksSum(Load(i & 0xf0), Load(i & 0x0f), Load(i), 8);
    }
  }

  predicate EntryIsClocks(i: bv8) { Entry(i) == Clocks(Load(i), 8) }

  lemma TableIsClocksZero()
    ensures EntryIsClocks(0)
  {}

  lemma TableIsClocksDouble(i: bv8)
    requires i < 0x10 || i & 0xf == 0
    requires EntryIsClocks(i >> 1)
    ensures EntryIsClocks(i)
  {
    LoadSplits(i);
    ListedEntryDoubles(i);
    ClockLast(Load(i >> 1), 8);
    if i & 1 == 1 {
      ClocksSum(Clock(Load(i >> 1)), Load(1), Load(i), 8);
      OneByteOne();
    }
  }

  // ----- one table step is eight clocks of the reference register -----

  /** The loop body of Crc32: one look-up for eight message bits. */
  function TableStep(r: bv32, b: bv8): bv32 {
    (r << 8) ^ Entry(((r >> 24) as bv8) ^ b)
  }

  lemma LoadShift(b: bv8)
    ensures Top(Load(b)) == (b & 0x80 != 0)
    ensures Load(b << 1) == Load(b) << 1
  {}

  lemma ShiftInFlips(s: bv32, w: bv32, x: bv32)
    requires x == s ^ w && Top(s) != Top(w)
    ensures Sum(ShiftIn(s, Top(w)), w << 1, Clock(x))
  {
    TopXor(s, w);
    ShiftXor(s, w);
    XorPoly(s << 1, w << 1, POLY);
  }

  lemma ShiftInKeeps(s: bv32, w: bv32, x: bv32)
    requires x == s ^ w && Top(s) == Top(w)
    ensures Sum(ShiftIn(s, Top(w)), w << 1, Clock(x))
  {
    TopXor(s, w);
    ShiftXor(s, w);
  }

  lemma ShiftInSum(s: bv32, b: bv8, x: bv32)
    requires Sum(s, Load(b), x)
    ensures Sum(ShiftIn(s, b & 0x80 != 0), Load(b << 1), Clock(x))
  {
    LoadShift(b);
    if Top(s) == Top(Load(b)) {
      ShiftInKeeps(s, Load(b), x);
    } else {
      ShiftInFlips(s, Load(b), x);
    }
  }

  predicate EmptyAfter(b: bv8, n: nat)
    decreases n
  {
    if n == 0 then b == 0 else EmptyAfter(b << 1, n - 1)
  }

  lemma EmptyAfterEight(b: bv8)
    ensures EmptyAfter(b, 8)
  {
    assert EmptyAfter(b << 1 << 1 << 1 << 1 << 1 << 1 << 1, 1);
    assert EmptyAfter(b << 1 << 1 << 1 << 1 << 1 << 1, 2);
    assert EmptyAfter(b << 1 << 1 << 1 << 1 << 1, 3);
    assert EmptyAfter(b << 1 << 1 << 1 << 1, 4);
    assert EmptyAfter(b << 1 << 1 << 1, 5);
    assert EmptyAfter(b << 1 << 1, 6);
    assert EmptyAfter(b << 1, 7);
  }

  /** Feeding the bits one by one is the same as adding the whole byte first and clocking then. */
  lemma {:induction false} BitsInIsClocks(s: bv32, b: bv8, n: nat, x: bv32)
    requires Sum(s, Load(b), x) && EmptyAfter(b, n)
    ensures Clocks(x, n) == BitsIn(s, b, n)
    decreases n
  {
    if n > 0 {
      ShiftInSum(s, b, x);
      BitsInIsClocks(ShiftIn(s, b & 0x80 != 0), b << 1, n - 1, Clock(x));
    }
  }

  lemma ClocksWithoutTop(x: bv32)
    requires x & 0xff00_0000 == 0
    ensures Clocks(x, 8) == x << 8
  {
    assert Clocks(x << 7, 1) == x << 8;
    assert Clocks(x << 6, 2) == x << 8;
    assert Clocks(x << 5, 3) == x << 8;
    assert Clocks(x << 4, 4) == x << 8;
    assert Clocks(x << 3, 5) == x << 8;
    assert Clocks(x << 2, 6) == x << 8;
    assert Clocks(x << 1, 7) == x << 8;
  }

  /** The register with the byte added: the part that only moves up, and the part the table replaces. */
  lemma StepParts(r: bv32, b: bv8, x: bv32) returns (lo: bv32, i: bv8)
    requires Sum(r, Load(b), x)
    ensures Sum(lo, Load(i), x) && lo & 0xff00_0000 == 0
    ensures lo << 8 == r << 8 && i == ((r >> 24) as bv8) ^ b
  {
    HighByte(r, b, x);
    LowBytes(r, b, x);
    lo, i := x & 0x00ff_ffff, ((r >> 24) as bv8) ^ b;
  }

  lemma HighByte(r: bv32, b: bv8, x: bv32)
    requires Sum(r, Load(b), x)
    ensures Load(((r >> 24) as bv8) ^ b) == x & 0xff00_0000
  {}

  lemma LowBytes(r: bv32, b: bv8, x: bv32)
    requires Sum(r, Load(b), x)
    ensures (x & 0x00ff_ffff) << 8 == r << 8 && Sum(x & 0x00ff_ffff, x & 0xff00_0000, x)
  {}

  lemma EightClocks(lo: bv32, i: bv8, x: bv32)
    requires Sum(lo, Load(i), x) && lo & 0xff00_0000 == 0
    ensures Sum(lo << 8, Entry(i), Clocks(x, 8))
  {
    ClocksSum(lo, Load(i), x, 8);
    ClocksWithoutTop(lo);
    TableIsClocks(i);
    SumOfEquals(Clocks(lo, 8), Clocks(Load(i), 8), lo << 8, Entry(i), Clocks(x, 8));
  }

  lemma TableStepSum(r: bv32, b: bv8, up: bv32, i: bv8, c: bv32)
    requires up == r << 8 && i == ((r >> 24) as bv8) ^ b && Sum(up, Entry(i), c)
    ensures TableStep(r, b) == c
  {}

  lemma TableStepIsClocks(r: bv32, b: bv8, x: bv32)
    requires Sum(r, Load(b), x)
    ensures TableStep(r, b) == Clocks(x, 8)
  {
    var lo, i := StepParts(r, b, x);
    EightClocks(lo, i, x);
    TableStepSum(r, b, lo << 8, i, Clocks(x, 8));
  }

  lemma TableStepIsBitwise(r: bv32, b: bv8)
    ensures TableStep(r, b) == BitsIn(r, b, 8)
  {
    var x := r ^ Load(b);
    EmptyAfterEight(b);
    BitsInIsClocks(r, b, 8, x);
    TableStepIsClocks(r, b, x);
  }
}

/**
 * The checksum of the SPI-bridge serial protocol (arduino/spibridge/test_bridge.py):
 * a table-driven, most-significant-bit-first CRC-16 with polynomial 0x1021 and
 * seed 0xFFFF, the catalogue variant CRC-16/CCITT-FALSE.
 *
 * The register is a bv16, so the `& 0xFFFF` of the host code is the
 * bit-vector's own wrap-around; bytes are bv8.
 */
module Crc16 {

  /** Seed of every checksum the protocol computes. */
  const InitialSeed: bv16 := 0xFFFF

  /** The generator x^16 + x^12 + x^5 + 1, without its leading term. */
  const Polynomial: bv16 := 0x1021

  /** The host's 256-entry lookup table, in the 32 rows of 8 in which it is listed. */
  const CrcTable: seq<bv16> :=
    ((((([0x0000,0x1021,0x2042,0x3063,0x4084,0x50a5,0x60c6,0x70e7] +
    [0x8108,0x9129,0xa14a,0xb16b,0xc18c,0xd1ad,0xe1ce,0xf1ef]) +
    ([0x1231,0x0210,0x3273,0x2252,0x52b5,0x4294,0x72f7,0x62d6] +
    [0x9339,0x8318,0xb37b,0xa35a,0xd3bd,0xc39c,0xf3ff,0xe3de])) +
    (([0x2462,0x3443,0x0420,0x1401,0x64e6,0x74c7,0x44a4,0x5485] +
    [0xa56a,0xb54b,0x8528,0x9509,0xe5ee,0xf5cf,0xc5ac,0xd58d]) +
    ([0x3653,0x2672,0x1611,0x0630,0x76d7,0x66f6,0x5695,0x46b4] +
    [0xb75b,0xa77a,0x9719,0x8738,0xf7df,0xe7fe,0xd79d,0xc7bc]))) +
    ((([0x48c4,0x58e5,0x6886,0x78a7,0x0840,0x1861,0x2802,0x3823] +
    [0xc9cc,0xd9ed,0xe98e,0xf9af,0x8948,0x9969,0xa90a,0xb92b]) +
    ([0x5af5,0x4ad4,0x7ab7,0x6a96,0x1a71,0x0a50,0x3a33,0x2a12] +
    [0xdbfd,0xcbdc,0xfbbf,0xeb9e,0x9b79,0x8b58,0xbb3b,0xab1a])) +
    (([0x6ca6,0x7c87,0x4ce4,0x5cc5,0x2c22,0x3c03,0x0c60,0x1c41] +
    [0xedae,0xfd8f,0xcdec,0xddcd,0xad2a,0xbd0b,0x8d68,0x9d49]) +
    ([0x7e97,0x6eb6,0x5ed5,0x4ef4,0x3e13,0x2e32,0x1e51,0x0e70] +
    [0xff9f,0xefbe,0xdfdd,0xcffc,0xbf1b,0xaf3a,0x9f59,0x8f78])))) +
    (((([0x9188,0x81a9,0xb1ca,0xa1eb,0xd10c,0xc12d,0xf14e,0xe16f] +
    [0x1080,0x00a1,0x30c2,0x20e3,0x5004,0x4025,0x7046,0x6067]) +
    ([0x83b9,0x9398,0xa3fb,0xb3da,0xc33d,0xd31c,0xe37f,0xf35e] +
    [0x02b1,0x1290,0x22f3,0x32d2,0x4235,0x5214,0x6277,0x7256])) +
    (([0xb5ea,0xa5cb,0x95a8,0x8589,0xf56e,0xe54f,0xd52c,0xc50d] +
    [0x34e2,0x24c3,0x14a0,0x0481,0x7466,0x6447,0x5424,0x4405]) +
    ([0xa7db,0xb7fa,0x8799,0x97b8,0xe75f,0xf77e,0xc71d,0xd73c] +
    [0x26d3,0x36f2,0x0691,0x16b0,0x6657,0x7676,0x4615,0x5634]))) +
    ((([0xd94c,0xc96d,0xf90e,0xe92f,0x99c8,0x89e9,0xb98a,0xa9ab] +
    [0x5844,0x4865,0x7806,0x6827,0x18c0,0x08e1,0x3882,0x28a3]) +
    ([0xcb7d,0xdb5c,0xeb3f,0xfb1e,0x8bf9,0x9bd8,0xabbb,0xbb9a] +
    [0x4a75,0x5a54,0x6a37,0x7a16,0x0af1,0x1ad0,0x2ab3,0x3a92])) +
    (([0xfd2e,0xed0f,0xdd6c,0xcd4d,0xbdaa,0xad8b,0x9de8,0x8dc9] +
    [0x7c26,0x6c07,0x5c64,0x4c45,0x3ca2,0x2c83,0x1ce0,0x0cc1]) +
    ([0xef1f,0xff3e,0xcf5d,0xdf7c,0xaf9b,0xbfba,0x8fd9,0x9ff8] +
    [0x6e17,0x7e36,0x4e55,0x5e74,0x2e93,0x3eb2,0x0ed1,0x1ef0])))))

  /** The table has an entry for every byte value a lookup can use as index. */
  lemma TableSize()
    ensures |CrcTable| == 256
  {
  }

  // ---------------------------------------------------------------------------
  // Bitwise reference: long division by the polynomial, one bit at a time.
  // ---------------------------------------------------------------------------

  /**
   * One MSB-first division step. `0 - (x >> 15)` is all ones exactly when the
   * top bit is set, so the polynomial is subtracted (xor-ed) only then.
   */
  function DivisionStep(x: bv16): bv16
  {
    (x << 1) ^ (Polynomial & (0 - (x >> 15)))
  }

  /** A register holding `b` in its top byte and zero below. */
  function TopByte(b: bv8): bv16
  {
    (b as bv16) << 8
  }

  /** The register `seed` with the byte `b` xor-ed into its top byte. */
  function Infeed(b: bv8, seed: bv16): bv16
  {
    seed ^ TopByte(b)
  }

  /** The register after `n` division steps. */
  function Divide(x: bv16, n: bv8): bv16
  {
    if n == 0 then x else DivisionStep(Divide(x, n - 1))
  }

  /** The register after one byte's worth (eight bits) of division steps. */
  function Remainder(x: bv16): bv16
  {
    Divide(x, 8)
  }

  /** The same eight steps written out, for evaluating table entries. */
  function Unrolled(x: bv16): bv16
  {
    DivisionStep(DivisionStep(DivisionStep(DivisionStep(
      DivisionStep(DivisionStep(DivisionStep(DivisionStep(x))))))))
  }

  /** The recursive and the written-out eight steps agree. */
  lemma RemainderUnrolled(x: bv16)
    ensures Remainder(x) == Unrolled(x)
  {
    assert Divide(x, 1) == DivisionStep(Divide(x, 0));
    assert Divide(x, 2) == DivisionStep(Divide(x, 1));
    assert Divide(x, 3) == DivisionStep(Divide(x, 2));
    assert Divide(x, 4) == DivisionStep(Divide(x, 3));
    assert Divide(x, 5) == DivisionStep(Divide(x, 4));
    assert Divide(x, 6) == DivisionStep(Divide(x, 5));
    assert Divide(x, 7) == DivisionStep(Divide(x, 6));
    assert Divide(x, 8) == DivisionStep(Divide(x, 7));
  }

  // Rows of the table, eight entries each, compared with the written-out division.

  lemma TableRow00(i: bv8)
    requires 0 <= i < 8
    ensures CrcTable[i as int] == Unrolled(TopByte(i))
  {
  }

  lemma TableRow01(i: bv8)
    requires 8 <= i < 16
    ensures CrcTable[i as int] == Unrolled(TopByte(i))
  {
  }

  lemma TableRow02(i: bv8)
    requires 16 <= i < 24
    ensures CrcTable[i as int] == Unrolled(TopByte(i))
  {
  }

  lemma TableRow03(i: bv8)
    requires 24 <= i < 32
    ensures CrcTable[i as int] == Unrolled(TopByte(i))
  {
  }

  lemma TableRow04(i: bv8)
    requires 32 <= i < 40
    ensures CrcTable[i as int] == Unrolled(TopByte(i))
  {
  }

  lemma TableRow05(i: bv8)
    requires 40 <= i < 48
    ensures CrcTable[i as int] == Unrolled(TopByte(i))
  {
  }

  lemma TableRow06(i: bv8)
    requires 48 <= i < 56
    ensures CrcTable[i as int] == Unrolled(TopByte(i))
  {
  }

  lemma TableRow07(i: bv8)
    requires 56 <= i < 64
    ensures CrcTable[i as int] == Unrolled(TopByte(i))
  {
  }

  lemma TableRow08(i: bv8)
    requires 64 <= i < 72
    ensures CrcTable[i as int] == Unrolled(TopByte(i))
  {
  }

  lemma TableRow09(i: bv8)
    requires 72 <= i < 80
    ensures CrcTable[i as int] == Unrolled(TopByte(i))
  {
  }

  lemma TableRow10(i: bv8)
    requires 80 <= i < 88
    ensures CrcTable[i as int] == Unrolled(TopByte(i))
  {
  }

  lemma TableRow11(i: bv8)
    requires 88 <= i < 96
    ensures CrcTable[i as int] == Unrolled(TopByte(i))
  {
  }

  lemma TableRow12(i: bv8)
    requires 96 <= i < 104
    ensures CrcTable[i as int] == Unrolled(TopByte(i))
  {
  }

  lemma TableRow13(i: bv8)
    requires 104 <= i < 112
    ensures CrcTable[i as int] == Unrolled(TopByte(i))
  {
  }

  lemma TableRow14(i: bv8)
    requires 112 <= i < 120
    ensures CrcTable[i as int] == Unrolled(TopByte(i))
  {
  }

  lemma TableRow15(i: bv8)
    requires 120 <= i < 128
    ensures CrcTable[i as int] == Unrolled(TopByte(i))
  {
  }

  lemma TableRow16(i: bv8)
    requires 128 <= i < 136
    ensures CrcTable[i as int] == Unrolled(TopByte(i))
  {
  }

  lemma TableRow17(i: bv8)
    requires 136 <= i < 144
    ensures CrcTable[i as int] == Unrolled(TopByte(i))
  {
  }

  lemma TableRow18(i: bv8)
    requires 144 <= i < 152
    ensures CrcTable[i as int] == Unrolled(TopByte(i))
  {
  }

  lemma TableRow19(i: bv8)
    requires 152 <= i < 160
    ensures CrcTable[i as int] == Unrolled(TopByte(i))
  {
  }

  lemma TableRow20(i: bv8)
    requires 160 <= i < 168
    ensures CrcTable[i as int] == Unrolled(TopByte(i))
  {
  }

  lemma TableRow21(i: bv8)
    requires 168 <= i < 176
    ensures CrcTable[i as int] == Unrolled(TopByte(i))
  {
  }

  lemma TableRow22(i: bv8)
    requires 176 <= i < 184
    ensures CrcTable[i as int] == Unrolled(TopByte(i))
  {
  }

  lemma TableRow23(i: bv8)
    requires 184 <= i < 192
    ensures CrcTable[i as int] == Unrolled(TopByte(i))
  {
  }

  lemma TableRow24(i: bv8)
    requires 192 <= i < 200
    ensures CrcTable[i as int] == Unrolled(TopByte(i))
  {
  }

  lemma TableRow25(i: bv8)
    requires 200 <= i < 208
    ensures CrcTable[i as int] == Unrolled(TopByte(i))
  {
  }

  lemma TableRow26(i: bv8)
    requires 208 <= i < 216
    ensures CrcTable[i as int] == Unrolled(TopByte(i))
  {
  }

  lemma TableRow27(i: bv8)
    requires 216 <= i < 224
    ensures CrcTable[i as int] == Unrolled(TopByte(i))
  {
  }

  lemma TableRow28(i: bv8)
    requires 224 <= i < 232
    ensures CrcTable[i as int] == Unrolled(TopByte(i))
  {
  }

  lemma TableRow29(i: bv8)
    requires 232 <= i < 240
    ensures CrcTable[i as int] == Unrolled(TopByte(i))
  {
  }

  lemma TableRow30(i: bv8)
    requires 240 <= i < 248
    ensures CrcTable[i as int] == Unrolled(TopByte(i))
  {
  }

  lemma TableRow31(i: bv8)
    requires 248 <= i
    ensures CrcTable[i as int] == Unrolled(TopByte(i))
  {
  }

  /** Every entry of the host's table is the remainder of its index, shifted to the top byte. */
  lemma TableIsRemainders(i: bv8)
    ensures CrcTable[i as int] == Remainder(TopByte(i))
  {
    if i < 8 { TableRow00(i); }
    else if i < 16 { TableRow01(i); }
    else if i < 24 { TableRow02(i); }
    else if i < 32 { TableRow03(i); }
    else if i < 40 { TableRow04(i); }
    else if i < 48 { TableRow05(i); }
    else if i < 56 { TableRow06(i); }
    else if i < 64 { TableRow07(i); }
    else if i < 72 { TableRow08(i); }
    else if i < 80 { TableRow09(i); }
    else if i < 88 { TableRow10(i); }
    else if i < 96 { TableRow11(i); }
    else if i < 104 { TableRow12(i); }
    else if i < 112 { TableRow13(i); }
    else if i < 120 { TableRow14(i); }
    else if i < 128 { TableRow15(i); }
    else if i < 136 { TableRow16(i); }
    else if i < 144 { TableRow17(i); }
    else if i < 152 { TableRow18(i); }
    else if i < 160 { TableRow19(i); }
    else if i < 168 { TableRow20(i); }
    else if i < 176 { TableRow21(i); }
    else if i < 184 { TableRow22(i); }
    else if i < 192 { TableRow23(i); }
    else if i < 200 { TableRow24(i); }
    else if i < 208 { TableRow25(i); }
    else if i < 216 { TableRow26(i); }
    else if i < 224 { TableRow27(i); }
    else if i < 232 { TableRow28(i); }
    else if i < 240 { TableRow29(i); }
    else if i < 248 { TableRow30(i); }
    else { TableRow31(i); }
    RemainderUnrolled(TopByte(i));
  }

  // ---------------------------------------------------------------------------
  // Linearity of the division: the low byte of the register rides along.
  // ---------------------------------------------------------------------------

  /** A division step is linear in the bits below the top one. */
  lemma StepLow(a: bv16, b: bv16)
    requires b & 0x8000 == 0
    ensures DivisionStep(a ^ b) == DivisionStep(a) ^ (b << 1)
  {
  }

  /** A value confined to the low byte, shifted up fewer than eight places, stays off the top bit. */
  lemma ShiftFacts(c: bv16, n: bv8)
    requires c & 0xFF00 == 0 && 0 < n <= 8
    ensures (c << (n - 1)) & 0x8000 == 0
    ensures (c << (n - 1)) << 1 == c << n
  {
  }

  /**
   * During the first eight steps the low byte never reaches the top bit, so it
   * is only shifted up, never reduced.
   */
  lemma {:induction false} DivideLow(x: bv16, n: bv8)
    requires n <= 8
    ensures Divide(x, n) == Divide(x & 0xFF00, n) ^ ((x & 0xFF) << n)
  {
    if n > 0 {
      var m := n - 1;
      DivideLow(x, m);
      var a, c := Divide(x & 0xFF00, m), (x & 0xFF) << m;
      ShiftFacts(x & 0xFF, n);
      StepLow(a, c);
    }
  }

  /**
   * `DivideLow` after a full byte: the low byte has been shifted out of the top
   * and into the bottom. (The step count is a parameter rather than the
   * literal 8 so that the solver does not unroll the division.)
   */
  lemma SplitAt(x: bv16, n: bv8)
    requires n == 8
    ensures Divide(x, n) == (x << n) ^ Divide(x & 0xFF00, n)
  {
    DivideLow(x, n);
  }

  /** One byte of division: the top byte's remainder, xor the low byte moved up. */
  lemma RemainderSplit(x: bv16)
    ensures Remainder(x) == (x << 8) ^ Remainder(x & 0xFF00)
  {
    SplitAt(x, 8);
  }

  /** A division step loses no information: it is a bijection on the register. */
  lemma StepInjective(x: bv16, y: bv16)
    requires x != y
    ensures DivisionStep(x) != DivisionStep(y)
  {
  }

  /** Any number of division steps is injective. */
  lemma {:induction false} DivideInjective(x: bv16, y: bv16, n: bv8)
    requires x != y
    ensures Divide(x, n) != Divide(y, n)
  {
    if n > 0 {
      DivideInjective(x, y, n - 1);
      StepInjective(Divide(x, n - 1), Divide(y, n - 1));
    }
  }

  // ---------------------------------------------------------------------------
  // The host's CRC engine.
  // ---------------------------------------------------------------------------

  /**
   * The table row `crc16_floating` looks up: the register's top byte xor the
   * input byte. A 16-bit register shifted down a byte never leaves the table.
   */
  function TableIndex(seed: bv16, b: bv8): bv8
  {
    (seed >> 8) as bv8 ^ b
  }

  /** The byte fed in lands on the register's top byte, where the table index selects it. */
  lemma IndexIsTopByte(seed: bv16, b: bv8)
    ensures Infeed(b, seed) << 8 == seed << 8
    ensures Infeed(b, seed) & 0xFF00 == TopByte(TableIndex(seed, b))
  {
  }

  /**
   * `crc16_floating`: shift the register up a byte and xor in the table entry
   * the index selects, which is the remainder of that index moved to the top
   * byte and divided by the polynomial.
   */
  function Update(b: bv8, seed: bv16): (r: bv16)
    ensures r == (seed << 8) ^ Remainder(TopByte(TableIndex(seed, b)))
  {
    TableIsRemainders(TableIndex(seed, b));
    (seed << 8) ^ CrcTable[TableIndex(seed, b) as int]
  }

  /**
   * The reference step `Update` is measured against: the byte is xor-ed into
   * the top of the register, which is then divided bit by bit.
   */
  function BitwiseUpdate(b: bv8, seed: bv16): bv16
  {
    Remainder(Infeed(b, seed))
  }

  /** The top half of the fed register is the register the table row was computed from. */
  lemma TopHalfIsTableRow(b: bv8, seed: bv16)
    ensures Remainder(Infeed(b, seed) & 0xFF00) == Remainder(TopByte(TableIndex(seed, b)))
  {
    IndexIsTopByte(seed, b);
  }

  /** Both halves of the split, as the table-driven step writes them. */
  lemma SplitHalvesAsTable(b: bv8, seed: bv16)
    ensures (Infeed(b, seed) << 8) ^ Remainder(Infeed(b, seed) & 0xFF00)
         == (seed << 8) ^ Remainder(TopByte(TableIndex(seed, b)))
  {
    IndexIsTopByte(seed, b);
    TopHalfIsTableRow(b, seed);
  }

  /**
   * `RemainderSplit`, read from right to left for any rewriting of its
   * right-hand side; stated over plain variables so that callers need not
   * unfold the division.
   */
  lemma SplitGlue(x: bv16, s: bv16, t: bv16)
    requires (x << 8) ^ Remainder(x & 0xFF00) == (s << 8) ^ Remainder(t)
    ensures Remainder(x) == (s << 8) ^ Remainder(t)
  {
    RemainderSplit(x);
  }

  /** Xor-ing in the shifted entry of the table row the index selects is the bitwise step. */
  lemma TableStepIsBitwise(b: bv8, seed: bv16)
    ensures BitwiseUpdate(b, seed) == (seed << 8) ^ Remainder(TopByte(TableIndex(seed, b)))
  {
    SplitHalvesAsTable(b, seed);
    SplitGlue(Infeed(b, seed), seed, TopByte(TableIndex(seed, b)));
  }

  /** The table-driven step computes the bitwise step, for every byte and every register. */
  lemma UpdateIsBitwise(b: bv8, seed: bv16)
    ensures Update(b, seed) == BitwiseUpdate(b, seed)
  {
    TableStepIsBitwise(b, seed);
  }

  /** Different registers divide to different remainders. */
  lemma RemainderInjective(x: bv16, y: bv16)
    requires x != y
    ensures Remainder(x) != Remainder(y)
  {
    DivideInjective(x, y, 8);
  }

  /** Different bytes fed into the same register give different registers. */
  lemma InfeedInjectiveInByte(x: bv8, y: bv8, seed: bv16)
    requires x != y
    ensures Infeed(x, seed) != Infeed(y, seed)
  {
  }

  /** The same byte fed into different registers gives different registers. */
  lemma InfeedInjectiveInSeed(b: bv8, s: bv16, t: bv16)
    requires s != t
    ensures Infeed(b, s) != Infeed(b, t)
  {
  }

  /** Two different bytes fed into the same register leave different registers. */
  lemma BitwiseUpdateInjectiveInByte(x: bv8, y: bv8, seed: bv16)
    requires x != y
    ensures BitwiseUpdate(x, seed) != BitwiseUpdate(y, seed)
  {
    InfeedInjectiveInByte(x, y, seed);
    RemainderInjective(Infeed(x, seed), Infeed(y, seed));
  }

  /** The same byte fed into two different registers leaves different registers. */
  lemma BitwiseUpdateInjectiveInSeed(b: bv8, s: bv16, t: bv16)
    requires s != t
    ensures BitwiseUpdate(b, s) != BitwiseUpdate(b, t)
  {
    InfeedInjectiveInSeed(b, s, t);
    RemainderInjective(Infeed(b, s), Infeed(b, t));
  }

  /**
   * The register after feeding `data` through `Update`, starting from `seed`,
   * first byte first: the table-driven fold computes the bitwise CRC, for
   * every seed and every input.
   */
  function Fold(seed: bv16, data: seq<bv8>): (r: bv16)
    ensures r == BitwiseFold(seed, data)
  {
    if |data| == 0 then seed
    else
      var last, init := data[|data| - 1], Fold(seed, data[..|data| - 1]);
      UpdateIsBitwise(last, init);
      Update(last, init)
  }

  /** The protocol checksum of `data`, as `crc16_buff` defines it: the bitwise CRC from 0xFFFF. */
  function Checksum(data: seq<bv8>): (r: bv16)
    ensures r == BitwiseFold(InitialSeed, data)
    ensures |data| == 0 ==> r == InitialSeed
  {
    Fold(InitialSeed, data)
  }

  /** `crc16_buff`: start from the seed and fold every byte of `buff` in order. */
  method Crc16Buff(buff: seq<bv8>) returns (crc: bv16)
    ensures crc == Checksum(buff)
    ensures |buff| == 0 ==> crc == InitialSeed
  {
    crc := InitialSeed;
    for k := 0 to |buff|
      invariant crc == Fold(InitialSeed, buff[..k])
    {
      assert buff[..k + 1][..k] == buff[..k];
      crc := Update(buff[k], crc);
    }
    assert buff[..|buff|] == buff;
  }

  /** The bitwise CRC of `data` from `seed`: the reference for `Fold`. */
  function BitwiseFold(seed: bv16, data: seq<bv8>): bv16
  {
    if |data| == 0 then seed else BitwiseUpdate(data[|data| - 1], BitwiseFold(seed, data[..|data| - 1]))
  }

  /** Feeding one more byte continues from the register the earlier bytes left. */
  lemma BitwiseFoldSnoc(seed: bv16, data: seq<bv8>, b: bv8)
    ensures BitwiseFold(seed, data + [b]) == BitwiseUpdate(b, BitwiseFold(seed, data))
  {
    assert (data + [b])[..|data|] == data;
  }

  /** Register values after bytes 1 to 3 of the ASCII string "123456789". */
  lemma CheckValueSteps1()
    ensures BitwiseUpdate(0x31, 0xFFFF) == 0xC782
    ensures BitwiseUpdate(0x32, 0xC782) == 0x3DBA
    ensures BitwiseUpdate(0x33, 0x3DBA) == 0x5BCE
  {
  }

  /** Register values after bytes 4 to 6 of the ASCII string "123456789". */
  lemma CheckValueSteps2()
    ensures BitwiseUpdate(0x34, 0x5BCE) == 0x5349
    ensures BitwiseUpdate(0x35, 0x5349) == 0x4560
    ensures BitwiseUpdate(0x36, 0x4560) == 0x2EF4
  {
  }

  /** Register values after bytes 7 to 9 of the ASCII string "123456789". */
  lemma CheckValueSteps3()
    ensures BitwiseUpdate(0x37, 0x2EF4) == 0x7718
    ensures BitwiseUpdate(0x38, 0x7718) == 0xA12B
    ensures BitwiseUpdate(0x39, 0xA12B) == 0x29B1
  {
  }

  /** Folding a sequence is applying the steps one byte at a time (stated for three bytes). */
  lemma {:induction false} BitwiseFoldThree(seed: bv16, data: seq<bv8>, x: bv8, y: bv8, z: bv8)
    ensures BitwiseFold(seed, data + [x, y, z])
         == BitwiseUpdate(z, BitwiseUpdate(y, BitwiseUpdate(x, BitwiseFold(seed, data))))
  {
    assert data + [x, y, z] == ((data + [x]) + [y]) + [z];
    BitwiseFoldSnoc(seed, data, x);
    BitwiseFoldSnoc(seed, data + [x], y);
    BitwiseFoldSnoc(seed, (data + [x]) + [y], z);
  }

  /** The catalogue check value of CRC-16/CCITT-FALSE, computed bit by bit. */
  lemma BitwiseCheckValue()
    ensures BitwiseFold(InitialSeed, [0x31, 0x32, 0x33, 0x34, 0x35, 0x36, 0x37, 0x38, 0x39]) == 0x29B1
  {
    CheckValueSteps1();
    CheckValueSteps2();
    CheckValueSteps3();
    var d1: seq<bv8> := [0x31, 0x32, 0x33];
    var d2: seq<bv8> := d1 + [0x34, 0x35, 0x36];
    var d3: seq<bv8> := d2 + [0x37, 0x38, 0x39];
    BitwiseFoldThree(InitialSeed, [], 0x31, 0x32, 0x33);
    assert [] + [0x31, 0x32, 0x33] == d1;
    BitwiseFoldThree(InitialSeed, d1, 0x34, 0x35, 0x36);
    BitwiseFoldThree(InitialSeed, d2, 0x37, 0x38, 0x39);
    assert d3 == [0x31, 0x32, 0x33, 0x34, 0x35, 0x36, 0x37, 0x38, 0x39];
  }

  /** Checksumming a concatenation resumes from the register the first part left. */
  lemma {:induction false} BitwiseFoldAppend(seed: bv16, a: seq<bv8>, b: seq<bv8>)
    ensures BitwiseFold(seed, a + b) == BitwiseFold(BitwiseFold(seed, a), b)
  {
    if |b| == 0 {
      assert a + b == a;
    } else {
      var c := a + b;
      assert c[..|c| - 1] == a + b[..|b| - 1];
      BitwiseFoldAppend(seed, a, b[..|b| - 1]);
    }
  }

  /** `crc16_buff(a + b)` is `b` folded onto the register that `a` leaves. */
  lemma FoldAppend(seed: bv16, a: seq<bv8>, b: seq<bv8>)
    ensures Fold(seed, a + b) == Fold(Fold(seed, a), b)
  {
    BitwiseFoldAppend(seed, a, b);
  }

  /** Once two registers differ, no further input can bring them back together. */
  lemma {:induction false} BitwiseFoldInjectiveInSeed(s: bv16, t: bv16, data: seq<bv8>)
    requires s != t
    ensures BitwiseFold(s, data) != BitwiseFold(t, data)
  {
    if |data| > 0 {
      var init := data[..|data| - 1];
      BitwiseFoldInjectiveInSeed(s, t, init);
      BitwiseUpdateInjectiveInSeed(data[|data| - 1], BitwiseFold(s, init), BitwiseFold(t, init));
    }
  }

  /**
   * Every single corrupted byte changes the checksum, whatever comes before or
   * after it and whatever register the checksum starts from.
   */
  lemma {:induction false} SingleByteErrorDetected(seed: bv16, prefix: seq<bv8>, x: bv8, y: bv8, suffix: seq<bv8>)
    requires x != y
    ensures Fold(seed, prefix + [x] + suffix) != Fold(seed, prefix + [y] + suffix)
  {
    var r := BitwiseFold(seed, prefix);
    BitwiseFoldAppend(seed, prefix + [x], suffix);
    BitwiseFoldAppend(seed, prefix + [y], suffix);
    BitwiseFoldAppend(seed, prefix, [x]);
    BitwiseFoldAppend(seed, prefix, [y]);
    assert BitwiseFold(r, [x]) == BitwiseUpdate(x, r);
    assert BitwiseFold(r, [y]) == BitwiseUpdate(y, r);
    BitwiseUpdateInjectiveInByte(x, y, r);
    BitwiseFoldInjectiveInSeed(BitwiseUpdate(x, r), BitwiseUpdate(y, r), suffix);
  }

  /** Overwriting any one byte of a message with a different value changes its checksum. */
  lemma ChangedByteDetected(data: seq<bv8>, j: nat, y: bv8)
    requires j < |data| && y != data[j]
    ensures Checksum(data[j := y]) != Checksum(data)
  {
    assert data == data[..j] + [data[j]] + data[j + 1..];
    assert data[j := y] == data[..j] + [y] + data[j + 1..];
    SingleByteErrorDetected(InitialSeed, data[..j], y, data[j], data[j + 1..]);
  }

  /** The catalogue check value of CRC-16/CCITT-FALSE: the checksum of ASCII "123456789" is 0x29B1. */
  lemma CheckValue()
    ensures Checksum([0x31, 0x32, 0x33, 0x34, 0x35, 0x36, 0x37, 0x38, 0x39]) == 0x29B1
  {
    BitwiseCheckValue();
  }
}

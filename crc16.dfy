/** CRC-16/ARC as the uploader computes it: a table-driven loop over a
    256-entry table (polynomial 0x8005 reflected to 0xA001, initial value 0,
    no final XOR), together with the bit-at-a-time definition the table is
    generated from, and the proof that the two agree on every input. */
module Crc16 {
  import opened Bytes

  /** A table laid out like `crc_table`: lines of 8 entries. */
  type Table = seq<seq<bv16>>

  /** 32 lines of 8 entries: 256 entries in all. */
  predicate Shaped(t: Table)
  {
    |t| == 32 && forall r :: 0 <= r < |t| ==> |t[r]| == 8
  }

  const CRC_TABLE: Table := [
    [0x0000, 0xC0C1, 0xC181, 0x0140, 0xC301, 0x03C0, 0x0280, 0xC241],
    [0xC601, 0x06C0, 0x0780, 0xC741, 0x0500, 0xC5C1, 0xC481, 0x0440],
    [0xCC01, 0x0CC0, 0x0D80, 0xCD41, 0x0F00, 0xCFC1, 0xCE81, 0x0E40],
    [0x0A00, 0xCAC1, 0xCB81, 0x0B40, 0xC901, 0x09C0, 0x0880, 0xC841],
    [0xD801, 0x18C0, 0x1980, 0xD941, 0x1B00, 0xDBC1, 0xDA81, 0x1A40],
    [0x1E00, 0xDEC1, 0xDF81, 0x1F40, 0xDD01, 0x1DC0, 0x1C80, 0xDC41],
    [0x1400, 0xD4C1, 0xD581, 0x1540, 0xD701, 0x17C0, 0x1680, 0xD641],
    [0xD201, 0x12C0, 0x1380, 0xD341, 0x1100, 0xD1C1, 0xD081, 0x1040],
    [0xF001, 0x30C0, 0x3180, 0xF141, 0x3300, 0xF3C1, 0xF281, 0x3240],
    [0x3600, 0xF6C1, 0xF781, 0x3740, 0xF501, 0x35C0, 0x3480, 0xF441],
    [0x3C00, 0xFCC1, 0xFD81, 0x3D40, 0xFF01, 0x3FC0, 0x3E80, 0xFE41],
    [0xFA01, 0x3AC0, 0x3B80, 0xFB41, 0x3900, 0xF9C1, 0xF881, 0x3840],
    [0x2800, 0xE8C1, 0xE981, 0x2940, 0xEB01, 0x2BC0, 0x2A80, 0xEA41],
    [0xEE01, 0x2EC0, 0x2F80, 0xEF41, 0x2D00, 0xEDC1, 0xEC81, 0x2C40],
    [0xE401, 0x24C0, 0x2580, 0xE541, 0x2700, 0xE7C1, 0xE681, 0x2640],
    [0x2200, 0xE2C1, 0xE381, 0x2340, 0xE101, 0x21C0, 0x2080, 0xE041],
    [0xA001, 0x60C0, 0x6180, 0xA141, 0x6300, 0xA3C1, 0xA281, 0x6240],
    [0x6600, 0xA6C1, 0xA781, 0x6740, 0xA501, 0x65C0, 0x6480, 0xA441],
    [0x6C00, 0xACC1, 0xAD81, 0x6D40, 0xAF01, 0x6FC0, 0x6E80, 0xAE41],
    [0xAA01, 0x6AC0, 0x6B80, 0xAB41, 0x6900, 0xA9C1, 0xA881, 0x6840],
    [0x7800, 0xB8C1, 0xB981, 0x7940, 0xBB01, 0x7BC0, 0x7A80, 0xBA41],
    [0xBE01, 0x7EC0, 0x7F80, 0xBF41, 0x7D00, 0xBDC1, 0xBC81, 0x7C40],
    [0xB401, 0x74C0, 0x7580, 0xB541, 0x7700, 0xB7C1, 0xB681, 0x7640],
    [0x7200, 0xB2C1, 0xB381, 0x7340, 0xB101, 0x71C0, 0x7080, 0xB041],
    [0x5000, 0x90C1, 0x9181, 0x5140, 0x9301, 0x53C0, 0x5280, 0x9241],
    [0x9601, 0x56C0, 0x5780, 0x9741, 0x5500, 0x95C1, 0x9481, 0x5440],
    [0x9C01, 0x5CC0, 0x5D80, 0x9D41, 0x5F00, 0x9FC1, 0x9E81, 0x5E40],
    [0x5A00, 0x9AC1, 0x9B81, 0x5B40, 0x9901, 0x59C0, 0x5880, 0x9841],
    [0x8801, 0x48C0, 0x4980, 0x8941, 0x4B00, 0x8BC1, 0x8A81, 0x4A40],
    [0x4E00, 0x8EC1, 0x8F81, 0x4F40, 0x8D01, 0x4DC0, 0x4C80, 0x8C41],
    [0x4400, 0x84C1, 0x8581, 0x4540, 0x8701, 0x47C0, 0x4680, 0x8641],
    [0x8201, 0x42C0, 0x4380, 0x8341, 0x4100, 0x81C1, 0x8081, 0x4040]
  ]

  lemma CrcTableShaped()
    ensures Shaped(CRC_TABLE)
  {
  }

  /** Entry `b` of `t`, counting line by line. */
  function Entry(t: Table, b: bv8): bv16
    requires b as int / 8 < |t| && b as int % 8 < |t[b as int / 8]|
  {
    t[b as int / 8][b as int % 8]
  }

  /** `(crc ^ d) & 0xff`. */
  function TableIndex(crc: bv16, d: bv8): bv8
  {
    ((crc ^ d as bv16) & 0xFF) as bv8
  }

  /** One pass of the loop body: `t[(crc ^ d) & 0xff] ^ (crc >> 8)`. */
  function TableStep(t: Table, crc: bv16, d: bv8): bv16
    requires Shaped(t)
  {
    Entry(t, TableIndex(crc, d)) ^ (crc >> 8)
  }

  /** The register after feeding `data` one word at a time to `step`, starting from `crc`. */
  function Fold(step: (bv16, bv8) -> bv16, crc: bv16, data: seq<bv8>): bv16
  {
    if data == [] then crc else step(Fold(step, crc, data[..|data| - 1]), data[|data| - 1])
  }

  /** The table-driven CRC register after feeding `data`, starting from `crc`. */
  function CrcFrom(t: Table, crc: bv16, data: seq<bv8>): bv16
    requires Shaped(t)
  {
    Fold((c, d) => TableStep(t, c, d), crc, data)
  }

  /** The bytes as 8-bit words. */
  function Octets(data: seq<byte>): (r: seq<bv8>)
    ensures |r| == |data|
  {
    seq(|data|, i requires 0 <= i < |data| => data[i] as bv8)
  }

  /** `crc16(data)`. */
  function Checksum(data: seq<byte>): (r: uint16)
    ensures data == [] ==> r == 0
  {
    CrcTableShaped();
    CrcFrom(CRC_TABLE, 0, Octets(data)) as int
  }

  /** The register after the loop of `crc16` has consumed `data`, started from
      `crc` instead of 0. */
  function Resume(crc: uint16, data: seq<byte>): uint16
  {
    CrcTableShaped();
    CrcFrom(CRC_TABLE, crc as bv16, Octets(data)) as int
  }

  /** `crc16` is a left fold over the bytes: the CRC of `a + b` is the loop over
      `b` resumed from the CRC of `a`. */
  lemma ChecksumAppend(a: seq<byte>, b: seq<byte>)
    ensures Checksum(a + b) == Resume(Checksum(a), b)
  {
    CrcTableShaped();
    assert Octets(a + b) == Octets(a) + Octets(b);
    CrcAppend(CRC_TABLE, 0, Octets(a), Octets(b));
  }

  /** `crc16`: the accumulator loop of the source, over its table. */
  method Crc16(data: seq<byte>) returns (crc: uint16)
    ensures crc == Checksum(data)
  {
    CrcTableShaped();
    var acc := TableLoop(CRC_TABLE, Octets(data));
    crc := acc as int;
  }

  /** The loop of `crc16` over the table `t`. */
  method TableLoop(t: Table, data: seq<bv8>) returns (acc: bv16)
    requires Shaped(t)
    ensures acc == CrcFrom(t, 0, data)
  {
    acc := 0;
    for i := 0 to |data|
      invariant acc == CrcFrom(t, 0, data[..i])
    {
      var tableIndex := TableIndex(acc, data[i]);
      acc := Entry(t, tableIndex) ^ (acc >> 8);
      assert data[..i + 1][..i] == data[..i];
    }
    assert data[..|data|] == data;
  }

  /** The source keeps the register in an unbounded integer and masks it with
      0xffff. A table entry is below 2^16 and `crc >> 8` below 2^8, so the mask
      never changes the value, and 16-bit arithmetic computes the same thing. */
  lemma MaskIsNoop(entry: bv32, crc: bv32)
    requires entry < 0x1_0000 && crc < 0x1_0000
    ensures (entry ^ (crc >> 8)) & 0xFFFF == entry ^ (crc >> 8)
  {
  }

  /** A left fold: feeding `a + b` continues from where feeding `a` stopped. */
  lemma {:induction false} FoldAppend(step: (bv16, bv8) -> bv16, crc: bv16, a: seq<bv8>, b: seq<bv8>)
    ensures Fold(step, crc, a + b) == Fold(step, Fold(step, crc, a), b)
    decreases |b|
  {
    if b == [] {
      assert a + b == a;
    } else {
      var b' := b[..|b| - 1];
      assert (a + b)[..|a + b| - 1] == a + b';
      FoldAppend(step, crc, a, b');
    }
  }

  /** Two steps that agree everywhere fold to the same register. */
  lemma {:induction false} FoldSameSteps(f: (bv16, bv8) -> bv16, g: (bv16, bv8) -> bv16, crc: bv16, data: seq<bv8>)
    requires forall c, d :: f(c, d) == g(c, d)
    ensures Fold(f, crc, data) == Fold(g, crc, data)
    decreases |data|
  {
    if data != [] {
      FoldSameSteps(f, g, crc, data[..|data| - 1]);
    }
  }

  /** The CRC of `a + b` continues from the CRC of `a`. */
  lemma CrcAppend(t: Table, crc: bv16, a: seq<bv8>, b: seq<bv8>)
    requires Shaped(t)
    ensures CrcFrom(t, crc, a + b) == CrcFrom(t, CrcFrom(t, crc, a), b)
  {
    FoldAppend((c, d) => TableStep(t, c, d), crc, a, b);
  }

  // ---------------------------------------------------------------------------
  // The bit-at-a-time reference.

  /** The reflected form of the CRC-16 polynomial x^16 + x^15 + x^2 + 1. */
  const POLY: bv16 := 0xA001

  /** One bit: shift right, and XOR the polynomial in when a 1 fell out. The
      bit that fell out, `b`, is XORed into bits 15, 13 and 0, the bits set in
      `POLY`; this keeps the step free of branches. */
  function ShiftStep(c: bv16): bv16
  {
    var b := c & 1;
    (c >> 1) ^ (b << 15) ^ (b << 13) ^ b
  }

  /** The step is the textbook one: shift right, and XOR `POLY` in exactly
      when the bit shifted out was 1. */
  lemma ShiftStepIsReflectedPoly(c: bv16)
    ensures c & 1 == 1 ==> ShiftStep(c) == (c >> 1) ^ POLY
    ensures c & 1 == 0 ==> ShiftStep(c) == c >> 1
  {
  }

  /** Eight bits, one byte's worth of shifting. */
  function ByteSteps(c: bv16): bv16
  {
    ShiftStep(ShiftStep(ShiftStep(ShiftStep(ShiftStep(ShiftStep(ShiftStep(ShiftStep(c))))))))
  }

  /** One byte, bit at a time: XOR it into the low byte, then shift eight times. */
  function BitStep(crc: bv16, d: bv8): bv16
  {
    ByteSteps(crc ^ d as bv16)
  }

  /** The bit-at-a-time CRC register after feeding `data`, starting from `crc`. */
  function BitwiseFrom(crc: bv16, data: seq<bv8>): bv16
  {
    Fold(BitStep, crc, data)
  }

  /** Entry `b` of `t` is the register after eight bit steps from `b`: how the
      table was generated. */
  ghost predicate Generated(t: Table)
    requires Shaped(t)
  {
    forall b: bv8 :: Entry(t, b) == ByteSteps(b as bv16)
  }

  // Each line of the source's table, checked entry by entry against eight
  // bit steps.

  lemma TableRow0(b: bv8)
    requires 0 <= b < 8
    ensures Entry(CRC_TABLE, b) == ByteSteps(b as bv16)
  {
    assert CRC_TABLE[0] == [0x0000, 0xC0C1, 0xC181, 0x0140, 0xC301, 0x03C0, 0x0280, 0xC241];
    if b == 0 { assert ByteSteps(0) == 0x0000; } else if b == 1 { assert ByteSteps(1) == 0xC0C1; } else if b == 2 { assert ByteSteps(2) == 0xC181; } else if b == 3 { assert ByteSteps(3) == 0x0140; } else if b == 4 { assert ByteSteps(4) == 0xC301; } else if b == 5 { assert ByteSteps(5) == 0x03C0; } else if b == 6 { assert ByteSteps(6) == 0x0280; } else if b == 7 { assert ByteSteps(7) == 0xC241; }
  }

  lemma TableRow1(b: bv8)
    requires 8 <= b < 16
    ensures Entry(CRC_TABLE, b) == ByteSteps(b as bv16)
  {
    assert CRC_TABLE[1] == [0xC601, 0x06C0, 0x0780, 0xC741, 0x0500, 0xC5C1, 0xC481, 0x0440];
    if b == 8 { assert ByteSteps(8) == 0xC601; } else if b == 9 { assert ByteSteps(9) == 0x06C0; } else if b == 10 { assert ByteSteps(10) == 0x0780; } else if b == 11 { assert ByteSteps(11) == 0xC741; } else if b == 12 { assert ByteSteps(12) == 0x0500; } else if b == 13 { assert ByteSteps(13) == 0xC5C1; } else if b == 14 { assert ByteSteps(14) == 0xC481; } else if b == 15 { assert ByteSteps(15) == 0x0440; }
  }

  lemma TableRow2(b: bv8)
    requires 16 <= b < 24
    ensures Entry(CRC_TABLE, b) == ByteSteps(b as bv16)
  {
    assert CRC_TABLE[2] == [0xCC01, 0x0CC0, 0x0D80, 0xCD41, 0x0F00, 0xCFC1, 0xCE81, 0x0E40];
    if b == 16 { assert ByteSteps(16) == 0xCC01; } else if b == 17 { assert ByteSteps(17) == 0x0CC0; } else if b == 18 { assert ByteSteps(18) == 0x0D80; } else if b == 19 { assert ByteSteps(19) == 0xCD41; } else if b == 20 { assert ByteSteps(20) == 0x0F00; } else if b == 21 { assert ByteSteps(21) == 0xCFC1; } else if b == 22 { assert ByteSteps(22) == 0xCE81; } else if b == 23 { assert ByteSteps(23) == 0x0E40; }
  }

  lemma TableRow3(b: bv8)
    requires 24 <= b < 32
    ensures Entry(CRC_TABLE, b) == ByteSteps(b as bv16)
  {
    assert CRC_TABLE[3] == [0x0A00, 0xCAC1, 0xCB81, 0x0B40, 0xC901, 0x09C0, 0x0880, 0xC841];
    if b == 24 { assert ByteSteps(24) == 0x0A00; } else if b == 25 { assert ByteSteps(25) == 0xCAC1; } else if b == 26 { assert ByteSteps(26) == 0xCB81; } else if b == 27 { assert ByteSteps(27) == 0x0B40; } else if b == 28 { assert ByteSteps(28) == 0xC901; } else if b == 29 { assert ByteSteps(29) == 0x09C0; } else if b == 30 { assert ByteSteps(30) == 0x0880; } else if b == 31 { assert ByteSteps(31) == 0xC841; }
  }

  lemma TableRow4(b: bv8)
    requires 32 <= b < 40
    ensures Entry(CRC_TABLE, b) == ByteSteps(b as bv16)
  {
    assert CRC_TABLE[4] == [0xD801, 0x18C0, 0x1980, 0xD941, 0x1B00, 0xDBC1, 0xDA81, 0x1A40];
    if b == 32 { assert ByteSteps(32) == 0xD801; } else if b == 33 { assert ByteSteps(33) == 0x18C0; } else if b == 34 { assert ByteSteps(34) == 0x1980; } else if b == 35 { assert ByteSteps(35) == 0xD941; } else if b == 36 { assert ByteSteps(36) == 0x1B00; } else if b == 37 { assert ByteSteps(37) == 0xDBC1; } else if b == 38 { assert ByteSteps(38) == 0xDA81; } else if b == 39 { assert ByteSteps(39) == 0x1A40; }
  }

  lemma TableRow5(b: bv8)
    requires 40 <= b < 48
    ensures Entry(CRC_TABLE, b) == ByteSteps(b as bv16)
  {
    assert CRC_TABLE[5] == [0x1E00, 0xDEC1, 0xDF81, 0x1F40, 0xDD01, 0x1DC0, 0x1C80, 0xDC41];
    if b == 40 { assert ByteSteps(40) == 0x1E00; } else if b == 41 { assert ByteSteps(41) == 0xDEC1; } else if b == 42 { assert ByteSteps(42) == 0xDF81; } else if b == 43 { assert ByteSteps(43) == 0x1F40; } else if b == 44 { assert ByteSteps(44) == 0xDD01; } else if b == 45 { assert ByteSteps(45) == 0x1DC0; } else if b == 46 { assert ByteSteps(46) == 0x1C80; } else if b == 47 { assert ByteSteps(47) == 0xDC41; }
  }

  lemma TableRow6(b: bv8)
    requires 48 <= b < 56
    ensures Entry(CRC_TABLE, b) == ByteSteps(b as bv16)
  {
    assert CRC_TABLE[6] == [0x1400, 0xD4C1, 0xD581, 0x1540, 0xD701, 0x17C0, 0x1680, 0xD641];
    if b == 48 { assert ByteSteps(48) == 0x1400; } else if b == 49 { assert ByteSteps(49) == 0xD4C1; } else if b == 50 { assert ByteSteps(50) == 0xD581; } else if b == 51 { assert ByteSteps(51) == 0x1540; } else if b == 52 { assert ByteSteps(52) == 0xD701; } else if b == 53 { assert ByteSteps(53) == 0x17C0; } else if b == 54 { assert ByteSteps(54) == 0x1680; } else if b == 55 { assert ByteSteps(55) == 0xD641; }
  }

  lemma TableRow7(b: bv8)
    requires 56 <= b < 64
    ensures Entry(CRC_TABLE, b) == ByteSteps(b as bv16)
  {
    assert CRC_TABLE[7] == [0xD201, 0x12C0, 0x1380, 0xD341, 0x1100, 0xD1C1, 0xD081, 0x1040];
    if b == 56 { assert ByteSteps(56) == 0xD201; } else if b == 57 { assert ByteSteps(57) == 0x12C0; } else if b == 58 { assert ByteSteps(58) == 0x1380; } else if b == 59 { assert ByteSteps(59) == 0xD341; } else if b == 60 { assert ByteSteps(60) == 0x1100; } else if b == 61 { assert ByteSteps(61) == 0xD1C1; } else if b == 62 { assert ByteSteps(62) == 0xD081; } else if b == 63 { assert ByteSteps(63) == 0x1040; }
  }

  lemma TableRow8(b: bv8)
    requires 64 <= b < 72
    ensures Entry(CRC_TABLE, b) == ByteSteps(b as bv16)
  {
    assert CRC_TABLE[8] == [0xF001, 0x30C0, 0x3180, 0xF141, 0x3300, 0xF3C1, 0xF281, 0x3240];
    if b == 64 { assert ByteSteps(64) == 0xF001; } else if b == 65 { assert ByteSteps(65) == 0x30C0; } else if b == 66 { assert ByteSteps(66) == 0x3180; } else if b == 67 { assert ByteSteps(67) == 0xF141; } else if b == 68 { assert ByteSteps(68) == 0x3300; } else if b == 69 { assert ByteSteps(69) == 0xF3C1; } else if b == 70 { assert ByteSteps(70) == 0xF281; } else if b == 71 { assert ByteSteps(71) == 0x3240; }
  }

  lemma TableRow9(b: bv8)
    requires 72 <= b < 80
    ensures Entry(CRC_TABLE, b) == ByteSteps(b as bv16)
  {
    assert CRC_TABLE[9] == [0x3600, 0xF6C1, 0xF781, 0x3740, 0xF501, 0x35C0, 0x3480, 0xF441];
    if b == 72 { assert ByteSteps(72) == 0x3600; } else if b == 73 { assert ByteSteps(73) == 0xF6C1; } else if b == 74 { assert ByteSteps(74) == 0xF781; } else if b == 75 { assert ByteSteps(75) == 0x3740; } else if b == 76 { assert ByteSteps(76) == 0xF501; } else if b == 77 { assert ByteSteps(77) == 0x35C0; } else if b == 78 { assert ByteSteps(78) == 0x3480; } else if b == 79 { assert ByteSteps(79) == 0xF441; }
  }

  lemma TableRow10(b: bv8)
    requires 80 <= b < 88
    ensures Entry(CRC_TABLE, b) == ByteSteps(b as bv16)
  {
    assert CRC_TABLE[10] == [0x3C00, 0xFCC1, 0xFD81, 0x3D40, 0xFF01, 0x3FC0, 0x3E80, 0xFE41];
    if b == 80 { assert ByteSteps(80) == 0x3C00; } else if b == 81 { assert ByteSteps(81) == 0xFCC1; } else if b == 82 { assert ByteSteps(82) == 0xFD81; } else if b == 83 { assert ByteSteps(83) == 0x3D40; } else if b == 84 { assert ByteSteps(84) == 0xFF01; } else if b == 85 { assert ByteSteps(85) == 0x3FC0; } else if b == 86 { assert ByteSteps(86) == 0x3E80; } else if b == 87 { assert ByteSteps(87) == 0xFE41; }
  }

  lemma TableRow11(b: bv8)
    requires 88 <= b < 96
    ensures Entry(CRC_TABLE, b) == ByteSteps(b as bv16)
  {
    assert CRC_TABLE[11] == [0xFA01, 0x3AC0, 0x3B80, 0xFB41, 0x3900, 0xF9C1, 0xF881, 0x3840];
    if b == 88 { assert ByteSteps(88) == 0xFA01; } else if b == 89 { assert ByteSteps(89) == 0x3AC0; } else if b == 90 { assert ByteSteps(90) == 0x3B80; } else if b == 91 { assert ByteSteps(91) == 0xFB41; } else if b == 92 { assert ByteSteps(92) == 0x3900; } else if b == 93 { assert ByteSteps(93) == 0xF9C1; } else if b == 94 { assert ByteSteps(94) == 0xF881; } else if b == 95 { assert ByteSteps(95) == 0x3840; }
  }

  lemma TableRow12(b: bv8)
    requires 96 <= b < 104
    ensures Entry(CRC_TABLE, b) == ByteSteps(b as bv16)
  {
    assert CRC_TABLE[12] == [0x2800, 0xE8C1, 0xE981, 0x2940, 0xEB01, 0x2BC0, 0x2A80, 0xEA41];
    if b == 96 { assert ByteSteps(96) == 0x2800; } else if b == 97 { assert ByteSteps(97) == 0xE8C1; } else if b == 98 { assert ByteSteps(98) == 0xE981; } else if b == 99 { assert ByteSteps(99) == 0x2940; } else if b == 100 { assert ByteSteps(100) == 0xEB01; } else if b == 101 { assert ByteSteps(101) == 0x2BC0; } else if b == 102 { assert ByteSteps(102) == 0x2A80; } else if b == 103 { assert ByteSteps(103) == 0xEA41; }
  }

  lemma TableRow13(b: bv8)
    requires 104 <= b < 112
    ensures Entry(CRC_TABLE, b) == ByteSteps(b as bv16)
  {
    assert CRC_TABLE[13] == [0xEE01, 0x2EC0, 0x2F80, 0xEF41, 0x2D00, 0xEDC1, 0xEC81, 0x2C40];
    if b == 104 { assert ByteSteps(104) == 0xEE01; } else if b == 105 { assert ByteSteps(105) == 0x2EC0; } else if b == 106 { assert ByteSteps(106) == 0x2F80; } else if b == 107 { assert ByteSteps(107) == 0xEF41; } else if b == 108 { assert ByteSteps(108) == 0x2D00; } else if b == 109 { assert ByteSteps(109) == 0xEDC1; } else if b == 110 { assert ByteSteps(110) == 0xEC81; } else if b == 111 { assert ByteSteps(111) == 0x2C40; }
  }

  lemma TableRow14(b: bv8)
    requires 112 <= b < 120
    ensures Entry(CRC_TABLE, b) == ByteSteps(b as bv16)
  {
    assert CRC_TABLE[14] == [0xE401, 0x24C0, 0x2580, 0xE541, 0x2700, 0xE7C1, 0xE681, 0x2640];
    if b == 112 { assert ByteSteps(112) == 0xE401; } else if b == 113 { assert ByteSteps(113) == 0x24C0; } else if b == 114 { assert ByteSteps(114) == 0x2580; } else if b == 115 { assert ByteSteps(115) == 0xE541; } else if b == 116 { assert ByteSteps(116) == 0x2700; } else if b == 117 { assert ByteSteps(117) == 0xE7C1; } else if b == 118 { assert ByteSteps(118) == 0xE681; } else if b == 119 { assert ByteSteps(119) == 0x2640; }
  }

  lemma TableRow15(b: bv8)
    requires 120 <= b < 128
    ensures Entry(CRC_TABLE, b) == ByteSteps(b as bv16)
  {
    assert CRC_TABLE[15] == [0x2200, 0xE2C1, 0xE381, 0x2340, 0xE101, 0x21C0, 0x2080, 0xE041];
    if b == 120 { assert ByteSteps(120) == 0x2200; } else if b == 121 { assert ByteSteps(121) == 0xE2C1; } else if b == 122 { assert ByteSteps(122) == 0xE381; } else if b == 123 { assert ByteSteps(123) == 0x2340; } else if b == 124 { assert ByteSteps(124) == 0xE101; } else if b == 125 { assert ByteSteps(125) == 0x21C0; } else if b == 126 { assert ByteSteps(126) == 0x2080; } else if b == 127 { assert ByteSteps(127) == 0xE041; }
  }

  lemma TableRow16(b: bv8)
    requires 128 <= b < 136
    ensures Entry(CRC_TABLE, b) == ByteSteps(b as bv16)
  {
    assert CRC_TABLE[16] == [0xA001, 0x60C0, 0x6180, 0xA141, 0x6300, 0xA3C1, 0xA281, 0x6240];
    if b == 128 { assert ByteSteps(128) == 0xA001; } else if b == 129 { assert ByteSteps(129) == 0x60C0; } else if b == 130 { assert ByteSteps(130) == 0x6180; } else if b == 131 { assert ByteSteps(131) == 0xA141; } else if b == 132 { assert ByteSteps(132) == 0x6300; } else if b == 133 { assert ByteSteps(133) == 0xA3C1; } else if b == 134 { assert ByteSteps(134) == 0xA281; } else if b == 135 { assert ByteSteps(135) == 0x6240; }
  }

  lemma TableRow17(b: bv8)
    requires 136 <= b < 144
    ensures Entry(CRC_TABLE, b) == ByteSteps(b as bv16)
  {
    assert CRC_TABLE[17] == [0x6600, 0xA6C1, 0xA781, 0x6740, 0xA501, 0x65C0, 0x6480, 0xA441];
    if b == 136 { assert ByteSteps(136) == 0x6600; } else if b == 137 { assert ByteSteps(137) == 0xA6C1; } else if b == 138 { assert ByteSteps(138) == 0xA781; } else if b == 139 { assert ByteSteps(139) == 0x6740; } else if b == 140 { assert ByteSteps(140) == 0xA501; } else if b == 141 { assert ByteSteps(141) == 0x65C0; } else if b == 142 { assert ByteSteps(142) == 0x6480; } else if b == 143 { assert ByteSteps(143) == 0xA441; }
  }

  lemma TableRow18(b: bv8)
    requires 144 <= b < 152
    ensures Entry(CRC_TABLE, b) == ByteSteps(b as bv16)
  {
    assert CRC_TABLE[18] == [0x6C00, 0xACC1, 0xAD81, 0x6D40, 0xAF01, 0x6FC0, 0x6E80, 0xAE41];
    if b == 144 { assert ByteSteps(144) == 0x6C00; } else if b == 145 { assert ByteSteps(145) == 0xACC1; } else if b == 146 { assert ByteSteps(146) == 0xAD81; } else if b == 147 { assert ByteSteps(147) == 0x6D40; } else if b == 148 { assert ByteSteps(148) == 0xAF01; } else if b == 149 { assert ByteSteps(149) == 0x6FC0; } else if b == 150 { assert ByteSteps(150) == 0x6E80; } else if b == 151 { assert ByteSteps(151) == 0xAE41; }
  }

  lemma TableRow19(b: bv8)
    requires 152 <= b < 160
    ensures Entry(CRC_TABLE, b) == ByteSteps(b as bv16)
  {
    assert CRC_TABLE[19] == [0xAA01, 0x6AC0, 0x6B80, 0xAB41, 0x6900, 0xA9C1, 0xA881, 0x6840];
    if b == 152 { assert ByteSteps(152) == 0xAA01; } else if b == 153 { assert ByteSteps(153) == 0x6AC0; } else if b == 154 { assert ByteSteps(154) == 0x6B80; } else if b == 155 { assert ByteSteps(155) == 0xAB41; } else if b == 156 { assert ByteSteps(156) == 0x6900; } else if b == 157 { assert ByteSteps(157) == 0xA9C1; } else if b == 158 { assert ByteSteps(158) == 0xA881; } else if b == 159 { assert ByteSteps(159) == 0x6840; }
  }

  lemma TableRow20(b: bv8)
    requires 160 <= b < 168
    ensures Entry(CRC_TABLE, b) == ByteSteps(b as bv16)
  {
    assert CRC_TABLE[20] == [0x7800, 0xB8C1, 0xB981, 0x7940, 0xBB01, 0x7BC0, 0x7A80, 0xBA41];
    if b == 160 { assert ByteSteps(160) == 0x7800; } else if b == 161 { assert ByteSteps(161) == 0xB8C1; } else if b == 162 { assert ByteSteps(162) == 0xB981; } else if b == 163 { assert ByteSteps(163) == 0x7940; } else if b == 164 { assert ByteSteps(164) == 0xBB01; } else if b == 165 { assert ByteSteps(165) == 0x7BC0; } else if b == 166 { assert ByteSteps(166) == 0x7A80; } else if b == 167 { assert ByteSteps(167) == 0xBA41; }
  }

  lemma TableRow21(b: bv8)
    requires 168 <= b < 176
    ensures Entry(CRC_TABLE, b) == ByteSteps(b as bv16)
  {
    assert CRC_TABLE[21] == [0xBE01, 0x7EC0, 0x7F80, 0xBF41, 0x7D00, 0xBDC1, 0xBC81, 0x7C40];
    if b == 168 { assert ByteSteps(168) == 0xBE01; } else if b == 169 { assert ByteSteps(169) == 0x7EC0; } else if b == 170 { assert ByteSteps(170) == 0x7F80; } else if b == 171 { assert ByteSteps(171) == 0xBF41; } else if b == 172 { assert ByteSteps(172) == 0x7D00; } else if b == 173 { assert ByteSteps(173) == 0xBDC1; } else if b == 174 { assert ByteSteps(174) == 0xBC81; } else if b == 175 { assert ByteSteps(175) == 0x7C40; }
  }

  lemma TableRow22(b: bv8)
    requires 176 <= b < 184
    ensures Entry(CRC_TABLE, b) == ByteSteps(b as bv16)
  {
    assert CRC_TABLE[22] == [0xB401, 0x74C0, 0x7580, 0xB541, 0x7700, 0xB7C1, 0xB681, 0x7640];
    if b == 176 { assert ByteSteps(176) == 0xB401; } else if b == 177 { assert ByteSteps(177) == 0x74C0; } else if b == 178 { assert ByteSteps(178) == 0x7580; } else if b == 179 { assert ByteSteps(179) == 0xB541; } else if b == 180 { assert ByteSteps(180) == 0x7700; } else if b == 181 { assert ByteSteps(181) == 0xB7C1; } else if b == 182 { assert ByteSteps(182) == 0xB681; } else if b == 183 { assert ByteSteps(183) == 0x7640; }
  }

  lemma TableRow23(b: bv8)
    requires 184 <= b < 192
    ensures Entry(CRC_TABLE, b) == ByteSteps(b as bv16)
  {
    assert CRC_TABLE[23] == [0x7200, 0xB2C1, 0xB381, 0x7340, 0xB101, 0x71C0, 0x7080, 0xB041];
    if b == 184 { assert ByteSteps(184) == 0x7200; } else if b == 185 { assert ByteSteps(185) == 0xB2C1; } else if b == 186 { assert ByteSteps(186) == 0xB381; } else if b == 187 { assert ByteSteps(187) == 0x7340; } else if b == 188 { assert ByteSteps(188) == 0xB101; } else if b == 189 { assert ByteSteps(189) == 0x71C0; } else if b == 190 { assert ByteSteps(190) == 0x7080; } else if b == 191 { assert ByteSteps(191) == 0xB041; }
  }

  lemma TableRow24(b: bv8)
    requires 192 <= b < 200
    ensures Entry(CRC_TABLE, b) == ByteSteps(b as bv16)
  {
    assert CRC_TABLE[24] == [0x5000, 0x90C1, 0x9181, 0x5140, 0x9301, 0x53C0, 0x5280, 0x9241];
    if b == 192 { assert ByteSteps(192) == 0x5000; } else if b == 193 { assert ByteSteps(193) == 0x90C1; } else if b == 194 { assert ByteSteps(194) == 0x9181; } else if b == 195 { assert ByteSteps(195) == 0x5140; } else if b == 196 { assert ByteSteps(196) == 0x9301; } else if b == 197 { assert ByteSteps(197) == 0x53C0; } else if b == 198 { assert ByteSteps(198) == 0x5280; } else if b == 199 { assert ByteSteps(199) == 0x9241; }
  }

  lemma TableRow25(b: bv8)
    requires 200 <= b < 208
    ensures Entry(CRC_TABLE, b) == ByteSteps(b as bv16)
  {
    assert CRC_TABLE[25] == [0x9601, 0x56C0, 0x5780, 0x9741, 0x5500, 0x95C1, 0x9481, 0x5440];
    if b == 200 { assert ByteSteps(200) == 0x9601; } else if b == 201 { assert ByteSteps(201) == 0x56C0; } else if b == 202 { assert ByteSteps(202) == 0x5780; } else if b == 203 { assert ByteSteps(203) == 0x9741; } else if b == 204 { assert ByteSteps(204) == 0x5500; } else if b == 205 { assert ByteSteps(205) == 0x95C1; } else if b == 206 { assert ByteSteps(206) == 0x9481; } else if b == 207 { assert ByteSteps(207) == 0x5440; }
  }

  lemma TableRow26(b: bv8)
    requires 208 <= b < 216
    ensures Entry(CRC_TABLE, b) == ByteSteps(b as bv16)
  {
    assert CRC_TABLE[26] == [0x9C01, 0x5CC0, 0x5D80, 0x9D41, 0x5F00, 0x9FC1, 0x9E81, 0x5E40];
    if b == 208 { assert ByteSteps(208) == 0x9C01; } else if b == 209 { assert ByteSteps(209) == 0x5CC0; } else if b == 210 { assert ByteSteps(210) == 0x5D80; } else if b == 211 { assert ByteSteps(211) == 0x9D41; } else if b == 212 { assert ByteSteps(212) == 0x5F00; } else if b == 213 { assert ByteSteps(213) == 0x9FC1; } else if b == 214 { assert ByteSteps(214) == 0x9E81; } else if b == 215 { assert ByteSteps(215) == 0x5E40; }
  }

  lemma TableRow27(b: bv8)
    requires 216 <= b < 224
    ensures Entry(CRC_TABLE, b) == ByteSteps(b as bv16)
  {
    assert CRC_TABLE[27] == [0x5A00, 0x9AC1, 0x9B81, 0x5B40, 0x9901, 0x59C0, 0x5880, 0x9841];
    if b == 216 { assert ByteSteps(216) == 0x5A00; } else if b == 217 { assert ByteSteps(217) == 0x9AC1; } else if b == 218 { assert ByteSteps(218) == 0x9B81; } else if b == 219 { assert ByteSteps(219) == 0x5B40; } else if b == 220 { assert ByteSteps(220) == 0x9901; } else if b == 221 { assert ByteSteps(221) == 0x59C0; } else if b == 222 { assert ByteSteps(222) == 0x5880; } else if b == 223 { assert ByteSteps(223) == 0x9841; }
  }

  lemma TableRow28(b: bv8)
    requires 224 <= b < 232
    ensures Entry(CRC_TABLE, b) == ByteSteps(b as bv16)
  {
    assert CRC_TABLE[28] == [0x8801, 0x48C0, 0x4980, 0x8941, 0x4B00, 0x8BC1, 0x8A81, 0x4A40];
    if b == 224 { assert ByteSteps(224) == 0x8801; } else if b == 225 { assert ByteSteps(225) == 0x48C0; } else if b == 226 { assert ByteSteps(226) == 0x4980; } else if b == 227 { assert ByteSteps(227) == 0x8941; } else if b == 228 { assert ByteSteps(228) == 0x4B00; } else if b == 229 { assert ByteSteps(229) == 0x8BC1; } else if b == 230 { assert ByteSteps(230) == 0x8A81; } else if b == 231 { assert ByteSteps(231) == 0x4A40; }
  }

  lemma TableRow29(b: bv8)
    requires 232 <= b < 240
    ensures Entry(CRC_TABLE, b) == ByteSteps(b as bv16)
  {
    assert CRC_TABLE[29] == [0x4E00, 0x8EC1, 0x8F81, 0x4F40, 0x8D01, 0x4DC0, 0x4C80, 0x8C41];
    if b == 232 { assert ByteSteps(232) == 0x4E00; } else if b == 233 { assert ByteSteps(233) == 0x8EC1; } else if b == 234 { assert ByteSteps(234) == 0x8F81; } else if b == 235 { assert ByteSteps(235) == 0x4F40; } else if b == 236 { assert ByteSteps(236) == 0x8D01; } else if b == 237 { assert ByteSteps(237) == 0x4DC0; } else if b == 238 { assert ByteSteps(238) == 0x4C80; } else if b == 239 { assert ByteSteps(239) == 0x8C41; }
  }

  lemma TableRow30(b: bv8)
    requires 240 <= b < 248
    ensures Entry(CRC_TABLE, b) == ByteSteps(b as bv16)
  {
    assert CRC_TABLE[30] == [0x4400, 0x84C1, 0x8581, 0x4540, 0x8701, 0x47C0, 0x4680, 0x8641];
    if b == 240 { assert ByteSteps(240) == 0x4400; } else if b == 241 { assert ByteSteps(241) == 0x84C1; } else if b == 242 { assert ByteSteps(242) == 0x8581; } else if b == 243 { assert ByteSteps(243) == 0x4540; } else if b == 244 { assert ByteSteps(244) == 0x8701; } else if b == 245 { assert ByteSteps(245) == 0x47C0; } else if b == 246 { assert ByteSteps(246) == 0x4680; } else if b == 247 { assert ByteSteps(247) == 0x8641; }
  }

  lemma TableRow31(b: bv8)
    requires 248 <= b
    ensures Entry(CRC_TABLE, b) == ByteSteps(b as bv16)
  {
    assert CRC_TABLE[31] == [0x8201, 0x42C0, 0x4380, 0x8341, 0x4100, 0x81C1, 0x8081, 0x4040];
    if b == 248 { assert ByteSteps(248) == 0x8201; } else if b == 249 { assert ByteSteps(249) == 0x42C0; } else if b == 250 { assert ByteSteps(250) == 0x4380; } else if b == 251 { assert ByteSteps(251) == 0x8341; } else if b == 252 { assert ByteSteps(252) == 0x4100; } else if b == 253 { assert ByteSteps(253) == 0x81C1; } else if b == 254 { assert ByteSteps(254) == 0x8081; } else if b == 255 { assert ByteSteps(255) == 0x4040; }
  }

  lemma TableIsBitwise(b: bv8)
    ensures Shaped(CRC_TABLE) && Entry(CRC_TABLE, b) == ByteSteps(b as bv16)
  {
    CrcTableShaped();
    if b < 8 { TableRow0(b); return; }
    if b < 16 { TableRow1(b); return; }
    if b < 24 { TableRow2(b); return; }
    if b < 32 { TableRow3(b); return; }
    if b < 40 { TableRow4(b); return; }
    if b < 48 { TableRow5(b); return; }
    if b < 56 { TableRow6(b); return; }
    if b < 64 { TableRow7(b); return; }
    if b < 72 { TableRow8(b); return; }
    if b < 80 { TableRow9(b); return; }
    if b < 88 { TableRow10(b); return; }
    if b < 96 { TableRow11(b); return; }
    if b < 104 { TableRow12(b); return; }
    if b < 112 { TableRow13(b); return; }
    if b < 120 { TableRow14(b); return; }
    if b < 128 { TableRow15(b); return; }
    if b < 136 { TableRow16(b); return; }
    if b < 144 { TableRow17(b); return; }
    if b < 152 { TableRow18(b); return; }
    if b < 160 { TableRow19(b); return; }
    if b < 168 { TableRow20(b); return; }
    if b < 176 { TableRow21(b); return; }
    if b < 184 { TableRow22(b); return; }
    if b < 192 { TableRow23(b); return; }
    if b < 200 { TableRow24(b); return; }
    if b < 208 { TableRow25(b); return; }
    if b < 216 { TableRow26(b); return; }
    if b < 224 { TableRow27(b); return; }
    if b < 232 { TableRow28(b); return; }
    if b < 240 { TableRow29(b); return; }
    if b < 248 { TableRow30(b); return; }
    TableRow31(b);
  }

  /** Every entry of the source's table is the bitwise CRC of its index. */
  lemma CrcTableGenerated()
    ensures Shaped(CRC_TABLE) && Generated(CRC_TABLE)
  {
    CrcTableShaped();
    forall b: bv8
      ensures Shaped(CRC_TABLE) && Entry(CRC_TABLE, b) == ByteSteps(b as bv16)
    {
      TableIsBitwise(b);
    }
  }

  /** The low byte of `crc ^ d` alone decides what gets XORed in; the high
      byte of `crc` just moves down. */
  lemma ByteStepSplit(crc: bv16, d: bv8)
    ensures BitStep(crc, d) == ByteSteps((crc ^ d as bv16) & 0xFF) ^ (crc >> 8)
  {
  }

  /** The table index is the low byte of `crc ^ d`. */
  lemma IndexIsLowByte(crc: bv16, d: bv8)
    ensures TableIndex(crc, d) as bv16 == (crc ^ d as bv16) & 0xFF
  {
  }

  /** One bitwise byte step is eight bit steps on the table index, XORed with
      the high byte moved down. */
  lemma BitStepSplit(crc: bv16, d: bv8)
    ensures BitStep(crc, d) == ByteSteps(TableIndex(crc, d) as bv16) ^ (crc >> 8)
  {
    ByteStepSplit(crc, d);
    IndexIsLowByte(crc, d);
  }

  /** With a generated table, one table step is one bitwise byte step. */
  lemma StepIsBitwise(t: Table, crc: bv16, d: bv8)
    requires Shaped(t) && Generated(t)
    ensures TableStep(t, crc, d) == BitStep(crc, d)
  {
    var i := TableIndex(crc, d);
    assert Entry(t, i) == ByteSteps(i as bv16);
    BitStepSplit(crc, d);
  }

  /** With a generated table, the table-driven loop computes the bitwise CRC,
      for every start value and input. */
  lemma TableCrcIsBitwise(t: Table, crc: bv16, data: seq<bv8>)
    requires Shaped(t) && Generated(t)
    ensures CrcFrom(t, crc, data) == BitwiseFrom(crc, data)
  {
    var f := (c, d) => TableStep(t, c, d);
    forall c, d
      ensures f(c, d) == BitStep(c, d)
    {
      StepIsBitwise(t, c, d);
    }
    FoldSameSteps(f, BitStep, crc, data);
  }

  /** `crc16` is the bit-at-a-time CRC-16/ARC of its input. */
  lemma ChecksumIsBitwise(data: seq<byte>)
    ensures Checksum(data) == BitwiseFrom(0, Octets(data)) as int
  {
    CrcTableGenerated();
    TableCrcIsBitwise(CRC_TABLE, 0, Octets(data));
  }

  /** Appending one byte runs one more byte of the bitwise register; the
      values are arguments so that concrete ones only need constant folding. */
  lemma BitwiseNext(s: seq<bv8>, d: bv8, v: bv16, x: bv16, w: bv16)
    requires BitwiseFrom(0, s) == v && x == v ^ d as bv16 && ByteSteps(x) == w
    ensures BitwiseFrom(0, s + [d]) == w
  {
    assert (s + [d])[..|s|] == s;
  }

  /** The bitwise register over ASCII "123456789", one byte at a time. */
  lemma CheckValueBitwise()
    ensures BitwiseFrom(0, [0x31, 0x32, 0x33, 0x34, 0x35, 0x36, 0x37, 0x38, 0x39]) == 0xBB3D
  {
    var s0: seq<bv8> := [];
    BitwiseNext(s0, 0x31, 0x0000, 0x0031, 0xD4C1);
    var s1 := s0 + [0x31];
    BitwiseNext(s1, 0x32, 0xD4C1, 0xD4F3, 0x4594);
    var s2 := s1 + [0x32];
    BitwiseNext(s2, 0x33, 0x4594, 0x45A7, 0xBA04);
    var s3 := s2 + [0x33];
    BitwiseNext(s3, 0x34, 0xBA04, 0xBA30, 0x14BA);
    var s4 := s3 + [0x34];
    BitwiseNext(s4, 0x35, 0x14BA, 0x148F, 0xA455);
    var s5 := s4 + [0x35];
    BitwiseNext(s5, 0x36, 0xA455, 0xA463, 0x29E4);
    var s6 := s5 + [0x36];
    BitwiseNext(s6, 0x37, 0x29E4, 0x29D3, 0x9D68);
    var s7 := s6 + [0x37];
    BitwiseNext(s7, 0x38, 0x9D68, 0x9D50, 0x3C9D);
    var s8 := s7 + [0x38];
    BitwiseNext(s8, 0x39, 0x3C9D, 0x3CA4, 0xBB3D);
    var s9 := s8 + [0x39];
    assert s9 == [0x31, 0x32, 0x33, 0x34, 0x35, 0x36, 0x37, 0x38, 0x39];
  }

  /** The standard check value of CRC-16/ARC: the CRC of ASCII "123456789" is 0xBB3D. */
  lemma CheckValue()
    ensures Checksum([0x31, 0x32, 0x33, 0x34, 0x35, 0x36, 0x37, 0x38, 0x39]) == 0xBB3D
  {
    var data: seq<byte> := [0x31, 0x32, 0x33, 0x34, 0x35, 0x36, 0x37, 0x38, 0x39];
    assert Octets(data) == [0x31, 0x32, 0x33, 0x34, 0x35, 0x36, 0x37, 0x38, 0x39];
    CheckValueBitwise();
    ChecksumIsBitwise(data);
  }
}

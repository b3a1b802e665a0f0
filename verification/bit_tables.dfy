/**
 * The three lookup tables of the bit operations, sixteen entries to a row, and the proof
 * that every entry is what the bit by bit computation gives.
 */
module BitTables {
  const BITREV_TABLE: seq<seq<bv8>> := [
    [0x00, 0x80, 0x40, 0xc0, 0x20, 0xa0, 0x60, 0xe0, 0x10, 0x90, 0x50, 0xd0, 0x30, 0xb0, 0x70, 0xf0],
    [0x08, 0x88, 0x48, 0xc8, 0x28, 0xa8, 0x68, 0xe8, 0x18, 0x98, 0x58, 0xd8, 0x38, 0xb8, 0x78, 0xf8],
    [0x04, 0x84, 0x44, 0xc4, 0x24, 0xa4, 0x64, 0xe4, 0x14, 0x94, 0x54, 0xd4, 0x34, 0xb4, 0x74, 0xf4],
    [0x0c, 0x8c, 0x4c, 0xcc, 0x2c, 0xac, 0x6c, 0xec, 0x1c, 0x9c, 0x5c, 0xdc, 0x3c, 0xbc, 0x7c, 0xfc],
    [0x02, 0x82, 0x42, 0xc2, 0x22, 0xa2, 0x62, 0xe2, 0x12, 0x92, 0x52, 0xd2, 0x32, 0xb2, 0x72, 0xf2],
    [0x0a, 0x8a, 0x4a, 0xca, 0x2a, 0xaa, 0x6a, 0xea, 0x1a, 0x9a, 0x5a, 0xda, 0x3a, 0xba, 0x7a, 0xfa],
    [0x06, 0x86, 0x46, 0xc6, 0x26, 0xa6, 0x66, 0xe6, 0x16, 0x96, 0x56, 0xd6, 0x36, 0xb6, 0x76, 0xf6],
    [0x0e, 0x8e, 0x4e, 0xce, 0x2e, 0xae, 0x6e, 0xee, 0x1e, 0x9e, 0x5e, 0xde, 0x3e, 0xbe, 0x7e, 0xfe],
    [0x01, 0x81, 0x41, 0xc1, 0x21, 0xa1, 0x61, 0xe1, 0x11, 0x91, 0x51, 0xd1, 0x31, 0xb1, 0x71, 0xf1],
    [0x09, 0x89, 0x49, 0xc9, 0x29, 0xa9, 0x69, 0xe9, 0x19, 0x99, 0x59, 0xd9, 0x39, 0xb9, 0x79, 0xf9],
    [0x05, 0x85, 0x45, 0xc5, 0x25, 0xa5, 0x65, 0xe5, 0x15, 0x95, 0x55, 0xd5, 0x35, 0xb5, 0x75, 0xf5],
    [0x0d, 0x8d, 0x4d, 0xcd, 0x2d, 0xad, 0x6d, 0xed, 0x1d, 0x9d, 0x5d, 0xdd, 0x3d, 0xbd, 0x7d, 0xfd],
    [0x03, 0x83, 0x43, 0xc3, 0x23, 0xa3, 0x63, 0xe3, 0x13, 0x93, 0x53, 0xd3, 0x33, 0xb3, 0x73, 0xf3],
    [0x0b, 0x8b, 0x4b, 0xcb, 0x2b, 0xab, 0x6b, 0xeb, 0x1b, 0x9b, 0x5b, 0xdb, 0x3b, 0xbb, 0x7b, 0xfb],
    [0x07, 0x87, 0x47, 0xc7, 0x27, 0xa7, 0x67, 0xe7, 0x17, 0x97, 0x57, 0xd7, 0x37, 0xb7, 0x77, 0xf7],
    [0x0f, 0x8f, 0x4f, 0xcf, 0x2f, 0xaf, 0x6f, 0xef, 0x1f, 0x9f, 0x5f, 0xdf, 0x3f, 0xbf, 0x7f, 0xff]
  ]

  const CRC7_TABLE: seq<seq<bv8>> := [
    [0x00, 0x12, 0x24, 0x36, 0x48, 0x5a, 0x6c, 0x7e, 0x90, 0x82, 0xb4, 0xa6, 0xd8, 0xca, 0xfc, 0xee],
    [0x32, 0x20, 0x16, 0x04, 0x7a, 0x68, 0x5e, 0x4c, 0xa2, 0xb0, 0x86, 0x94, 0xea, 0xf8, 0xce, 0xdc],
    [0x64, 0x76, 0x40, 0x52, 0x2c, 0x3e, 0x08, 0x1a, 0xf4, 0xe6, 0xd0, 0xc2, 0xbc, 0xae, 0x98, 0x8a],
    [0x56, 0x44, 0x72, 0x60, 0x1e, 0x0c, 0x3a, 0x28, 0xc6, 0xd4, 0xe2, 0xf0, 0x8e, 0x9c, 0xaa, 0xb8],
    [0xc8, 0xda, 0xec, 0xfe, 0x80, 0x92, 0xa4, 0xb6, 0x58, 0x4a, 0x7c, 0x6e, 0x10, 0x02, 0x34, 0x26],
    [0xfa, 0xe8, 0xde, 0xcc, 0xb2, 0xa0, 0x96, 0x84, 0x6a, 0x78, 0x4e, 0x5c, 0x22, 0x30, 0x06, 0x14],
    [0xac, 0xbe, 0x88, 0x9a, 0xe4, 0xf6, 0xc0, 0xd2, 0x3c, 0x2e, 0x18, 0x0a, 0x74, 0x66, 0x50, 0x42],
    [0x9e, 0x8c, 0xba, 0xa8, 0xd6, 0xc4, 0xf2, 0xe0, 0x0e, 0x1c, 0x2a, 0x38, 0x46, 0x54, 0x62, 0x70],
    [0x82, 0x90, 0xa6, 0xb4, 0xca, 0xd8, 0xee, 0xfc, 0x12, 0x00, 0x36, 0x24, 0x5a, 0x48, 0x7e, 0x6c],
    [0xb0, 0xa2, 0x94, 0x86, 0xf8, 0xea, 0xdc, 0xce, 0x20, 0x32, 0x04, 0x16, 0x68, 0x7a, 0x4c, 0x5e],
    [0xe6, 0xf4, 0xc2, 0xd0, 0xae, 0xbc, 0x8a, 0x98, 0x76, 0x64, 0x52, 0x40, 0x3e, 0x2c, 0x1a, 0x08],
    [0xd4, 0xc6, 0xf0, 0xe2, 0x9c, 0x8e, 0xb8, 0xaa, 0x44, 0x56, 0x60, 0x72, 0x0c, 0x1e, 0x28, 0x3a],
    [0x4a, 0x58, 0x6e, 0x7c, 0x02, 0x10, 0x26, 0x34, 0xda, 0xc8, 0xfe, 0xec, 0x92, 0x80, 0xb6, 0xa4],
    [0x78, 0x6a, 0x5c, 0x4e, 0x30, 0x22, 0x14, 0x06, 0xe8, 0xfa, 0xcc, 0xde, 0xa0, 0xb2, 0x84, 0x96],
    [0x2e, 0x3c, 0x0a, 0x18, 0x66, 0x74, 0x42, 0x50, 0xbe, 0xac, 0x9a, 0x88, 0xf6, 0xe4, 0xd2, 0xc0],
    [0x1c, 0x0e, 0x38, 0x2a, 0x54, 0x46, 0x70, 0x62, 0x8c, 0x9e, 0xa8, 0xba, 0xc4, 0xd6, 0xe0, 0xf2]
  ]

  const CRC16_TABLE: seq<seq<bv16>> := [
    [0x0000, 0x1021, 0x2042, 0x3063, 0x4084, 0x50a5, 0x60c6, 0x70e7,
     0x8108, 0x9129, 0xa14a, 0xb16b, 0xc18c, 0xd1ad, 0xe1ce, 0xf1ef],
    [0x1231, 0x0210, 0x3273, 0x2252, 0x52b5, 0x4294, 0x72f7, 0x62d6,
     0x9339, 0x8318, 0xb37b, 0xa35a, 0xd3bd, 0xc39c, 0xf3ff, 0xe3de],
    [0x2462, 0x3443, 0x0420, 0x1401, 0x64e6, 0x74c7, 0x44a4, 0x5485,
     0xa56a, 0xb54b, 0x8528, 0x9509, 0xe5ee, 0xf5cf, 0xc5ac, 0xd58d],
    [0x3653, 0x2672, 0x1611, 0x0630, 0x76d7, 0x66f6, 0x5695, 0x46b4,
     0xb75b, 0xa77a, 0x9719, 0x8738, 0xf7df, 0xe7fe, 0xd79d, 0xc7bc],
    [0x48c4, 0x58e5, 0x6886, 0x78a7, 0x0840, 0x1861, 0x2802, 0x3823,
     0xc9cc, 0xd9ed, 0xe98e, 0xf9af, 0x8948, 0x9969, 0xa90a, 0xb92b],
    [0x5af5, 0x4ad4, 0x7ab7, 0x6a96, 0x1a71, 0x0a50, 0x3a33, 0x2a12,
     0xdbfd, 0xcbdc, 0xfbbf, 0xeb9e, 0x9b79, 0x8b58, 0xbb3b, 0xab1a],
    [0x6ca6, 0x7c87, 0x4ce4, 0x5cc5, 0x2c22, 0x3c03, 0x0c60, 0x1c41,
     0xedae, 0xfd8f, 0xcdec, 0xddcd, 0xad2a, 0xbd0b, 0x8d68, 0x9d49],
    [0x7e97, 0x6eb6, 0x5ed5, 0x4ef4, 0x3e13, 0x2e32, 0x1e51, 0x0e70,
     0xff9f, 0xefbe, 0xdfdd, 0xcffc, 0xbf1b, 0xaf3a, 0x9f59, 0x8f78],
    [0x9188, 0x81a9, 0xb1ca, 0xa1eb, 0xd10c, 0xc12d, 0xf14e, 0xe16f,
     0x1080, 0x00a1, 0x30c2, 0x20e3, 0x5004, 0x4025, 0x7046, 0x6067],
    [0x83b9, 0x9398, 0xa3fb, 0xb3da, 0xc33d, 0xd31c, 0xe37f, 0xf35e,
     0x02b1, 0x1290, 0x22f3, 0x32d2, 0x4235, 0x5214, 0x6277, 0x7256],
    [0xb5ea, 0xa5cb, 0x95a8, 0x8589, 0xf56e, 0xe54f, 0xd52c, 0xc50d,
     0x34e2, 0x24c3, 0x14a0, 0x0481, 0x7466, 0x6447, 0x5424, 0x4405],
    [0xa7db, 0xb7fa, 0x8799, 0x97b8, 0xe75f, 0xf77e, 0xc71d, 0xd73c,
     0x26d3, 0x36f2, 0x0691, 0x16b0, 0x6657, 0x7676, 0x4615, 0x5634],
    [0xd94c, 0xc96d, 0xf90e, 0xe92f, 0x99c8, 0x89e9, 0xb98a, 0xa9ab,
     0x5844, 0x4865, 0x7806, 0x6827, 0x18c0, 0x08e1, 0x3882, 0x28a3],
    [0xcb7d, 0xdb5c, 0xeb3f, 0xfb1e, 0x8bf9, 0x9bd8, 0xabbb, 0xbb9a,
     0x4a75, 0x5a54, 0x6a37, 0x7a16, 0x0af1, 0x1ad0, 0x2ab3, 0x3a92],
    [0xfd2e, 0xed0f, 0xdd6c, 0xcd4d, 0xbdaa, 0xad8b, 0x9de8, 0x8dc9,
     0x7c26, 0x6c07, 0x5c64, 0x4c45, 0x3ca2, 0x2c83, 0x1ce0, 0x0cc1],
    [0xef1f, 0xff3e, 0xcf5d, 0xdf7c, 0xaf9b, 0xbfba, 0x8fd9, 0x9ff8,
     0x6e17, 0x7e36, 0x4e55, 0x5e74, 0x2e93, 0x3eb2, 0x0ed1, 0x1ef0]
  ]

  /** BITREV_TABLE[i]. */
  function BitrevEntry(i: bv8): bv8 {
    BitrevEntryInRange(i);
    BITREV_TABLE[(i >> 4) as int][(i & 0xf) as int]
  }

  lemma BitrevEntryInRange(i: bv8)
    ensures (i >> 4) as int < 16 == |BITREV_TABLE| && (i & 0xf) as int < 16
    ensures forall row :: 0 <= row < 16 ==> |BITREV_TABLE[row]| == 16
  {
  }

  /** CRC7_TABLE[i]. */
  function Crc7Entry(i: bv8): bv8 {
    Crc7EntryInRange(i);
    CRC7_TABLE[(i >> 4) as int][(i & 0xf) as int]
  }

  lemma Crc7EntryInRange(i: bv8)
    ensures (i >> 4) as int < 16 == |CRC7_TABLE| && (i & 0xf) as int < 16
    ensures forall row :: 0 <= row < 16 ==> |CRC7_TABLE[row]| == 16
  {
  }

  /** CRC16_TABLE[i]. */
  function Crc16Entry(i: bv8): bv16 {
    Crc16EntryInRange(i);
    CRC16_TABLE[(i >> 4) as int][(i & 0xf) as int]
  }

  lemma Crc16EntryInRange(i: bv8)
    ensures (i >> 4) as int < 16 == |CRC16_TABLE| && (i & 0xf) as int < 16
    ensures forall row :: 0 <= row < 16 ==> |CRC16_TABLE[row]| == 16
  {
  }

  /** The bits of i in the opposite order. */
  function Mirror8(i: bv8): bv8 {
    ((i & 0x01) << 7) | ((i & 0x02) << 5) | ((i & 0x04) << 3) | ((i & 0x08) << 1) |
    ((i & 0x10) >> 1) | ((i & 0x20) >> 3) | ((i & 0x40) >> 5) | ((i & 0x80) >> 7)
  }

  /** One bit of a message enters the 8 bit register of crc7; 0x12 is x^4 + x, the low part of x (x^7 + x^3 + 1). */
  function Step7(crc: bv8, bit: bool): bv8 {
    if (crc & 0x80 != 0) != bit then (crc << 1) ^ 0x12 else crc << 1
  }

  /** One bit of a message enters the register of crc16; 0x1021 is x^12 + x^5 + 1. */
  function Step16(crc: bv16, bit: bool): bv16 {
    if (crc & 0x8000 != 0) != bit then (crc << 1) ^ 0x1021 else crc << 1
  }

  /** Eight zero bits enter the register. */
  function Zeros7(c: bv8): bv8 {
    Step7(Step7(Step7(Step7(Step7(Step7(Step7(Step7(
      c, false), false), false), false), false), false), false), false)
  }

  function Zeros16(c: bv16): bv16 {
    Step16(Step16(Step16(Step16(Step16(Step16(Step16(Step16(
      c, false), false), false), false), false), false), false), false)
  }

  // The quarters of BITREV_TABLE.

  lemma BitrevQuarter0(i: bv8)
    requires i >> 6 == 0
    ensures BitrevEntry(i) == Mirror8(i)
  {
  }

  lemma BitrevQuarter1(i: bv8)
    requires i >> 6 == 1
    ensures BitrevEntry(i) == Mirror8(i)
  {
  }

  lemma BitrevQuarter2(i: bv8)
    requires i >> 6 == 2
    ensures BitrevEntry(i) == Mirror8(i)
  {
  }

  lemma BitrevQuarter3(i: bv8)
    requires i >> 6 == 3
    ensures BitrevEntry(i) == Mirror8(i)
  {
  }

  /** Every entry of BITREV_TABLE is its index with the bits in the opposite order. */
  lemma BitrevTableIsMirror(i: bv8)
    ensures BitrevEntry(i) == Mirror8(i)
  {
    hide *;
    if i >> 6 == 0 {
      BitrevQuarter0(i);
    } else if i >> 6 == 1 {
      BitrevQuarter1(i);
    } else if i >> 6 == 2 {
      BitrevQuarter2(i);
    } else {
      BitrevQuarter3(i);
    }
  }

  // CRC7_TABLE is linear over exclusive or: its entries are sums of the eight at the powers of two.

  function Chosen(i: bv8, bit: bv8, entry: bv8): bv8 {
    if i & bit != 0 then entry else 0
  }

  function Combined7(i: bv8): bv8 {
    Chosen(i, 0x01, 0x12) ^ Chosen(i, 0x02, 0x24) ^ Chosen(i, 0x04, 0x48) ^ Chosen(i, 0x08, 0x90) ^
    Chosen(i, 0x10, 0x32) ^ Chosen(i, 0x20, 0x64) ^ Chosen(i, 0x40, 0xc8) ^ Chosen(i, 0x80, 0x82)
  }

  /** Four steps, likewise. */
  function Four7(i: bv8): bv8 {
    (i << 4) ^ Chosen(i, 0x10, 0x12) ^ Chosen(i, 0x20, 0x24) ^ Chosen(i, 0x40, 0x48) ^ Chosen(i, 0x80, 0x90)
  }

  lemma FourSteps7(c: bv8)
    ensures Step7(Step7(Step7(Step7(c, false), false), false), false) == Four7(c)
  {
  }

  lemma FourTwice7(c: bv8)
    ensures Four7(Four7(c)) == Combined7(c)
  {
    if c & 0x80 != 0 {
    } else if c & 0x40 != 0 {
    }
  }

  lemma StepsCombine7(c: bv8)
    ensures Zeros7(c) == Combined7(c)
  {
    hide Step7, Four7, Combined7;
    FourSteps7(c);
    FourSteps7(Four7(c));
    FourTwice7(c);
  }

  // The quarters of CRC7_TABLE.

  lemma Crc7Quarter0(i: bv8)
    requires i >> 6 == 0
    ensures Crc7Entry(i) == Combined7(i)
  {
  }

  lemma Crc7Quarter1(i: bv8)
    requires i >> 6 == 1
    ensures Crc7Entry(i) == Combined7(i)
  {
  }

  lemma Crc7Quarter2(i: bv8)
    requires i >> 6 == 2
    ensures Crc7Entry(i) == Combined7(i)
  {
  }

  lemma Crc7Quarter3(i: bv8)
    requires i >> 6 == 3
    ensures Crc7Entry(i) == Combined7(i)
  {
  }

  /** Every entry of CRC7_TABLE is what eight steps make of its index. */
  lemma Crc7TableIsSteps(i: bv8)
    ensures Crc7Entry(i) == Zeros7(i)
  {
    hide *;
    StepsCombine7(i);
    if i >> 6 == 0 {
      Crc7Quarter0(i);
    } else if i >> 6 == 1 {
      Crc7Quarter1(i);
    } else if i >> 6 == 2 {
      Crc7Quarter2(i);
    } else {
      Crc7Quarter3(i);
    }
  }

  // The quarters of CRC16_TABLE.

  lemma Crc16Quarter0(i: bv8)
    requires i >> 6 == 0
    ensures Crc16Entry(i) == Zeros16((i as bv16) << 8)
  {
  }

  lemma Crc16Quarter1(i: bv8)
    requires i >> 6 == 1
    ensures Crc16Entry(i) == Zeros16((i as bv16) << 8)
  {
  }

  lemma Crc16Quarter2(i: bv8)
    requires i >> 6 == 2
    ensures Crc16Entry(i) == Zeros16((i as bv16) << 8)
  {
  }

  lemma Crc16Quarter3(i: bv8)
    requires i >> 6 == 3
    ensures Crc16Entry(i) == Zeros16((i as bv16) << 8)
  {
  }

  /** Every entry of CRC16_TABLE is what eight steps make of its index in the upper byte. */
  lemma Crc16TableIsSteps(i: bv8)
    ensures Crc16Entry(i) == Zeros16((i as bv16) << 8)
  {
    hide *;
    if i >> 6 == 0 {
      Crc16Quarter0(i);
    } else if i >> 6 == 1 {
      Crc16Quarter1(i);
    } else if i >> 6 == 2 {
      Crc16Quarter2(i);
    } else {
      Crc16Quarter3(i);
    }
  }
}

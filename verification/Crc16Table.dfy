/** The 256 constants of the CRC-16 table, eight to a row, and the proof that each is its index clocked
    eight times through the register of the CCITT polynomial 0x1021, most significant bit first. */
module Crc16Table {

  const ROW00: seq<bv16> := [0x0000, 0x1021, 0x2042, 0x3063, 0x4084, 0x50a5, 0x60c6, 0x70e7]
  const ROW01: seq<bv16> := [0x8108, 0x9129, 0xa14a, 0xb16b, 0xc18c, 0xd1ad, 0xe1ce, 0xf1ef]
  const ROW02: seq<bv16> := [0x1231, 0x0210, 0x3273, 0x2252, 0x52b5, 0x4294, 0x72f7, 0x62d6]
  const ROW03: seq<bv16> := [0x9339, 0x8318, 0xb37b, 0xa35a, 0xd3bd, 0xc39c, 0xf3ff, 0xe3de]
  const ROW04: seq<bv16> := [0x2462, 0x3443, 0x0420, 0x1401, 0x64e6, 0x74c7, 0x44a4, 0x5485]
  const ROW05: seq<bv16> := [0xa56a, 0xb54b, 0x8528, 0x9509, 0xe5ee, 0xf5cf, 0xc5ac, 0xd58d]
  const ROW06: seq<bv16> := [0x3653, 0x2672, 0x1611, 0x0630, 0x76d7, 0x66f6, 0x5695, 0x46b4]
  const ROW07: seq<bv16> := [0xb75b, 0xa77a, 0x9719, 0x8738, 0xf7df, 0xe7fe, 0xd79d, 0xc7bc]
  const ROW08: seq<bv16> := [0x48c4, 0x58e5, 0x6886, 0x78a7, 0x0840, 0x1861, 0x2802, 0x3823]
  const ROW09: seq<bv16> := [0xc9cc, 0xd9ed, 0xe98e, 0xf9af, 0x8948, 0x9969, 0xa90a, 0xb92b]
  const ROW10: seq<bv16> := [0x5af5, 0x4ad4, 0x7ab7, 0x6a96, 0x1a71, 0x0a50, 0x3a33, 0x2a12]
  const ROW11: seq<bv16> := [0xdbfd, 0xcbdc, 0xfbbf, 0xeb9e, 0x9b79, 0x8b58, 0xbb3b, 0xab1a]
  const ROW12: seq<bv16> := [0x6ca6, 0x7c87, 0x4ce4, 0x5cc5, 0x2c22, 0x3c03, 0x0c60, 0x1c41]
  const ROW13: seq<bv16> := [0xedae, 0xfd8f, 0xcdec, 0xddcd, 0xad2a, 0xbd0b, 0x8d68, 0x9d49]
  const ROW14: seq<bv16> := [0x7e97, 0x6eb6, 0x5ed5, 0x4ef4, 0x3e13, 0x2e32, 0x1e51, 0x0e70]
  const ROW15: seq<bv16> := [0xff9f, 0xefbe, 0xdfdd, 0xcffc, 0xbf1b, 0xaf3a, 0x9f59, 0x8f78]
  const ROW16: seq<bv16> := [0x9188, 0x81a9, 0xb1ca, 0xa1eb, 0xd10c, 0xc12d, 0xf14e, 0xe16f]
  const ROW17: seq<bv16> := [0x1080, 0x00a1, 0x30c2, 0x20e3, 0x5004, 0x4025, 0x7046, 0x6067]
  const ROW18: seq<bv16> := [0x83b9, 0x9398, 0xa3fb, 0xb3da, 0xc33d, 0xd31c, 0xe37f, 0xf35e]
  const ROW19: seq<bv16> := [0x02b1, 0x1290, 0x22f3, 0x32d2, 0x4235, 0x5214, 0x6277, 0x7256]
  const ROW20: seq<bv16> := [0xb5ea, 0xa5cb, 0x95a8, 0x8589, 0xf56e, 0xe54f, 0xd52c, 0xc50d]
  const ROW21: seq<bv16> := [0x34e2, 0x24c3, 0x14a0, 0x0481, 0x7466, 0x6447, 0x5424, 0x4405]
  const ROW22: seq<bv16> := [0xa7db, 0xb7fa, 0x8799, 0x97b8, 0xe75f, 0xf77e, 0xc71d, 0xd73c]
  const ROW23: seq<bv16> := [0x26d3, 0x36f2, 0x0691, 0x16b0, 0x6657, 0x7676, 0x4615, 0x5634]
  const ROW24: seq<bv16> := [0xd94c, 0xc96d, 0xf90e, 0xe92f, 0x99c8, 0x89e9, 0xb98a, 0xa9ab]
  const ROW25: seq<bv16> := [0x5844, 0x4865, 0x7806, 0x6827, 0x18c0, 0x08e1, 0x3882, 0x28a3]
  const ROW26: seq<bv16> := [0xcb7d, 0xdb5c, 0xeb3f, 0xfb1e, 0x8bf9, 0x9bd8, 0xabbb, 0xbb9a]
  const ROW27: seq<bv16> := [0x4a75, 0x5a54, 0x6a37, 0x7a16, 0x0af1, 0x1ad0, 0x2ab3, 0x3a92]
  const ROW28: seq<bv16> := [0xfd2e, 0xed0f, 0xdd6c, 0xcd4d, 0xbdaa, 0xad8b, 0x9de8, 0x8dc9]
  const ROW29: seq<bv16> := [0x7c26, 0x6c07, 0x5c64, 0x4c45, 0x3ca2, 0x2c83, 0x1ce0, 0x0cc1]
  const ROW30: seq<bv16> := [0xef1f, 0xff3e, 0xcf5d, 0xdf7c, 0xaf9b, 0xbfba, 0x8fd9, 0x9ff8]
  const ROW31: seq<bv16> := [0x6e17, 0x7e36, 0x4e55, 0x5e74, 0x2e93, 0x3eb2, 0x0ed1, 0x1ef0]

  function Row(r: bv16): (row: seq<bv16>)
    ensures |row| == 8
  {
    if r == 0 then ROW00 else if r == 1 then ROW01 else if r == 2 then ROW02 else if r == 3 then ROW03 else
    if r == 4 then ROW04 else if r == 5 then ROW05 else if r == 6 then ROW06 else if r == 7 then ROW07 else
    if r == 8 then ROW08 else if r == 9 then ROW09 else if r == 10 then ROW10 else if r == 11 then ROW11 else
    if r == 12 then ROW12 else if r == 13 then ROW13 else if r == 14 then ROW14 else if r == 15 then ROW15 else
    if r == 16 then ROW16 else if r == 17 then ROW17 else if r == 18 then ROW18 else if r == 19 then ROW19 else
    if r == 20 then ROW20 else if r == 21 then ROW21 else if r == 22 then ROW22 else if r == 23 then ROW23 else
    if r == 24 then ROW24 else if r == 25 then ROW25 else if r == 26 then ROW26 else if r == 27 then ROW27 else
    if r == 28 then ROW28 else if r == 29 then ROW29 else if r == 30 then ROW30 else ROW31
  }

  function Column(row: seq<bv16>, k: bv16): bv16
    requires |row| == 8
  {
    if k == 0 then row[0] else if k == 1 then row[1] else if k == 2 then row[2] else if k == 3 then row[3]
    else if k == 4 then row[4] else if k == 5 then row[5] else if k == 6 then row[6] else row[7]
  }

  /** The table, for an index below 256. */
  function Table(i: bv16): bv16 {
    Column(Row(i >> 3), i & 7)
  }

  const POLY: bv16 := 0x1021

  /** One clock of the register. */
  function Clock(c: bv16): bv16 {
    if c & 0x8000 != 0 then POLY ^ (c << 1) else c << 1
  }

  function Clock8(c: bv16): bv16 {
    Clock(Clock(Clock(Clock(Clock(Clock(Clock(Clock(c))))))))
  }

  /** The row whose indices start, in register position, at `b` holds the images of those indices under `f`. */
  predicate RowHolds(f: bv16 -> bv16, row: seq<bv16>, b: bv16) {
    && |row| == 8
    && row[0] == f(b) && row[1] == f(b ^ 0x0100) && row[2] == f(b ^ 0x0200) && row[3] == f(b ^ 0x0300)
    && row[4] == f(b ^ 0x0400) && row[5] == f(b ^ 0x0500) && row[6] == f(b ^ 0x0600) && row[7] == f(b ^ 0x0700)
  }

  /** Four consecutive rows hold the images of their indices. */
  ghost predicate FourHold(f: bv16 -> bv16, q: bv16, w: seq<bv16>, x: seq<bv16>, y: seq<bv16>, z: seq<bv16>) {
    && Row(q << 2) == w && Row((q << 2) ^ 1) == x && Row((q << 2) ^ 2) == y && Row((q << 2) ^ 3) == z
    && RowHolds(f, w, q << 13) && RowHolds(f, x, (q << 13) ^ 0x0800)
    && RowHolds(f, y, (q << 13) ^ 0x1000) && RowHolds(f, z, (q << 13) ^ 0x1800)
  }

  lemma Rows0()
    ensures FourHold(c => Clock8(c), 0, ROW00, ROW01, ROW02, ROW03)
  {}

  lemma Rows1()
    ensures FourHold(c => Clock8(c), 1, ROW04, ROW05, ROW06, ROW07)
  {}

  lemma Rows2()
    ensures FourHold(c => Clock8(c), 2, ROW08, ROW09, ROW10, ROW11)
  {}

  lemma Rows3()
    ensures FourHold(c => Clock8(c), 3, ROW12, ROW13, ROW14, ROW15)
  {}

  lemma Rows4()
    ensures FourHold(c => Clock8(c), 4, ROW16, ROW17, ROW18, ROW19)
  {}

  lemma Rows5()
    ensures FourHold(c => Clock8(c), 5, ROW20, ROW21, ROW22, ROW23)
  {}

  lemma Rows6()
    ensures FourHold(c => Clock8(c), 6, ROW24, ROW25, ROW26, ROW27)
  {}

  lemma Rows7()
    ensures FourHold(c => Clock8(c), 7, ROW28, ROW29, ROW30, ROW31)
  {}

  lemma FourRows(r: bv16, q: bv16)
    requires q < 8 && q << 2 <= r < (q << 2) + 4
    ensures (r == q << 2 && r << 11 == q << 13) || (r == (q << 2) ^ 1 && r << 11 == (q << 13) ^ 0x0800)
            || (r == (q << 2) ^ 2 && r << 11 == (q << 13) ^ 0x1000) || (r == (q << 2) ^ 3 && r << 11 == (q << 13) ^ 0x1800)
  {}

  /** One of four consecutive rows that hold. */
  lemma Pick(f: bv16 -> bv16, r: bv16, q: bv16, w: seq<bv16>, x: seq<bv16>, y: seq<bv16>, z: seq<bv16>)
    requires q < 8 && q << 2 <= r < (q << 2) + 4
    requires FourHold(f, q, w, x, y, z)
    ensures RowHolds(f, Row(r), r << 11)
  {
    hide RowHolds, Row;
    FourRows(r, q);
  }

  lemma RowsRight(r: bv16)
    requires r < 32
    ensures RowHolds(c => Clock8(c), Row(r), r << 11)
  {
    hide RowHolds, FourHold, Row;
    var f := c => Clock8(c);
    if r < 4 { Rows0(); Pick(f, r, 0, ROW00, ROW01, ROW02, ROW03); }
    else if r < 8 { Rows1(); Pick(f, r, 1, ROW04, ROW05, ROW06, ROW07); }
    else if r < 12 { Rows2(); Pick(f, r, 2, ROW08, ROW09, ROW10, ROW11); }
    else if r < 16 { Rows3(); Pick(f, r, 3, ROW12, ROW13, ROW14, ROW15); }
    else if r < 20 { Rows4(); Pick(f, r, 4, ROW16, ROW17, ROW18, ROW19); }
    else if r < 24 { Rows5(); Pick(f, r, 5, ROW20, ROW21, ROW22, ROW23); }
    else if r < 28 { Rows6(); Pick(f, r, 6, ROW24, ROW25, ROW26, ROW27); }
    else { Rows7(); Pick(f, r, 7, ROW28, ROW29, ROW30, ROW31); }
  }

  predicate ColumnAt(k: bv16, b: bv16, x: bv16) {
    && (k == 0 ==> x == b) && (k == 1 ==> x == b ^ 0x0100) && (k == 2 ==> x == b ^ 0x0200) && (k == 3 ==> x == b ^ 0x0300)
    && (k == 4 ==> x == b ^ 0x0400) && (k == 5 ==> x == b ^ 0x0500) && (k == 6 ==> x == b ^ 0x0600) && (k == 7 ==> x == b ^ 0x0700)
  }

  lemma ColumnHolds(f: bv16 -> bv16, row: seq<bv16>, k: bv16, b: bv16, x: bv16)
    requires RowHolds(f, row, b) && k < 8 && ColumnAt(k, b, x)
    ensures Column(row, k) == f(x)
  {
    if k == 0 {} else if k == 1 {} else if k == 2 {} else if k == 3 {} else if k == 4 {} else if k == 5 {} else if k == 6 {} else {}
  }

  lemma SplitIndex(i: bv16)
    requires i < 256
    ensures i >> 3 < 32 && i & 7 < 8 && ColumnAt(i & 7, (i >> 3) << 11, i << 8)
  {}

  /** Every constant of the table is its index clocked eight times from the register's high byte. */
  lemma TableRight(i: bv16)
    requires i < 256
    ensures Table(i) == Clock8(i << 8)
  {
    SplitIndex(i);
    RowsRight(i >> 3);
    ColumnHolds(c => Clock8(c), Row(i >> 3), i & 7, (i >> 3) << 11, i << 8);
  }
}

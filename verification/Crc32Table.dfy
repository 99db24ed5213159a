/**
  The table of crc32 (apps/crc32.c), and what its entries are.
 */
module Crc32Table {

  /** The polynomial, with its coefficients reversed. */
  const POLYNOMIAL: bv32 := 0xedb88320

  /** The register after one message bit: bits enter at the low end. */
  function Shift(crc: bv32, bit: bool): bv32 {
    if (crc & 1 == 1) != bit then (crc >> 1) ^ POLYNOMIAL else crc >> 1
  }

  /** The register after n zero bits. */
  function Zeros(n: nat, crc: bv32): bv32 {
    if n == 0 then crc else Zeros(n - 1, Shift(crc, false))
  }

  const ROW_0: seq<bv32> := [
    0x00000000, 0x77073096, 0xee0e612c, 0x990951ba, 0x076dc419, 0x706af48f, 0xe963a535, 0x9e6495a3,
    0x0edb8832, 0x79dcb8a4, 0xe0d5e91e, 0x97d2d988, 0x09b64c2b, 0x7eb17cbd, 0xe7b82d07, 0x90bf1d91]
  const ROW_1: seq<bv32> := [
    0x1db71064, 0x6ab020f2, 0xf3b97148, 0x84be41de, 0x1adad47d, 0x6ddde4eb, 0xf4d4b551, 0x83d385c7,
    0x136c9856, 0x646ba8c0, 0xfd62f97a, 0x8a65c9ec, 0x14015c4f, 0x63066cd9, 0xfa0f3d63, 0x8d080df5]
  const ROW_2: seq<bv32> := [
    0x3b6e20c8, 0x4c69105e, 0xd56041e4, 0xa2677172, 0x3c03e4d1, 0x4b04d447, 0xd20d85fd, 0xa50ab56b,
    0x35b5a8fa, 0x42b2986c, 0xdbbbc9d6, 0xacbcf940, 0x32d86ce3, 0x45df5c75, 0xdcd60dcf, 0xabd13d59]
  const ROW_3: seq<bv32> := [
    0x26d930ac, 0x51de003a, 0xc8d75180, 0xbfd06116, 0x21b4f4b5, 0x56b3c423, 0xcfba9599, 0xb8bda50f,
    0x2802b89e, 0x5f058808, 0xc60cd9b2, 0xb10be924, 0x2f6f7c87, 0x58684c11, 0xc1611dab, 0xb6662d3d]
  const ROW_4: seq<bv32> := [
    0x76dc4190, 0x01db7106, 0x98d220bc, 0xefd5102a, 0x71b18589, 0x06b6b51f, 0x9fbfe4a5, 0xe8b8d433,
    0x7807c9a2, 0x0f00f934, 0x9609a88e, 0xe10e9818, 0x7f6a0dbb, 0x086d3d2d, 0x91646c97, 0xe6635c01]
  const ROW_5: seq<bv32> := [
    0x6b6b51f4, 0x1c6c6162, 0x856530d8, 0xf262004e, 0x6c0695ed, 0x1b01a57b, 0x8208f4c1, 0xf50fc457,
    0x65b0d9c6, 0x12b7e950, 0x8bbeb8ea, 0xfcb9887c, 0x62dd1ddf, 0x15da2d49, 0x8cd37cf3, 0xfbd44c65]
  const ROW_6: seq<bv32> := [
    0x4db26158, 0x3ab551ce, 0xa3bc0074, 0xd4bb30e2, 0x4adfa541, 0x3dd895d7, 0xa4d1c46d, 0xd3d6f4fb,
    0x4369e96a, 0x346ed9fc, 0xad678846, 0xda60b8d0, 0x44042d73, 0x33031de5, 0xaa0a4c5f, 0xdd0d7cc9]
  const ROW_7: seq<bv32> := [
    0x5005713c, 0x270241aa, 0xbe0b1010, 0xc90c2086, 0x5768b525, 0x206f85b3, 0xb966d409, 0xce61e49f,
    0x5edef90e, 0x29d9c998, 0xb0d09822, 0xc7d7a8b4, 0x59b33d17, 0x2eb40d81, 0xb7bd5c3b, 0xc0ba6cad]
  const ROW_8: seq<bv32> := [
    0xedb88320, 0x9abfb3b6, 0x03b6e20c, 0x74b1d29a, 0xead54739, 0x9dd277af, 0x04db2615, 0x73dc1683,
    0xe3630b12, 0x94643b84, 0x0d6d6a3e, 0x7a6a5aa8, 0xe40ecf0b, 0x9309ff9d, 0x0a00ae27, 0x7d079eb1]
  const ROW_9: seq<bv32> := [
    0xf00f9344, 0x8708a3d2, 0x1e01f268, 0x6906c2fe, 0xf762575d, 0x806567cb, 0x196c3671, 0x6e6b06e7,
    0xfed41b76, 0x89d32be0, 0x10da7a5a, 0x67dd4acc, 0xf9b9df6f, 0x8ebeeff9, 0x17b7be43, 0x60b08ed5]
  const ROW_10: seq<bv32> := [
    0xd6d6a3e8, 0xa1d1937e, 0x38d8c2c4, 0x4fdff252, 0xd1bb67f1, 0xa6bc5767, 0x3fb506dd, 0x48b2364b,
    0xd80d2bda, 0xaf0a1b4c, 0x36034af6, 0x41047a60, 0xdf60efc3, 0xa867df55, 0x316e8eef, 0x4669be79]
  const ROW_11: seq<bv32> := [
    0xcb61b38c, 0xbc66831a, 0x256fd2a0, 0x5268e236, 0xcc0c7795, 0xbb0b4703, 0x220216b9, 0x5505262f,
    0xc5ba3bbe, 0xb2bd0b28, 0x2bb45a92, 0x5cb36a04, 0xc2d7ffa7, 0xb5d0cf31, 0x2cd99e8b, 0x5bdeae1d]
  const ROW_12: seq<bv32> := [
    0x9b64c2b0, 0xec63f226, 0x756aa39c, 0x026d930a, 0x9c0906a9, 0xeb0e363f, 0x72076785, 0x05005713,
    0x95bf4a82, 0xe2b87a14, 0x7bb12bae, 0x0cb61b38, 0x92d28e9b, 0xe5d5be0d, 0x7cdcefb7, 0x0bdbdf21]
  const ROW_13: seq<bv32> := [
    0x86d3d2d4, 0xf1d4e242, 0x68ddb3f8, 0x1fda836e, 0x81be16cd, 0xf6b9265b, 0x6fb077e1, 0x18b74777,
    0x88085ae6, 0xff0f6a70, 0x66063bca, 0x11010b5c, 0x8f659eff, 0xf862ae69, 0x616bffd3, 0x166ccf45]
  const ROW_14: seq<bv32> := [
    0xa00ae278, 0xd70dd2ee, 0x4e048354, 0x3903b3c2, 0xa7672661, 0xd06016f7, 0x4969474d, 0x3e6e77db,
    0xaed16a4a, 0xd9d65adc, 0x40df0b66, 0x37d83bf0, 0xa9bcae53, 0xdebb9ec5, 0x47b2cf7f, 0x30b5ffe9]
  const ROW_15: seq<bv32> := [
    0xbdbdf21c, 0xcabac28a, 0x53b39330, 0x24b4a3a6, 0xbad03605, 0xcdd70693, 0x54de5729, 0x23d967bf,
    0xb3667a2e, 0xc4614ab8, 0x5d681b02, 0x2a6f2b94, 0xb40bbe37, 0xc30c8ea1, 0x5a05df1b, 0x2d02ef8d]

  /** `crctab`, in rows of sixteen. */
  const CRC_TABLE: seq<seq<bv32>> := [
    ROW_0, ROW_1, ROW_2, ROW_3, ROW_4, ROW_5, ROW_6, ROW_7,
    ROW_8, ROW_9, ROW_10, ROW_11, ROW_12, ROW_13, ROW_14, ROW_15]

  function Entry(ind: bv32): bv32
    requires ind <= 0xff
  {
    CRC_TABLE[ind >> 4][ind & 15]
  }

  function Sixteen<T>(f: bv32 -> T): (s: seq<T>)
    ensures |s| == 16
  {
    [f(0), f(1), f(2), f(3), f(4), f(5), f(6), f(7), f(8), f(9), f(10), f(11), f(12), f(13), f(14), f(15)]
  }

  lemma SixteenAt<T>(f: bv32 -> T, k: bv32)
    requires k <= 15
    ensures Sixteen(f)[k] == f(k)
  {
    if k == 0 {
    } else if k == 1 {
    } else if k == 2 {
    } else if k == 3 {
    } else if k == 4 {
    } else if k == 5 {
    } else if k == 6 {
    } else if k == 7 {
    } else if k == 8 {
    } else if k == 9 {
    } else if k == 10 {
    } else if k == 11 {
    } else if k == 12 {
    } else if k == 13 {
    } else if k == 14 {
    }
  }

  /** The registers after eight zero bits, from base on. */
  function ZerosFrom(base: bv32): bv32 -> bv32 {
    (d: bv32) => Zeros(8, base + d)
  }

  /** What row r should hold. */
  function RowOf(r: bv32): seq<bv32> {
    Sixteen(ZerosFrom(r << 4))
  }

  /** The same in a form that can be evaluated. */
  function Block(base: bv32): seq<bv32> {
    [Zeros(8, base), Zeros(8, base + 1), Zeros(8, base + 2), Zeros(8, base + 3),
     Zeros(8, base + 4), Zeros(8, base + 5), Zeros(8, base + 6), Zeros(8, base + 7),
     Zeros(8, base + 8), Zeros(8, base + 9), Zeros(8, base + 10), Zeros(8, base + 11),
     Zeros(8, base + 12), Zeros(8, base + 13), Zeros(8, base + 14), Zeros(8, base + 15)]
  }

  lemma Rows0And1()
    ensures ROW_0 == Sixteen(ZerosFrom(0x00)) && ROW_1 == Sixteen(ZerosFrom(0x10))
  {
    assert ROW_0 == Block(0x00) && ROW_1 == Block(0x10);
  }

  lemma Rows2And3()
    ensures ROW_2 == Sixteen(ZerosFrom(0x20)) && ROW_3 == Sixteen(ZerosFrom(0x30))
  {
    assert ROW_2 == Block(0x20) && ROW_3 == Block(0x30);
  }

  lemma Rows4And5()
    ensures ROW_4 == Sixteen(ZerosFrom(0x40)) && ROW_5 == Sixteen(ZerosFrom(0x50))
  {
    assert ROW_4 == Block(0x40) && ROW_5 == Block(0x50);
  }

  lemma Rows6And7()
    ensures ROW_6 == Sixteen(ZerosFrom(0x60)) && ROW_7 == Sixteen(ZerosFrom(0x70))
  {
    assert ROW_6 == Block(0x60) && ROW_7 == Block(0x70);
  }

  lemma Rows8And9()
    ensures ROW_8 == Sixteen(ZerosFrom(0x80)) && ROW_9 == Sixteen(ZerosFrom(0x90))
  {
    assert ROW_8 == Block(0x80) && ROW_9 == Block(0x90);
  }

  lemma Rows10And11()
    ensures ROW_10 == Sixteen(ZerosFrom(0xa0)) && ROW_11 == Sixteen(ZerosFrom(0xb0))
  {
    assert ROW_10 == Block(0xa0) && ROW_11 == Block(0xb0);
  }

  lemma Rows12And13()
    ensures ROW_12 == Sixteen(ZerosFrom(0xc0)) && ROW_13 == Sixteen(ZerosFrom(0xd0))
  {
    assert ROW_12 == Block(0xc0) && ROW_13 == Block(0xd0);
  }

  lemma Rows14And15()
    ensures ROW_14 == Sixteen(ZerosFrom(0xe0)) && ROW_15 == Sixteen(ZerosFrom(0xf0))
  {
    assert ROW_14 == Block(0xe0) && ROW_15 == Block(0xf0);
  }

  lemma TableOfRows()
    ensures CRC_TABLE == Sixteen(RowOf)
  {
    Rows0And1();
    Rows2And3();
    Rows4And5();
    Rows6And7();
    Rows8And9();
    Rows10And11();
    Rows12And13();
    Rows14And15();
  }

  lemma TwoDigits(ind: bv32)
    requires ind <= 0xff
    ensures ind == ((ind >> 4) << 4) + (ind & 15) && ind >> 4 <= 15 && ind & 15 <= 15
  {
  }

  lemma EntryOfRow(ind: bv32)
    requires ind <= 0xff
    ensures ind & 15 <= 15 && Entry(ind) == RowOf(ind >> 4)[ind & 15]
  {
    TwoDigits(ind);
    TableOfRows();
    SixteenAt(RowOf, ind >> 4);
  }

  /** The table holds the register after eight zero bits. */
  lemma TableIsRight(ind: bv32)
    requires ind <= 0xff
    ensures Entry(ind) == Zeros(8, ind)
  {
    EntryOfRow(ind);
    TwoDigits(ind);
    SixteenAt(ZerosFrom((ind >> 4) << 4), ind & 15);
  }
}

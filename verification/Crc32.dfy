/**
  crc32 (apps/crc32.c): the checksum of a file, a byte at a time with a table, and the
  bit-at-a-time definition that it computes (section 8 of RFC 1952).
 */
module Crc32 {

  import SR = ShiftRegister
  import opened Crc32Table

  // ------------------------------------------------------------------ bit at a time

  /** The register after the n low bits of b, the least significant first. */
  function Bits(n: nat, crc: bv32, b: bv8): bv32 {
    if n == 0 then crc else Bits(n - 1, Shift(crc, b & 1 == 1), b >> 1)
  }

  function Bytes(data: seq<bv8>, crc: bv32): bv32 {
    if data == [] then crc else Bytes(data[1..], Bits(8, crc, data[0]))
  }

  /** The checksum of section 8 of RFC 1952. */
  function Crc(data: seq<bv8>): bv32 {
    Bytes(data, 0xffffffff) ^ 0xffffffff
  }

  // ----------------------------------------------------------- facts about single words

  function Xor(x: bv32, y: bv32): bv32 {
    x ^ y
  }

  function Half(x: bv32): bv32 {
    x >> 1
  }

  predicate Odd(x: bv32) {
    x & 1 == 1
  }

  function Up(x: bv32): bv32 {
    x << 8
  }

  function Widen(b: bv8): bv32 {
    b as bv32
  }

  /** Words of 32 bits, and messages of bytes. */
  const WORDS: SR.Kit<bv32, bv8> := SR.Kit(Xor, 0, Half, Odd, Up, Shift, Widen, 8)

  lemma XorOdd(x: bv32, y: bv32)
    ensures Odd(x ^ y) <==> (Odd(x) != Odd(y))
  {
  }

  lemma XorHalf(x: bv32, y: bv32)
    ensures (x ^ y) >> 1 == (x >> 1) ^ (y >> 1)
  {
  }

  lemma XorSwap(x: bv32, y: bv32, z: bv32)
    ensures (x ^ y) ^ z == (x ^ z) ^ y
  {
  }

  lemma ShiftWord(x: bv32, w: bv32)
    ensures Shift(x ^ w, false) == Shift(x, Odd(w)) ^ (w >> 1)
  {
    XorOdd(x, w);
    XorHalf(x, w);
    if Odd(x) != Odd(w) {
      assert Shift(x ^ w, false) == ((x >> 1) ^ (w >> 1)) ^ POLYNOMIAL;
      XorSwap(x >> 1, w >> 1, POLYNOMIAL);
      assert Shift(x, Odd(w)) == (x >> 1) ^ POLYNOMIAL;
    } else {
      assert Shift(x, Odd(w)) == x >> 1;
    }
  }

  /** The shift, undone: the bit that entered at the top tells which bit left. */
  function Unshift(x: bv32): bv32 {
    if x & 0x80000000 != 0 then ((x ^ POLYNOMIAL) << 1) | 1 else x << 1
  }

  lemma ShiftUndone(x: bv32)
    ensures Unshift(Shift(x, false)) == x
  {
  }

  lemma ShiftInjective(x: bv32, y: bv32)
    ensures Shift(x, false) == Shift(y, false) ==> x == y
  {
    ShiftUndone(x);
    ShiftUndone(y);
  }

  lemma XorInjective(c: bv32, x: bv32, y: bv32)
    ensures c ^ x == c ^ y ==> x == y
    ensures x ^ c == y ^ c ==> x == y
  {
  }

  lemma XorAssoc(x: bv32, y: bv32, z: bv32)
    ensures (x ^ y) ^ z == x ^ (y ^ z)
  {
  }

  lemma DropNext(x: bv32, n: nat)
    ensures SR.Drop(WORDS, x, n + 1) == SR.Drop(WORDS, Half(x), n)
  {
  }

  lemma DropFour(x: bv32, n: nat)
    ensures SR.Drop(WORDS, x, n + 4) == SR.Drop(WORDS, x >> 4, n)
  {
    var x1 := Half(x);
    var x2 := Half(x1);
    var x3 := Half(x2);
    DropNext(x, n + 3);
    DropNext(x1, n + 2);
    DropNext(x2, n + 1);
    DropNext(x3, n);
    FourShifts(x);
  }

  lemma FourShifts(x: bv32)
    ensures Half(Half(Half(Half(x)))) == x >> 4
  {
  }

  lemma TwoShifts(x: bv32)
    ensures (x >> 4) >> 4 == x >> 8
  {
  }

  lemma DropByte(x: bv32)
    ensures SR.Drop(WORDS, x, 8) == x >> 8
  {
    DropFour(x, 4);
    DropFour(x >> 4, 0);
    TwoShifts(x);
  }

  lemma ClearByte(x: bv32)
    requires x & 0xff == 0
    ensures SR.LowClear(WORDS, x, 8)
  {
    var x1 := Half(x);
    var x2 := Half(x1);
    var x3 := Half(x2);
    var x4 := Half(x3);
    var x5 := Half(x4);
    var x6 := Half(x5);
    var x7 := Half(x6);
    EvenBits(x);
    ClearNext(x7, 0);
    ClearNext(x6, 1);
    ClearNext(x5, 2);
    ClearNext(x4, 3);
    ClearNext(x3, 4);
    ClearNext(x2, 5);
    ClearNext(x1, 6);
    ClearNext(x, 7);
  }

  lemma EvenBits(x: bv32)
    requires x & 0xff == 0
    ensures !Odd(x) && !Odd(Half(x)) && !Odd(Half(Half(x))) && !Odd(Half(Half(Half(x))))
    ensures var z := Half(Half(Half(Half(x))));
            !Odd(z) && !Odd(Half(z)) && !Odd(Half(Half(z))) && !Odd(Half(Half(Half(z))))
  {
  }

  lemma ClearNext(x: bv32, n: nat)
    requires !Odd(x) && SR.LowClear(WORDS, Half(x), n)
    ensures SR.LowClear(WORDS, x, n + 1)
  {
  }

  lemma LinearWords()
    ensures SR.Linear(WORDS)
  {
    forall x, w
      ensures WORDS.shift(WORDS.plus(x, w), false) == WORDS.plus(WORDS.shift(x, WORDS.odd(w)), WORDS.half(w))
    {
      ShiftWord(x, w);
    }
  }

  lemma NeutralWords()
    ensures SR.Neutral(WORDS)
  {
  }

  lemma NarrowBytes()
    ensures SR.Narrow(WORDS)
  {
    forall b ensures SR.Drop(WORDS, WORDS.widen(b), WORDS.size) == WORDS.zero {
      DropByte(b as bv32);
      assert (b as bv32) >> 8 == 0;
    }
  }

  lemma AssociativeWords()
    ensures SR.Associative(WORDS)
  {
    forall x, y, z ensures WORDS.plus(WORDS.plus(x, y), z) == WORDS.plus(x, WORDS.plus(y, z)) {
      XorAssoc(x, y, z);
    }
  }

  lemma FaithfulWords()
    ensures SR.Faithful(WORDS)
  {
    forall x, y ensures WORDS.shift(x, false) == WORDS.shift(y, false) ==> x == y {
      ShiftInjective(x, y);
    }
    forall c, x, y ensures WORDS.plus(c, x) == WORDS.plus(c, y) ==> x == y {
      XorInjective(c, x, y);
    }
    forall c, x, y ensures WORDS.plus(x, c) == WORDS.plus(y, c) ==> x == y {
      XorInjective(c, x, y);
    }
  }

  lemma XorComm(x: bv32, y: bv32)
    ensures x ^ y == y ^ x
  {
  }

  // ------------------------------------------------- the same register, seen three ways

  lemma {:induction false} ZerosAgree(n: nat, crc: bv32)
    ensures Zeros(n, crc) == SR.Zeros(WORDS, crc, n)
  {
    if n > 0 {
      ZerosAgree(n - 1, Shift(crc, false));
    }
  }

  lemma WidenHalf(b: bv8)
    ensures Widen(b >> 1) == Half(Widen(b)) && (b & 1 == 1 <==> Odd(Widen(b)))
  {
  }

  lemma {:induction false} BitsAgree(n: nat, crc: bv32, b: bv8)
    ensures Bits(n, crc, b) == SR.Bits(WORDS, crc, Widen(b), n)
  {
    if n > 0 {
      WidenHalf(b);
      BitsAgree(n - 1, Shift(crc, b & 1 == 1), b >> 1);
    }
  }

  lemma {:induction false} BytesAgree(data: seq<bv8>, crc: bv32)
    ensures Bytes(data, crc) == SR.Message(WORDS, crc, data)
  {
    if data != [] {
      BitsAgree(8, crc, data[0]);
      BytesAgree(data[1..], Bits(8, crc, data[0]));
    }
  }

  // ------------------------------------------------------------------------- the loop

  /** A byte enters the register at once. */
  lemma ByteAtOnce(crc: bv32, b: bv8)
    ensures Bits(8, crc, b) == SR.Zeros(WORDS, crc ^ Widen(b), 8)
  {
    BitsAgree(8, crc, b);
    LinearWords();
    NeutralWords();
    NarrowBytes();
    SR.BitsAtOnce(WORDS, crc, Widen(b), 8);
  }

  lemma HighBytes(x: bv32, y: bv32)
    requires y & 0xff == 0
    ensures SR.Zeros(WORDS, x ^ y, 8) == SR.Zeros(WORDS, x, 8) ^ (y >> 8)
  {
    LinearWords();
    ClearByte(y);
    DropByte(y);
    SR.ZerosOfHigh(WORDS, x, y, 8);
  }

  /** A `char` that is promoted to an unsigned int. */
  function SignExtend(b: bv8): bv32 {
    if b & 0x80 == 0 then b as bv32 else 0xffffff00 | b as bv32
  }

  lemma LowByte(crc: bv32, b: bv8)
    ensures (crc ^ SignExtend(b)) & 0xff == (crc ^ Widen(b)) & 0xff
    ensures (crc ^ Widen(b)) >> 8 == crc >> 8
  {
  }

  lemma SplitByte(x: bv32)
    ensures x == (x & 0xff) ^ (x & 0xffffff00)
    ensures (x & 0xffffff00) & 0xff == 0 && (x & 0xffffff00) >> 8 == x >> 8 && x & 0xff <= 0xff
  {
  }

  lemma SplitStep(x: bv32, low: bv32, high: bv32)
    requires x == low ^ high && high & 0xff == 0
    ensures SR.Zeros(WORDS, x, 8) == SR.Zeros(WORDS, low, 8) ^ (high >> 8)
  {
    HighBytes(low, high);
  }

  /** A step of the loop takes the eight bits of a byte. */
  lemma StepIsByte(crc: bv32, b: bv8, ind: bv32, entry: bv32)
    requires ind == (crc ^ SignExtend(b)) & 0xff && entry == SR.Zeros(WORDS, ind, 8)
    ensures (crc >> 8) ^ entry == Bits(8, crc, b)
  {
    var x := crc ^ Widen(b);
    LowByte(crc, b);
    SplitByte(x);
    ByteAtOnce(crc, b);
    SplitStep(x, ind, x & 0xffffff00);
    XorComm(entry, crc >> 8);
  }

  lemma TableAgrees(ind: bv32)
    requires ind <= 0xff
    ensures Entry(ind) == SR.Zeros(WORDS, ind, 8)
  {
    TableIsRight(ind);
    ZerosAgree(8, ind);
  }

  lemma BytesNext(data: seq<bv8>, crc: bv32, i: nat)
    requires i < |data|
    ensures Bytes(data[..i + 1], crc) == Bits(8, Bytes(data[..i], crc), data[i])
  {
    BytesAgree(data[..i + 1], crc);
    BytesAgree(data[..i], crc);
    SR.MessageNext(WORDS, crc, data, i);
    BitsAgree(8, Bytes(data[..i], crc), data[i]);
  }

  lemma BytesAppend(a: seq<bv8>, b: seq<bv8>, crc: bv32)
    ensures Bytes(a + b, crc) == Bytes(b, Bytes(a, crc))
  {
    BytesAgree(a + b, crc);
    BytesAgree(a, crc);
    BytesAgree(b, Bytes(a, crc));
    SR.MessageAppend(WORDS, crc, a, b);
  }

  method Step(crc: bv32, b: bv8) returns (next: bv32)
    ensures next == Bits(8, crc, b)
  {
    var ind := (crc ^ SignExtend(b)) & 0xff;
    LowIsSmall(crc ^ SignExtend(b));
    var entry := Entry(ind);
    TableAgrees(ind);
    StepIsByte(crc, b, ind, entry);
    next := (crc >> 8) ^ entry;
  }

  lemma LowIsSmall(x: bv32)
    ensures x & 0xff <= 0xff
  {
  }

  /** The bytes of one buffer (apps/crc32.c:80-83). */
  method Update(crc: bv32, buf: seq<bv8>) returns (crc32: bv32)
    ensures crc32 == Bytes(buf, crc)
  {
    crc32 := crc;
    var i := 0;
    while i < |buf|
      invariant 0 <= i <= |buf| && crc32 == Bytes(buf[..i], crc)
    {
      BytesNext(buf, crc, i);
      crc32 := Step(crc32, buf[i]);
      i := i + 1;
    }
    assert buf[..i] == buf;
  }

  /** A file, as the chunks in which it was read. */
  function File(chunks: seq<seq<bv8>>): seq<bv8> {
    if chunks == [] then [] else File(chunks[..|chunks| - 1]) + chunks[|chunks| - 1]
  }

  /** The whole file (apps/crc32.c:73-85), however the reads divide it. */
  method Checksum(chunks: seq<seq<bv8>>) returns (crc32: bv32)
    ensures crc32 == Crc(File(chunks))
  {
    crc32 := 0xffffffff;
    var n := 0;
    while n < |chunks|
      invariant 0 <= n <= |chunks| && crc32 == Bytes(File(chunks[..n]), 0xffffffff)
    {
      assert chunks[..n + 1][..n] == chunks[..n];
      BytesAppend(File(chunks[..n]), chunks[n], 0xffffffff);
      crc32 := Update(crc32, chunks[n]);
      n := n + 1;
    }
    assert chunks[..n] == chunks;
    crc32 := crc32 ^ 0xffffffff;
  }

  // ------------------------------------------------------------------- the check value

  /** Two bits of a byte. */
  lemma TwoBits(n: nat, crc: bv32, b: bv8)
    ensures Bits(n + 2, crc, b) == Bits(n, Shift(Shift(crc, b & 1 == 1), (b >> 1) & 1 == 1), b >> 1 >> 1)
  {
    assert Bits(n + 2, crc, b) == Bits(n + 1, Shift(crc, b & 1 == 1), b >> 1);
  }

  /** The register after a whole byte, bit by bit. */
  function ByteBits(crc: bv32, b: bv8): bv32 {
    var x2 := Shift(Shift(crc, b & 1 == 1), (b >> 1) & 1 == 1);
    var x4 := Shift(Shift(x2, (b >> 2) & 1 == 1), (b >> 3) & 1 == 1);
    var x6 := Shift(Shift(x4, (b >> 4) & 1 == 1), (b >> 5) & 1 == 1);
    Shift(Shift(x6, (b >> 6) & 1 == 1), (b >> 7) & 1 == 1)
  }

  lemma ByteIsBits(crc: bv32, b: bv8)
    ensures Bits(8, crc, b) == ByteBits(crc, b)
  {
    var b2, b4, b6 := b >> 1 >> 1, b >> 1 >> 1 >> 1 >> 1, b >> 1 >> 1 >> 1 >> 1 >> 1 >> 1;
    var x2 := Shift(Shift(crc, b & 1 == 1), (b >> 1) & 1 == 1);
    var x4 := Shift(Shift(x2, b2 & 1 == 1), (b2 >> 1) & 1 == 1);
    var x6 := Shift(Shift(x4, b4 & 1 == 1), (b4 >> 1) & 1 == 1);
    TwoBits(6, crc, b);
    TwoBits(4, x2, b2);
    TwoBits(2, x4, b4);
    TwoBits(0, x6, b6);
    ByteShifts(b);
  }

  lemma ByteShifts(b: bv8)
    ensures b >> 1 >> 1 == b >> 2 && b >> 1 >> 1 >> 1 == b >> 3 && b >> 1 >> 1 >> 1 >> 1 == b >> 4
    ensures b >> 4 >> 1 == b >> 5 && b >> 4 >> 1 >> 1 == b >> 6 && b >> 6 >> 1 == b >> 7
  {
  }

  /** The message "123456789". */
  const CHECK: seq<bv8> := [0x31, 0x32, 0x33, 0x34, 0x35, 0x36, 0x37, 0x38, 0x39]

  lemma CheckStep(i: nat, crc: bv32, b: bv8, next: bv32)
    requires i < |CHECK| && CHECK[i] == b && Bytes(CHECK[..i], 0xffffffff) == crc && ByteBits(crc, b) == next
    ensures Bytes(CHECK[..i + 1], 0xffffffff) == next
  {
    BytesNext(CHECK, 0xffffffff, i);
    ByteIsBits(crc, b);
  }

  lemma CheckByte1()
    requires Bytes(CHECK[..0], 0xffffffff) == 0xffffffff
    ensures Bytes(CHECK[..1], 0xffffffff) == 0x7c231048
  {
    assert ByteBits(0xffffffff, 0x31) == 0x7c231048;
    CheckStep(0, 0xffffffff, 0x31, 0x7c231048);
  }

  lemma CheckByte2()
    requires Bytes(CHECK[..1], 0xffffffff) == 0x7c231048
    ensures Bytes(CHECK[..2], 0xffffffff) == 0xb0acbb32
  {
    assert ByteBits(0x7c231048, 0x32) == 0xb0acbb32;
    CheckStep(1, 0x7c231048, 0x32, 0xb0acbb32);
  }

  lemma CheckByte3()
    requires Bytes(CHECK[..2], 0xffffffff) == 0xb0acbb32
    ensures Bytes(CHECK[..3], 0xffffffff) == 0x77b79c2d
  {
    assert ByteBits(0xb0acbb32, 0x33) == 0x77b79c2d;
    CheckStep(2, 0xb0acbb32, 0x33, 0x77b79c2d);
  }

  lemma CheckByte4()
    requires Bytes(CHECK[..3], 0xffffffff) == 0x77b79c2d
    ensures Bytes(CHECK[..4], 0xffffffff) == 0x641c1f5c
  {
    assert ByteBits(0x77b79c2d, 0x34) == 0x641c1f5c;
    CheckStep(3, 0x77b79c2d, 0x34, 0x641c1f5c);
  }

  lemma CheckByte5()
    requires Bytes(CHECK[..4], 0xffffffff) == 0x641c1f5c
    ensures Bytes(CHECK[..5], 0xffffffff) == 0x340ac5e3
  {
    assert ByteBits(0x641c1f5c, 0x35) == 0x340ac5e3;
    CheckStep(4, 0x641c1f5c, 0x35, 0x340ac5e3);
  }

  lemma CheckByte6()
    requires Bytes(CHECK[..5], 0xffffffff) == 0x340ac5e3
    ensures Bytes(CHECK[..6], 0xffffffff) == 0xf68d2c9e
  {
    assert ByteBits(0x340ac5e3, 0x36) == 0xf68d2c9e;
    CheckStep(5, 0x340ac5e3, 0x36, 0xf68d2c9e);
  }

  lemma CheckByte7()
    requires Bytes(CHECK[..6], 0xffffffff) == 0xf68d2c9e
    ensures Bytes(CHECK[..7], 0xffffffff) == 0xaffc9660
  {
    assert ByteBits(0xf68d2c9e, 0x37) == 0xaffc9660;
    CheckStep(6, 0xf68d2c9e, 0x37, 0xaffc9660);
  }

  lemma CheckByte8()
    requires Bytes(CHECK[..7], 0xffffffff) == 0xaffc9660
    ensures Bytes(CHECK[..8], 0xffffffff) == 0x651f2550
  {
    assert ByteBits(0xaffc9660, 0x38) == 0x651f2550;
    CheckStep(7, 0xaffc9660, 0x38, 0x651f2550);
  }

  lemma CheckByte9()
    requires Bytes(CHECK[..8], 0xffffffff) == 0x651f2550
    ensures Bytes(CHECK[..9], 0xffffffff) == 0x340bc6d9
  {
    assert ByteBits(0x651f2550, 0x39) == 0x340bc6d9;
    CheckStep(8, 0x651f2550, 0x39, 0x340bc6d9);
  }

  /** The check value by which this checksum is known. */
  lemma CheckValue()
    ensures Crc(CHECK) == 0xcbf43926
  {
    assert CHECK[..0] == [] && CHECK[..9] == CHECK;
    CheckByte1();
    CheckByte2();
    CheckByte3();
    CheckByte4();
    CheckByte5();
    CheckByte6();
    CheckByte7();
    CheckByte8();
    CheckByte9();
  }

  // -------------------------------------------------------------------------- integrity

  /** w has at most j bytes. */
  predicate Fits(j: nat, w: bv32) {
    match j
    case 0 => w == 0
    case 1 => w & 0xffffff00 == 0
    case 2 => w & 0xffff0000 == 0
    case 3 => w & 0xff000000 == 0
    case _ => true
  }

  lemma PutByte(j: nat, w: bv32, b: bv8)
    requires j < 4 && Fits(j, w)
    ensures Fits(j + 1, Widen(b) ^ (w << 8))
  {
  }

  lemma FitsThree(j: nat, w: bv32)
    requires j < 4 && Fits(j, w)
    ensures w & 0xff000000 == 0
  {
    if j == 0 {
    } else if j == 1 {
    } else if j == 2 {
    }
  }

  lemma TopByteFree(w: bv32)
    requires w & 0xff000000 == 0
    ensures (w << 8) >> 8 == w
  {
  }

  lemma LowByteFree(w: bv32)
    ensures (w << 8) & 0xff == 0
  {
  }

  lemma LowOf(b: bv8, w: bv32)
    ensures (Widen(b) ^ (w << 8)) & 0xff == Widen(b)
  {
  }

  lemma HighOf(b: bv8, w: bv32)
    ensures (Widen(b) ^ (w << 8)) >> 8 == (w << 8) >> 8
  {
  }

  lemma SameByte(a: bv8, b: bv8)
    requires Widen(a) == Widen(b)
    ensures a == b
  {
  }

  lemma TakeByte(v: bv32, w: bv32, a: bv8, b: bv8)
    requires v & 0xff000000 == 0 && w & 0xff000000 == 0
    requires Widen(a) ^ (v << 8) == Widen(b) ^ (w << 8)
    ensures a == b && v == w
  {
    LowOf(a, v);
    LowOf(b, w);
    SameByte(a, b);
    HighOf(a, v);
    HighOf(b, w);
    TopByteFree(v);
    TopByteFree(w);
  }

  lemma UpAndDown(j: nat, w: bv32)
    requires j < 4 && Fits(j, w)
    ensures SR.LowClear(WORDS, Up(w), 8) && SR.Drop(WORDS, Up(w), 8) == w
  {
    FitsThree(j, w);
    TopByteFree(w);
    LowByteFree(w);
    ClearByte(w << 8);
    DropByte(w << 8);
  }

  lemma JoinIs(a: bv8, v: bv32)
    ensures WORDS.plus(WORDS.widen(a), WORDS.up(v)) == Widen(a) ^ (v << 8)
  {
  }

  lemma JoinedBytes(j: nat, v: bv32, w: bv32, a: bv8, b: bv8)
    requires j < 4 && Fits(j, v) && Fits(j, w)
    ensures WORDS.plus(WORDS.widen(a), WORDS.up(v)) == WORDS.plus(WORDS.widen(b), WORDS.up(w)) ==> a == b && v == w
  {
    JoinIs(a, v);
    JoinIs(b, w);
    FitsThree(j, v);
    FitsThree(j, w);
    if Widen(a) ^ (v << 8) == Widen(b) ^ (w << 8) {
      TakeByte(v, w, a, b);
    }
  }

  lemma PutBytes()
    ensures forall j: nat, w, b :: j < 4 && Fits(j, w) ==> Fits(j + 1, WORDS.plus(WORDS.widen(b), WORDS.up(w)))
  {
    forall j: nat, w, b | j < 4 && Fits(j, w) ensures Fits(j + 1, WORDS.plus(WORDS.widen(b), WORDS.up(w))) {
      PutByte(j, w, b);
    }
  }

  lemma StackedBytes()
    ensures SR.Stacks(WORDS, Fits, 4)
  {
    PutBytes();
    forall j: nat, w | j < 4 && Fits(j, w)
      ensures SR.LowClear(WORDS, WORDS.up(w), WORDS.size) && SR.Drop(WORDS, WORDS.up(w), WORDS.size) == w
    {
      UpAndDown(j, w);
    }
    forall j: nat, v, w, a, b | j < 4 && Fits(j, v) && Fits(j, w)
      ensures WORDS.plus(WORDS.widen(a), WORDS.up(v)) == WORDS.plus(WORDS.widen(b), WORDS.up(w)) ==> a == b && v == w
    {
      JoinedBytes(j, v, w, a, b);
    }
  }

  /** A file that is changed within four consecutive bytes gets another checksum. */
  lemma ChangeDetected(before: seq<bv8>, x: seq<bv8>, y: seq<bv8>, after: seq<bv8>)
    requires |x| == |y| <= 4
    ensures Crc(before + x + after) == Crc(before + y + after) <==> x == y
  {
    var v, w := before + x + after, before + y + after;
    if Crc(v) == Crc(w) {
      XorInjective(0xffffffff, Bytes(v, 0xffffffff), Bytes(w, 0xffffffff));
      BytesAgree(v, 0xffffffff);
      BytesAgree(w, 0xffffffff);
      LinearWords();
      NeutralWords();
      NarrowBytes();
      AssociativeWords();
      FaithfulWords();
      StackedBytes();
      SR.ChangeDetected(WORDS, Fits, 4, 0xffffffff, before, x, y, after);
    }
  }
}

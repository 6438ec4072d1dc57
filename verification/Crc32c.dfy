/** CRC32C: the interleaved form against one bit at a time (util/crc32c.cc, util/crc32c.h). */
module Crc32c {
  type Byte = bv8
  type Word = bv32

  const POLYNOMIAL: Word := 0x82F63B78  // of section 12.1 of RFC 3720, bits reversed
  const CRC_XOR: Word := 0xFFFFFFFF
  const MASK_DELTA: Word := 0xA282EAD8

  // ----- the definition -----

  function Xor(a: Word, b: Word): Word { a ^ b }

  /** Divides out one zero bit. */
  function Bit(l: Word): Word {
    if l & 1 == 1 then (l >> 1) ^ POLYNOMIAL else l >> 1
  }

  /** Divides out n zero bits. */
  function Bits(n: nat, l: Word): Word {
    if n == 0 then l else Bit(Bits(n - 1, l))
  }

  function Widen(b: Byte): Word { b as Word }

  /** The remainder after the bytes, starting from remainder l. */
  function Remainder(l: Word, data: seq<Byte>): Word
    decreases |data|
  {
    if |data| == 0 then l else Remainder(Bits(8, Xor(l, Widen(data[0]))), data[1..])
  }

  function Crc(init: Word, data: seq<Byte>): Word {
    Xor(Remainder(Xor(init, CRC_XOR), data), CRC_XOR)
  }

  // ----- exclusive or -----

  lemma XorCommutes(a: Word, b: Word)
    ensures Xor(a, b) == Xor(b, a)
  {}

  lemma XorAssociates(a: Word, b: Word, c: Word)
    ensures Xor(Xor(a, b), c) == Xor(a, Xor(b, c))
  {}

  lemma XorCancels(a: Word, b: Word)
    ensures Xor(Xor(a, b), b) == a
  {}

  lemma XorZero(a: Word)
    ensures Xor(0, a) == a
  {}

  // ----- dividing out zeros is linear -----

  lemma XorHalves(a: Word, b: Word)
    ensures (a ^ b) >> 1 == (a >> 1) ^ (b >> 1)
  {}

  lemma XorLowBit(a: Word, b: Word)
    ensures (a ^ b) & 1 == 1 <==> (a & 1 == 1) != (b & 1 == 1)
  {}

  lemma XorShuffle(x: Word, y: Word, p: Word)
    ensures (x ^ p) ^ (y ^ p) == x ^ y && (x ^ p) ^ y == (x ^ y) ^ p && x ^ (y ^ p) == (x ^ y) ^ p
  {}

  lemma BitDistributes(a: Word, b: Word)
    ensures Bit(a ^ b) == Bit(a) ^ Bit(b)
  {
    XorHalves(a, b);
    XorLowBit(a, b);
    XorShuffle(a >> 1, b >> 1, POLYNOMIAL);
  }

  lemma BitLinear(a: Word, b: Word)
    ensures Bit(Xor(a, b)) == Xor(Bit(a), Bit(b))
  {
    hide Bit;
    BitDistributes(a, b);
  }

  lemma {:induction false} BitsLinear(n: nat, a: Word, b: Word)
    ensures Bits(n, Xor(a, b)) == Xor(Bits(n, a), Bits(n, b))
  {
    hide Bit, Xor;
    if n > 0 {
      BitsLinear(n - 1, a, b);
      BitLinear(Bits(n - 1, a), Bits(n - 1, b));
    }
  }

  lemma {:induction false} BitsAdd(m: nat, n: nat, l: Word)
    ensures Bits(m + n, l) == Bits(m, Bits(n, l))
  {
    hide Bit;
    if m > 0 {
      BitsAdd(m - 1, n, l);
    }
  }

  // ----- zero low bits are just shifted out -----

  function Double(l: Word): Word { l << 1 }

  /** l can be doubled n times with no bit lost. */
  predicate Room(n: nat, l: Word) {
    n == 0 || (l & 0x80000000 == 0 && Room(n - 1, Double(l)))
  }

  function Shift(n: nat, l: Word): Word {
    if n == 0 then l else Shift(n - 1, Double(l))
  }

  lemma BitHalves(l: Word)
    requires l & 0x80000000 == 0
    ensures Bit(Double(l)) == l
  {}

  lemma {:induction false} ZerosShiftOut(n: nat, l: Word)
    requires Room(n, l)
    ensures Bits(n, Shift(n, l)) == l
  {
    hide Bit, Double;
    if n > 0 {
      ZerosShiftOut(n - 1, Double(l));
      BitHalves(l);
    }
  }

  function Shift8(h: Word): Word { h << 8 }

  lemma Shift4(l: Word)
    ensures Shift(4, l) == l << 4
  {
    assert Shift(3, l << 1) == Shift(2, l << 2);
    assert Shift(2, l << 2) == Shift(1, l << 3);
  }

  lemma Room4(l: Word)
    requires l <= 0xFFFFFFF
    ensures Room(4, l)
  {
    assert Room(1, l << 3);
    assert Room(2, l << 2);
    assert Room(3, l << 1);
  }

  lemma ByteShifts(h: Word)
    requires h <= 0xFFFFFF
    ensures Bits(8, Shift8(h)) == h
  {
    hide Bit, Bits, Room, Shift;
    assert h << 4 <= 0xFFFFFFF && (h << 4) << 4 == h << 8;
    Room4(h);
    Room4(h << 4);
    Shift4(h);
    Shift4(h << 4);
    ZerosShiftOut(4, h);
    ZerosShiftOut(4, h << 4);
    BitsAdd(4, 4, h << 8);
  }

  lemma {:induction false} RemainderAppend(l: Word, a: seq<Byte>, b: seq<Byte>)
    ensures Remainder(l, a + b) == Remainder(Remainder(l, a), b)
    decreases |a|
  {
    hide Bits, Xor, Widen;
    if |a| == 0 {
      assert a + b == b;
    } else {
      assert (a + b)[1..] == a[1..] + b;
      RemainderAppend(Bits(8, Xor(l, Widen(a[0]))), a[1..], b);
    }
  }

  // ----- four bytes at once -----

  function ReadUint32LE(b0: Byte, b1: Byte, b2: Byte, b3: Byte): Word {
    Widen(b0) | (Widen(b1) << 8) | (Widen(b2) << 16) | (Widen(b3) << 24)
  }

  function Little(data: seq<Byte>): Word
    decreases |data|
  {
    if |data| == 0 then 0 else Xor(Widen(data[0]), Shift8(Little(data[1..])))
  }

  /** The most that n bytes, n <= 4, can make. */
  function Limit(n: nat): Word {
    if n == 0 then 0 else if n == 1 then 0xFF else if n == 2 then 0xFFFF else if n == 3 then 0xFFFFFF else 0xFFFFFFFF
  }

  lemma ByteIsSmall(b: Byte)
    ensures Widen(b) <= 0xFF
  {}

  lemma JoinIsSmall(n: nat, b: Word, h: Word)
    requires n < 4 && b <= 0xFF && h <= Limit(n)
    ensures Xor(b, Shift8(h)) <= Limit(n + 1)
  {}

  lemma NothingIsSmall()
    ensures Limit(0) == 0
  {}

  lemma {:induction false} LittleIsSmall(data: seq<Byte>)
    requires |data| <= 4
    ensures Little(data) <= Limit(|data|)
    decreases |data|
  {
    hide Xor, Shift8, Widen, Limit;
    if |data| == 0 {
      NothingIsSmall();
    } else {
      LittleIsSmall(data[1..]);
      ByteIsSmall(data[0]);
      JoinIsSmall(|data| - 1, Widen(data[0]), Little(data[1..]));
    }
  }

  lemma LittleFitsAbove(data: seq<Byte>)
    requires |data| <= 3
    ensures Little(data) <= 0xFFFFFF
  {
    hide Little;
    LittleIsSmall(data);
  }

  lemma JoinFour(w0: Word, w1: Word, w2: Word, w3: Word)
    requires w0 <= 0xFF && w1 <= 0xFF && w2 <= 0xFF && w3 <= 0xFF
    ensures Xor(w0, Shift8(Xor(w1, Shift8(Xor(w2, Shift8(Xor(w3, Shift8(0)))))))) == w0 | (w1 << 8) | (w2 << 16) | (w3 << 24)
  {}

  lemma ReadIsLittle(b0: Byte, b1: Byte, b2: Byte, b3: Byte)
    ensures ReadUint32LE(b0, b1, b2, b3) == Little([b0, b1, b2, b3])
  {
    hide Xor, Shift8, Widen;
    ByteIsSmall(b0);
    ByteIsSmall(b1);
    ByteIsSmall(b2);
    ByteIsSmall(b3);
    JoinFour(Widen(b0), Widen(b1), Widen(b2), Widen(b3));
    var none: seq<Byte> := [];
    assert Little(none) == 0;
    assert [b3][1..] == none;
    assert [b2, b3][1..] == [b3];
    assert [b1, b2, b3][1..] == [b2, b3];
    assert [b0, b1, b2, b3][1..] == [b1, b2, b3];
    assert Little([b3]) == Xor(Widen(b3), Shift8(0));
    assert Little([b2, b3]) == Xor(Widen(b2), Shift8(Little([b3])));
  }

  lemma {:induction false} WordRemainder(l: Word, data: seq<Byte>)
    requires |data| <= 4
    ensures Remainder(l, data) == Bits(8 * |data|, Xor(l, Little(data)))
    decreases |data|
  {
    hide Bits, Xor, Shift8, Widen;
    if |data| == 0 {
      XorCommutes(l, 0);
      XorZero(l);
      BitsNone(l);
    } else {
      var b, h := Widen(data[0]), Little(data[1..]);
      LittleFitsAbove(data[1..]);
      calc {
        Bits(8, Xor(l, Xor(b, Shift8(h))));
        { XorAssociates(l, b, Shift8(h)); }
        Bits(8, Xor(Xor(l, b), Shift8(h)));
        { BitsLinear(8, Xor(l, b), Shift8(h)); ByteShifts(h); }
        Xor(Bits(8, Xor(l, b)), h);
      }
      WordRemainder(Bits(8, Xor(l, b)), data[1..]);
      BitsAdd(8 * (|data| - 1), 8, Xor(l, Little(data)));
    }
  }

  lemma BitsNone(l: Word)
    ensures Bits(0, l) == l
  {}

  // ----- the tables -----

  function LowByte(l: Word): Word { l & 0xFF }

  function Upper(l: Word): Word { l >> 8 }

  function ByteExtensionTable(c: Word): Word { Bits(8, c) }

  /** The four tables at lines 65, 110, 155 and 200: byte lane k of a word, extended by sixteen zero bytes. */
  function StrideExtensionTable(k: nat, c: Word): Word
    requires k <= 3
  {
    Bits(128, Lane(3 - k, c))
  }

  /** c moved up by k bytes. */
  function Lane(k: nat, c: Word): Word {
    if k == 0 then c
    else if k == 1 then Shift8(c)
    else if k == 2 then Shift8(Shift8(c))
    else Shift8(Shift8(Shift8(c)))
  }

  lemma EightBits(l: Word)
    ensures Bits(8, l) == Bit(Bit(Bit(Bit(Bit(Bit(Bit(Bit(l))))))))
  {
    hide Bit;
    assert Bits(2, l) == Bit(Bits(1, l)) && Bits(1, l) == Bit(Bits(0, l));
    assert Bits(4, l) == Bit(Bits(3, l)) && Bits(3, l) == Bit(Bits(2, l));
    assert Bits(6, l) == Bit(Bits(5, l)) && Bits(5, l) == Bit(Bits(4, l));
  }

  /** The entries of the byte table for a single bit, which by linearity give all the others; and the checksum of one
      zero byte. */
  lemma ByteTable()
    ensures ByteExtensionTable(0x01) == 0xF26B8303
    ensures ByteExtensionTable(0x02) == 0xE13B70F7
    ensures ByteExtensionTable(0x04) == 0xC79A971F
    ensures ByteExtensionTable(0x08) == 0x8AD958CF
    ensures ByteExtensionTable(0x10) == 0x105EC76F
    ensures ByteExtensionTable(0x20) == 0x20BD8EDE
    ensures ByteExtensionTable(0x40) == 0x417B1DBC
    ensures ByteExtensionTable(0x80) == 0x82F63B78
    ensures Crc(0, []) == 0 && Crc(0, [0]) == 0x527D5351
  {
    EightBits(0x01);
    EightBits(0x02);
    EightBits(0x04);
    EightBits(0x08);
    EightBits(0x10);
    EightBits(0x20);
    EightBits(0x40);
    EightBits(0x80);
    EightBits(0xFFFFFFFF);
    assert Remainder(0xFFFFFFFF, [0]) == Remainder(Bits(8, 0xFFFFFFFF), [0][1..]);
  }

  lemma SplitLow(l: Word)
    ensures Xor(LowByte(l), Shift8(Upper(l))) == l && Upper(l) <= 0xFFFFFF && LowByte(l) <= 0xFF
  {}

  /** A table step divides out a zero byte. */
  lemma TableStep(l: Word)
    ensures Xor(Upper(l), ByteExtensionTable(LowByte(l))) == Bits(8, l)
  {
    hide Bits, Xor, Shift8, LowByte, Upper;
    var a, h := LowByte(l), Upper(l);
    SplitLow(l);
    BitsLinear(8, a, Shift8(h));
    ByteShifts(h);
    XorCommutes(h, Bits(8, a));
  }

  lemma LowOfXor(l: Word, b: Word)
    requires b <= 0xFF
    ensures LowByte(Xor(l, b)) == Xor(LowByte(l), b) && Upper(Xor(l, b)) == Upper(l)
  {}

  /** STEP1. */
  lemma Step1(l: Word, b: Byte)
    ensures Xor(ByteExtensionTable(Xor(LowByte(l), Widen(b))), Upper(l)) == Remainder(l, [b])
  {
    hide Bits, Xor, Upper, LowByte, ByteExtensionTable, Widen;
    ByteIsSmall(b);
    LowOfXor(l, Widen(b));
    TableStep(Xor(l, Widen(b)));
    XorCommutes(Upper(l), ByteExtensionTable(Xor(LowByte(l), Widen(b))));
    assert [b][1..] == [];
  }

  // ----- sixteen zero bytes at once -----

  lemma SplitLanes(l: Word)
    ensures Xor(Xor(Xor(l & 0xFF, Shift8((l >> 8) & 0xFF)), Shift8(Shift8((l >> 16) & 0xFF))), Shift8(Shift8(Shift8(l >> 24)))) == l
  {}

  function Stride(l: Word, w: Word): Word {
    Xor(Xor(Xor(Xor(w, StrideExtensionTable(3, l & 0xFF)), StrideExtensionTable(2, (l >> 8) & 0xFF)),
            StrideExtensionTable(1, (l >> 16) & 0xFF)), StrideExtensionTable(0, l >> 24))
  }

  lemma FourLinear(n: nat, a: Word, b: Word, c: Word, d: Word)
    ensures Bits(n, Xor(Xor(Xor(a, b), c), d)) == Xor(Xor(Xor(Bits(n, a), Bits(n, b)), Bits(n, c)), Bits(n, d))
  {
    hide Bits, Xor;
    BitsLinear(n, a, b);
    BitsLinear(n, Xor(a, b), c);
    BitsLinear(n, Xor(Xor(a, b), c), d);
  }

  lemma XorRegroup(w: Word, a: Word, b: Word, c: Word, d: Word)
    ensures Xor(Xor(Xor(Xor(w, a), b), c), d) == Xor(w, Xor(Xor(Xor(a, b), c), d))
  {
    hide Xor;
    XorAssociates(w, a, b);
    XorAssociates(w, Xor(a, b), c);
    XorAssociates(w, Xor(Xor(a, b), c), d);
  }

  /** STEP4: four table look-ups extend by sixteen zero bytes. */
  lemma StrideIsZeros(l: Word, w: Word)
    ensures Stride(l, w) == Xor(w, Bits(128, l))
  {
    hide Bits, Xor, Shift8;
    var a, b, c, d := l & 0xFF, (l >> 8) & 0xFF, (l >> 16) & 0xFF, l >> 24;
    StrideLanes(a, b, c, d);
    SplitLanes(l);
    FourLinear(128, a, Shift8(b), Shift8(Shift8(c)), Shift8(Shift8(Shift8(d))));
    XorRegroup(w, Bits(128, a), Bits(128, Shift8(b)), Bits(128, Shift8(Shift8(c))), Bits(128, Shift8(Shift8(Shift8(d)))));
  }

  lemma StrideLanes(a: Word, b: Word, c: Word, d: Word)
    ensures StrideExtensionTable(3, a) == Bits(128, a)
    ensures StrideExtensionTable(2, b) == Bits(128, Shift8(b))
    ensures StrideExtensionTable(1, c) == Bits(128, Shift8(Shift8(c)))
    ensures StrideExtensionTable(0, d) == Bits(128, Shift8(Shift8(Shift8(d))))
  {
    hide Bits, Xor, Shift8;
  }

  // ----- four interleaved streams -----

  /** Divides out one zero word. */
  function Zero4(l: Word): Word { Bits(32, l) }

  /** The remainder that four interleaved partial results stand for. */
  function Combine(c0: Word, c1: Word, c2: Word, c3: Word): Word {
    Zero4(Xor(c3, Zero4(Xor(c2, Zero4(Xor(c1, Zero4(c0)))))))
  }

  lemma Zero4Linear(a: Word, b: Word)
    ensures Zero4(Xor(a, b)) == Xor(Zero4(a), Zero4(b))
  {
    hide Bits, Xor;
    BitsLinear(32, a, b);
  }

  lemma StrideIsFourWords(l: Word)
    ensures Bits(128, l) == Zero4(Zero4(Zero4(Zero4(l))))
  {
    hide Bits;
    BitsAdd(32, 32, l);
    BitsAdd(32, 64, l);
    BitsAdd(32, 96, l);
  }

  /** The oldest stream's zeros come out of the others. */
  lemma CombineSplits(c0: Word, c1: Word, c2: Word, c3: Word)
    ensures Combine(c0, c1, c2, c3) == Xor(Zero4(Xor(c3, Zero4(Xor(c2, Zero4(c1))))), Bits(128, c0))
  {
    hide Bits, Xor, Zero4;
    var z1 := Zero4(c0);
    var z2 := Zero4(z1);
    var z3 := Zero4(z2);
    Zero4Linear(c1, z1);
    XorAssociates(c2, Zero4(c1), z2);
    Zero4Linear(Xor(c2, Zero4(c1)), z2);
    XorAssociates(c3, Zero4(Xor(c2, Zero4(c1))), z3);
    Zero4Linear(Xor(c3, Zero4(Xor(c2, Zero4(c1)))), z3);
    StrideIsFourWords(c0);
  }

  /** One stride of the next word, and the streams change places. */
  lemma Rotate(c0: Word, c1: Word, c2: Word, c3: Word, w: Word)
    ensures Combine(c1, c2, c3, Stride(c0, w)) == Zero4(Xor(Combine(c0, c1, c2, c3), w))
  {
    hide Bits, Xor, Zero4, Stride;
    var rest := Zero4(Xor(c3, Zero4(Xor(c2, Zero4(c1)))));
    var z := Bits(128, c0);
    CombineSplits(c0, c1, c2, c3);
    StrideIsZeros(c0, w);
    XorAssociates(w, z, rest);
    XorCommutes(z, rest);
    XorCommutes(w, Xor(rest, z));
  }

  function ReadAt(data: seq<Byte>, p: nat): Word
    requires p + 4 <= |data|
  {
    ReadUint32LE(data[p], data[p + 1], data[p + 2], data[p + 3])
  }

  lemma AdvanceWord(l: Word, data: seq<Byte>, p: nat)
    requires p + 4 <= |data|
    ensures Remainder(l, data[..p + 4]) == Zero4(Xor(Remainder(l, data[..p]), ReadAt(data, p)))
  {
    hide Bits, Xor, Little, ReadUint32LE, Remainder;
    var four := data[p..p + 4];
    assert four == [data[p], data[p + 1], data[p + 2], data[p + 3]];
    ReadIsLittle(data[p], data[p + 1], data[p + 2], data[p + 3]);
    assert data[..p + 4] == data[..p] + four;
    RemainderAppend(l, data[..p], four);
    WordRemainder(Remainder(l, data[..p]), four);
  }

  lemma AdvanceByte(l: Word, data: seq<Byte>, p: nat)
    requires p < |data|
    ensures Remainder(l, data[..p + 1]) == Remainder(Remainder(l, data[..p]), [data[p]])
  {
    hide Bits, Xor, Remainder;
    assert data[..p + 1] == data[..p] + [data[p]];
    RemainderAppend(l, data[..p], [data[p]]);
  }

  /** The first swath fills the four streams. */
  lemma FirstSwath(l: Word, data: seq<Byte>, p: nat)
    requires p + 16 <= |data|
    ensures Combine(Xor(ReadAt(data, p), Remainder(l, data[..p])), ReadAt(data, p + 4),
                    ReadAt(data, p + 8), ReadAt(data, p + 12)) == Remainder(l, data[..p + 16])
  {
    hide Bits, Xor, Zero4, ReadAt, Remainder;
    var r := Remainder(l, data[..p]);
    AdvanceWord(l, data, p);
    XorCommutes(r, ReadAt(data, p));
    var p1, p2, p3 := p + 4, p + 8, p + 12;
    AdvanceWord(l, data, p1);
    XorCommutes(Remainder(l, data[..p1]), ReadAt(data, p1));
    AdvanceWord(l, data, p2);
    XorCommutes(Remainder(l, data[..p2]), ReadAt(data, p2));
    AdvanceWord(l, data, p3);
    XorCommutes(Remainder(l, data[..p3]), ReadAt(data, p3));
  }

  /** STEP4 on the oldest stream consumes the next word. */
  lemma NextWord(l: Word, data: seq<Byte>, p: nat, c0: Word, c1: Word, c2: Word, c3: Word)
    requires p + 4 <= |data|
    requires Combine(c0, c1, c2, c3) == Remainder(l, data[..p])
    ensures Combine(c1, c2, c3, Stride(c0, ReadAt(data, p))) == Remainder(l, data[..p + 4])
  {
    hide Bits, Xor, Zero4, ReadAt, Remainder, Combine, Stride;
    Rotate(c0, c1, c2, c3, ReadAt(data, p));
    AdvanceWord(l, data, p);
  }

  lemma NextSwath(l: Word, data: seq<Byte>, p: nat, c0: Word, c1: Word, c2: Word, c3: Word)
    requires p + 16 <= |data|
    requires Combine(c0, c1, c2, c3) == Remainder(l, data[..p])
    ensures Combine(Stride(c0, ReadAt(data, p)), Stride(c1, ReadAt(data, p + 4)),
                    Stride(c2, ReadAt(data, p + 8)), Stride(c3, ReadAt(data, p + 12))) == Remainder(l, data[..p + 16])
  {
    hide Bits, Xor, Zero4, ReadAt, Remainder, Combine, Stride;
    var d0, d1, d2 := Stride(c0, ReadAt(data, p)), Stride(c1, ReadAt(data, p + 4)), Stride(c2, ReadAt(data, p + 8));
    NextWord(l, data, p, c0, c1, c2, c3);
    NextWord(l, data, p + 4, c1, c2, c3, d0);
    NextWord(l, data, p + 8, c2, c3, d0, d1);
    NextWord(l, data, p + 12, c3, d0, d1, d2);
  }

  // ----- the program -----

  /** STEP4W. */
  method Step4W(l: Word, word: Word) returns (r: Word)
    ensures r == Zero4(Xor(word, l))
  {
    hide Bits, Xor, Upper, LowByte, ByteExtensionTable;
    var w := Xor(word, l);
    ghost var start := w;
    BitsNone(w);
    for i := 0 to 4
      invariant w == Bits(8 * i, start)
    {
      TableStep(w);
      BitsAdd(8, 8 * i, start);
      w := Xor(Upper(w), ByteExtensionTable(LowByte(w)));
    }
    r := w;
  }

  /** Extends a checksum over data that starts at the address. */
  method Extend(crc: Word, data: seq<Byte>, address: nat) returns (r: Word)
    ensures r == Crc(crc, data)
  {
    hide Bits, Xor, Zero4, ReadAt, Remainder, Combine, Stride, Upper, LowByte, ByteExtensionTable, Widen;
    var p, e := 0, |data|;
    var l := Xor(crc, CRC_XOR);
    ghost var start := l;
    RemainderNone(start, data);
    var x := (address + 3) / 4 * 4 - address;
    if x <= e {
      while p != x
        invariant p <= x
        invariant l == Remainder(start, data[..p])
        decreases x - p
      {
        AdvanceByte(start, data, p);
        Step1(l, data[p]);
        l := Xor(ByteExtensionTable(Xor(LowByte(l), Widen(data[p]))), Upper(l));
        p := p + 1;
      }
    }
    if e - p >= 16 {
      FirstSwath(start, data, p);
      var crc0 := Xor(ReadAt(data, p), l);
      var crc1, crc2, crc3 := ReadAt(data, p + 4), ReadAt(data, p + 8), ReadAt(data, p + 12);
      p := p + 16;
      while e - p >= 16
        invariant p <= e
        invariant Combine(crc0, crc1, crc2, crc3) == Remainder(start, data[..p])
      {
        NextSwath(start, data, p, crc0, crc1, crc2, crc3);
        crc0 := Stride(crc0, ReadAt(data, p));
        crc1 := Stride(crc1, ReadAt(data, p + 4));
        crc2 := Stride(crc2, ReadAt(data, p + 8));
        crc3 := Stride(crc3, ReadAt(data, p + 12));
        p := p + 16;
      }
      while e - p >= 4
        invariant p <= e
        invariant Combine(crc0, crc1, crc2, crc3) == Remainder(start, data[..p])
      {
        NextWord(start, data, p, crc0, crc1, crc2, crc3);
        crc0, crc1, crc2, crc3 := crc1, crc2, crc3, Stride(crc0, ReadAt(data, p));
        p := p + 4;
      }
      CombineByWords(crc0, crc1, crc2, crc3);
      l := Step4W(0, crc0);
      l := Step4W(l, crc1);
      l := Step4W(l, crc2);
      l := Step4W(l, crc3);
    }
    while p != e
      invariant p <= e
      invariant l == Remainder(start, data[..p])
      decreases e - p
    {
      AdvanceByte(start, data, p);
      Step1(l, data[p]);
      l := Xor(ByteExtensionTable(Xor(LowByte(l), Widen(data[p]))), Upper(l));
      p := p + 1;
    }
    assert data[..e] == data;
    r := Xor(l, CRC_XOR);
  }

  lemma RemainderNone(l: Word, data: seq<Byte>)
    ensures Remainder(l, data[..0]) == l
  {}

  lemma CombineByWords(c0: Word, c1: Word, c2: Word, c3: Word)
    ensures Combine(c0, c1, c2, c3) == Zero4(Xor(c3, Zero4(Xor(c2, Zero4(Xor(c1, Zero4(Xor(c0, 0))))))))
  {
    hide Bits, Xor, Zero4;
    XorCommutes(c0, 0);
    XorZero(c0);
  }

  // ----- what the checksum is for -----

  /** Checksums chain: extending over a and then b is extending over both. */
  lemma ExtendChains(crc: Word, a: seq<Byte>, b: seq<Byte>)
    ensures Crc(Crc(crc, a), b) == Crc(crc, a + b)
  {
    hide Remainder, Xor;
    var l := Remainder(Xor(crc, CRC_XOR), a);
    XorCancels(l, CRC_XOR);
    RemainderAppend(Xor(crc, CRC_XOR), a, b);
  }

  lemma BitInjective(a: Word, b: Word)
    requires Bit(a) == Bit(b)
    ensures a == b
  {}

  lemma {:induction false} BitsInjective(n: nat, a: Word, b: Word)
    requires Bits(n, a) == Bits(n, b)
    ensures a == b
  {
    hide Bit;
    if n > 0 {
      BitInjective(Bits(n - 1, a), Bits(n - 1, b));
      BitsInjective(n - 1, a, b);
    }
  }

  lemma XorInjective(a: Word, b: Word, c: Word)
    requires Xor(a, c) == Xor(b, c)
    ensures a == b
  {
    hide Xor;
    XorCancels(a, c);
    XorCancels(b, c);
  }

  lemma {:induction false} RemainderInjective(l: Word, m: Word, data: seq<Byte>)
    requires Remainder(l, data) == Remainder(m, data)
    ensures l == m
    decreases |data|
  {
    hide Bits, Xor, Widen;
    if |data| > 0 {
      var b := Widen(data[0]);
      RemainderInjective(Bits(8, Xor(l, b)), Bits(8, Xor(m, b)), data[1..]);
      BitsInjective(8, Xor(l, b), Xor(m, b));
      XorInjective(l, m, b);
    }
  }

  lemma JoinInjective(a: Word, h: Word, b: Word, k: Word)
    requires a <= 0xFF && b <= 0xFF && h <= 0xFFFFFF && k <= 0xFFFFFF
    requires Xor(a, Shift8(h)) == Xor(b, Shift8(k))
    ensures a == b && h == k
  {}

  lemma WidenInjective(a: Byte, b: Byte)
    requires Widen(a) == Widen(b)
    ensures a == b
  {}

  lemma {:induction false} LittleInjective(a: seq<Byte>, b: seq<Byte>)
    requires |a| == |b| <= 4 && Little(a) == Little(b)
    ensures a == b
    decreases |a|
  {
    hide Xor, Shift8, Widen;
    if |a| > 0 {
      LittleFitsAbove(a[1..]);
      LittleFitsAbove(b[1..]);
      ByteIsSmall(a[0]);
      ByteIsSmall(b[0]);
      JoinInjective(Widen(a[0]), Little(a[1..]), Widen(b[0]), Little(b[1..]));
      WidenInjective(a[0], b[0]);
      LittleInjective(a[1..], b[1..]);
      assert a == [a[0]] + a[1..] && b == [b[0]] + b[1..];
    }
  }

  /** Damage confined to four neighbouring bytes always changes the checksum. */
  lemma BurstIsDetected(crc: Word, head: seq<Byte>, was: seq<Byte>, now: seq<Byte>, tail: seq<Byte>)
    requires |was| == |now| <= 4 && was != now
    ensures Crc(crc, head + was + tail) != Crc(crc, head + now + tail)
  {
    hide Bits, Xor, Remainder, Little;
    var start := Xor(crc, CRC_XOR);
    var l := Remainder(start, head);
    RemainderAppend(start, head + was, tail);
    RemainderAppend(start, head, was);
    RemainderAppend(start, head + now, tail);
    RemainderAppend(start, head, now);
    if Crc(crc, head + was + tail) == Crc(crc, head + now + tail) {
      XorInjective(Remainder(Remainder(l, was), tail), Remainder(Remainder(l, now), tail), CRC_XOR);
      RemainderInjective(Remainder(l, was), Remainder(l, now), tail);
      WordRemainder(l, was);
      WordRemainder(l, now);
      BitsInjective(8 * |was|, Xor(l, Little(was)), Xor(l, Little(now)));
      XorCommutes(l, Little(was));
      XorCommutes(l, Little(now));
      XorInjective(Little(was), Little(now), l);
      LittleInjective(was, now);
    }
  }

  function Mask(crc: Word): Word {
    ((crc >> 15) | (crc << 17)) + MASK_DELTA
  }

  function Unmask(masked: Word): Word {
    var rot := masked - MASK_DELTA;
    (rot >> 17) | (rot << 15)
  }

  /** A stored checksum is read back, and no two share a masked form. */
  lemma MaskRoundTrip(x: Word)
    ensures Unmask(Mask(x)) == x
    ensures Mask(Unmask(x)) == x
    ensures Mask(0) == 0xA282EAD8 && Mask(1) == 0xA284EAD8
  {}
}

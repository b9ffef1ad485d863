/** The checksum in numbers: the entries of the tables of util/crc32c.cc, and what the
    complements at both ends of Extend come to. */
module Crc32cNumbers {
  import opened Coding
  import opened Crc32c

  // ---------- machine words ----------

  function Odd(v: bv32): bool {
    v & 1 != 0
  }

  function Half(v: bv32): bv32 {
    v >> 1
  }

  /** A machine word shifted right by n bits. */
  function Halves(v: bv32, n: nat): bv32
    decreases n
  {
    if n == 0 then v else Halves(Half(v), n - 1)
  }

  /** The n low bits of a machine word. */
  function LowBits(v: bv32, n: nat): (r: Bits)
    ensures |r| == n
  {
    if n == 0 then [] else [Odd(v)] + LowBits(Half(v), n - 1)
  }

  /** The number they stand for. */
  function Number(v: bv32, n: nat): nat
    decreases n
  {
    if n == 0 then 0 else (if Odd(v) then 1 else 0) + 2 * Number(Half(v), n - 1)
  }

  function AsWord(v: bv32): Word {
    LowBits(v, 32)
  }

  lemma {:induction false} ValueOfLowBits(v: bv32, n: nat)
    ensures ValueOf(LowBits(v, n)) == Number(v, n)
    decreases n
  {
    hide Odd, Half;
    if n > 0 {
      ValueOfLowBits(Half(v), n - 1);
      assert LowBits(v, n)[1..] == LowBits(Half(v), n - 1);
    }
  }

  /** A word with a known number is that machine word. */
  lemma {:induction false} WordOfNumber(v: bv32, n: nat)
    ensures BitsOf(Number(v, n), n) == LowBits(v, n)
  {
    hide *;
    ValueOfLowBits(v, n);
    BitsOfValue(LowBits(v, n));
  }

  lemma {:induction false} HalvesMore(v: bv32, m: nat, n: nat)
    ensures Halves(v, m + n) == Halves(Halves(v, m), n)
    decreases m
  {
    hide Half;
    if m > 0 {
      HalvesMore(Half(v), m - 1, n);
    }
  }

  lemma {:induction false} NumberMore(v: bv32, m: nat, n: nat)
    ensures Number(v, m + n) == Number(v, m) + Pow2(m) * Number(Halves(v, m), n)
    decreases m
  {
    hide Half, Odd;
    if m > 0 {
      NumberMore(Half(v), m - 1, n);
      Double(Pow2(m - 1), Number(Halves(Half(v), m - 1), n));
    }
  }

  lemma {:induction false} Double(a: nat, k: nat)
    ensures (2 * a) * k == 2 * (a * k)
  {
  }

  /** The low byte as a number, bit by bit. */
  function Byte(v: bv32): nat {
    (if v & 1 != 0 then 1 else 0) + (if v & 2 != 0 then 2 else 0) +
    (if v & 4 != 0 then 4 else 0) + (if v & 8 != 0 then 8 else 0) +
    (if v & 16 != 0 then 16 else 0) + (if v & 32 != 0 then 32 else 0) +
    (if v & 64 != 0 then 64 else 0) + (if v & 128 != 0 then 128 else 0)
  }

  lemma {:induction false} NumberOfByte(v: bv32)
    ensures Number(v, 8) == Byte(v)
  {
  }

  lemma {:induction false} HalvesByByte(v: bv32)
    ensures Halves(v, 8) == v >> 8
  {
  }

  function NextByte(v: bv32): bv32 {
    v >> 8
  }

  lemma {:induction false} NumberMoreByte(v: bv32, n: nat)
    ensures Number(v, 8 + n) == Byte(v) + 256 * Number(NextByte(v), n)
  {
    hide Number, Halves, Byte;
    assert Pow2(8) == 2 * (2 * (2 * (2 * Pow2(4)))) == 256;
    NumberMore(v, 8, n);
    HalvesByByte(v);
    NumberOfByte(v);
  }

  /** The number of a machine word, byte by byte. */
  function ByBytes(v: bv32): nat {
    Byte(v) + 256 * (Byte(NextByte(v)) + 256 * (Byte(NextByte(NextByte(v))) +
    256 * Byte(NextByte(NextByte(NextByte(v))))))
  }

  lemma {:induction false} NumberOfWord(v: bv32)
    ensures Number(v, 32) == ByBytes(v)
  {
    hide Number, Byte, NextByte;
    var a := NextByte(v);
    var b := NextByte(a);
    var c := NextByte(b);
    NumberMoreByte(v, 24);
    NumberMoreByte(a, 16);
    NumberMoreByte(b, 8);
    NumberOfByte(c);
  }

  // ---------- xor and shift ----------

  function XorWords(v: bv32, u: bv32): bv32 {
    v ^ u
  }

  lemma {:induction false} XorLowBits(v: bv32, u: bv32, n: nat)
    ensures Xor(LowBits(v, n), LowBits(u, n)) == LowBits(XorWords(v, u), n)
    decreases n
  {
    hide Xor, Odd, Half, XorWords;
    if n > 0 {
      XorLowBits(Half(v), Half(u), n - 1);
      XorOfBits(v, u);
      XorFront(Odd(v), Odd(u), LowBits(Half(v), n - 1), LowBits(Half(u), n - 1));
    } else {
      NothingToXor();
    }
  }

  lemma {:induction false} XorOfBits(v: bv32, u: bv32)
    ensures Half(XorWords(v, u)) == XorWords(Half(v), Half(u))
    ensures Odd(XorWords(v, u)) == (Odd(v) != Odd(u))
  {
  }

  lemma {:induction false} XorFront(a: bool, b: bool, x: Bits, y: Bits)
    requires |x| == |y|
    ensures Xor([a] + x, [b] + y) == [a != b] + Xor(x, y)
  {
  }

  lemma {:induction false} NothingToXor()
    ensures Xor([], []) == []
  {
  }

  lemma {:induction false} TopBitClear(v: bv32, n: nat)
    requires Halves(v, n) == 0
    ensures LowBits(v, n + 1) == LowBits(v, n) + [false]
    decreases n
  {
    if n > 0 {
      hide Odd, Half;
      TopBitClear(Half(v), n - 1);
    } else {
      assert LowBits(v, 1) == [false] + LowBits(Half(v), 0);
    }
  }

  lemma {:induction false} HalfIsShort(v: bv32)
    ensures Halves(Half(v), 31) == 0
  {
    hide Halves, Half;
    var a := Half(v);
    var b := Halves(a, 8);
    var c := Halves(b, 8);
    HalvesMore(a, 8, 23);
    HalvesMore(b, 8, 15);
    HalvesMore(c, 8, 7);
    HalvesByByte(a);
    HalvesByByte(b);
    HalvesByByte(c);
    TopSeven(v);
    SevenBits(Halves(c, 8));
  }

  lemma {:induction false} TopSeven(v: bv32)
    ensures ((Half(v) >> 8) >> 8) >> 8 < 128
  {
  }

  lemma {:induction false} SevenBits(v: bv32)
    requires v < 128
    ensures Halves(v, 7) == 0
  {
  }

  // ---------- division of machine words ----------

  const POLYNOMIAL: bv32 := 0x82f6_3b78

  function Divide1(v: bv32): bv32 {
    if Odd(v) then XorWords(Half(v), POLYNOMIAL) else Half(v)
  }

  function Divide(v: bv32, n: nat): bv32
    decreases n
  {
    if n == 0 then v else Divide(Divide1(v), n - 1)
  }

  lemma {:induction false} DivideMore(v: bv32, m: nat, n: nat)
    ensures Divide(v, m + n) == Divide(Divide(v, m), n)
    decreases m
  {
    hide Divide1;
    if m > 0 {
      DivideMore(Divide1(v), m - 1, n);
    }
  }

  lemma {:induction false} PolynomialWord()
    ensures Polynomial() == AsWord(POLYNOMIAL)
  {
    NumberOfWord(0x82f6_3b78);
    WordOfNumber(POLYNOMIAL, 32);
  }

  lemma {:induction false} HalfOfWord(v: bv32)
    ensures ShiftRight(AsWord(v), 1) == AsWord(Half(v)) && AsWord(v)[0] == Odd(v)
  {
    hide Halves, Odd, Half;
    HalfIsShort(v);
    TopBitClear(Half(v), 31);
    assert LowBits(v, 32)[1..] == LowBits(Half(v), 31);
  }

  lemma {:induction false} Shift1Divides(v: bv32)
    ensures Shift1(AsWord(v)) == AsWord(Divide1(v))
  {
    hide Xor, LowBits, ShiftRight, Odd, Half, Polynomial, XorWords;
    HalfOfWord(v);
    PolynomialWord();
    XorLowBits(Half(v), POLYNOMIAL, 32);
  }

  /** Dividing bit sequences is dividing machine words. */
  lemma {:induction false} ShiftDivides(v: bv32, n: nat)
    ensures Shift(AsWord(v), n) == AsWord(Divide(v, n))
    decreases n
  {
    hide Shift1, Divide1, AsWord;
    if n > 0 {
      Shift1Divides(v);
      ShiftDivides(Divide1(v), n - 1);
    }
  }

  // ---------- the tables ----------

  lemma {:induction false} UpperClear(v: bv32, m: nat, n: nat)
    requires Halves(v, m) == 0
    ensures LowBits(v, m + n) == LowBits(v, m) + Zeros(n)
    decreases n
  {
    hide LowBits, Halves;
    if n > 0 {
      UpperClear(v, m, n - 1);
      HalvesMore(v, m, n - 1);
      HalvesOfZero(n - 1);
      TopBitClear(v, m + n - 1);
      assert Zeros(n) == Zeros(n - 1) + [false];
    } else {
      assert LowBits(v, m) + Zeros(0) == LowBits(v, m);
    }
  }

  lemma {:induction false} HalvesOfZero(n: nat)
    ensures Halves(0, n) == 0
  {
    if n > 0 {
      HalvesOfZero(n - 1);
    }
  }

  lemma {:induction false} SmallWord(c: bv32)
    requires c < 256
    ensures BitsOf(Byte(c), 8) == LowBits(c, 8) && Low(LowBits(c, 8)) == AsWord(c)
  {
    hide LowBits, Halves, Number, Byte;
    HalvesByByte(c);
    assert c >> 8 == 0;
    UpperClear(c, 8, 24);
    NumberOfByte(c);
    WordOfNumber(c, 8);
  }

  /** What the four tables have at index i. */
  ghost predicate TableEntries(i: nat, t0: nat, t1: nat, t2: nat, t3: nat) {
    var c := BitsOf(i, 8);
    ValueOf(Table0(c)) == t0 && ValueOf(Table1(c)) == t1 && ValueOf(Table2(c)) == t2 && ValueOf(Table3(c)) == t3
  }

  /** A division by one byte. */
  function DivideByte(v: bv32): bv32 {
    Divide1(Divide1(Divide1(Divide1(Divide1(Divide1(Divide1(Divide1(v))))))))
  }

  lemma {:induction false} DivideByByte(v: bv32)
    ensures Divide(v, 8) == DivideByte(v)
  {
    hide Divide1;
  }

  lemma {:induction false} EntriesByDivision(c: bv32, w0: bv32, w1: bv32, w2: bv32, w3: bv32)
    requires c < 256
    requires DivideByte(c) == w0 && DivideByte(w0) == w1 && DivideByte(w1) == w2 && DivideByte(w2) == w3
    ensures TableEntries(Byte(c), ByBytes(w0), ByBytes(w1), ByBytes(w2), ByBytes(w3))
  {
    hide Divide, DivideByte, Byte, ByBytes, ZeroByte, Shift, LowBits, Low, Number;
    SmallWord(c);
    DivideByByte(c);
    DivideByByte(w0);
    DivideByByte(w1);
    DivideByByte(w2);
    ShiftDivides(c, 8);
    ZeroByteIsShift(AsWord(w0));
    ShiftDivides(w0, 8);
    ZeroByteIsShift(AsWord(w1));
    ShiftDivides(w1, 8);
    ZeroByteIsShift(AsWord(w2));
    ShiftDivides(w2, 8);
    ValueOfMachineWord(w0);
    ValueOfMachineWord(w1);
    ValueOfMachineWord(w2);
    ValueOfMachineWord(w3);
  }

  lemma {:induction false} ValueOfMachineWord(v: bv32)
    ensures ValueOf(AsWord(v)) == ByBytes(v)
  {
    hide LowBits, Number, ByBytes, ValueOf;
    ValueOfLowBits(v, 32);
    NumberOfWord(v);
  }

  lemma {:induction false} EntriesAt1()
    ensures TableEntries(1, 0xf26b_8303, 0x13a2_9877, 0xa541_927e, 0xdd45_aab8)
  {
    hide TableEntries;
    EntriesByDivision(1, 0xf26b_8303, 0x13a2_9877, 0xa541_927e, 0xdd45_aab8);
  }

  lemma {:induction false} EntriesAt2()
    ensures TableEntries(2, 0xe13b_70f7, 0x2745_30ee, 0x4f6f_520d, 0xbf67_2381)
  {
    hide TableEntries;
    EntriesByDivision(2, 0xe13b_70f7, 0x2745_30ee, 0x4f6f_520d, 0xbf67_2381);
  }

  lemma {:induction false} EntriesAt4()
    ensures TableEntries(4, 0xc79a_971f, 0x4e8a_61dc, 0x9ede_a41a, 0x7b22_31f3)
  {
    hide TableEntries;
    EntriesByDivision(4, 0xc79a_971f, 0x4e8a_61dc, 0x9ede_a41a, 0x7b22_31f3);
  }

  lemma {:induction false} EntriesAt8()
    ensures TableEntries(8, 0x8ad9_58cf, 0x9d14_c3b8, 0x3851_3ec5, 0xf644_63e6)
  {
    hide TableEntries;
    EntriesByDivision(8, 0x8ad9_58cf, 0x9d14_c3b8, 0x3851_3ec5, 0xf644_63e6);
  }

  lemma {:induction false} EntriesAt16()
    ensures TableEntries(16, 0x105e_c76f, 0x3fc5_f181, 0x70a2_7d8a, 0xe964_b13d)
  {
    hide TableEntries;
    EntriesByDivision(16, 0x105e_c76f, 0x3fc5_f181, 0x70a2_7d8a, 0xe964_b13d);
  }

  lemma {:induction false} EntriesAt32()
    ensures TableEntries(32, 0x20bd_8ede, 0x7f8b_e302, 0xe144_fb14, 0xd725_148b)
  {
    hide TableEntries;
    EntriesByDivision(32, 0x20bd_8ede, 0x7f8b_e302, 0xe144_fb14, 0xd725_148b);
  }

  lemma {:induction false} EntriesAt64()
    ensures TableEntries(64, 0x417b_1dbc, 0xff17_c604, 0xc765_80d9, 0xaba6_5fe7)
  {
    hide TableEntries;
    EntriesByDivision(64, 0x417b_1dbc, 0xff17_c604, 0xc765_80d9, 0xaba6_5fe7);
  }

  lemma {:induction false} EntriesAt128()
    ensures TableEntries(128, 0x82f6_3b78, 0xfbc3_faf9, 0x8b27_7743, 0x52a0_c93f)
  {
    hide TableEntries;
    EntriesByDivision(128, 0x82f6_3b78, 0xfbc3_faf9, 0x8b27_7743, 0x52a0_c93f);
  }

  /** The entries of a sum of bits are the sums of the entries, so those at the powers of two
      give all 256. */
  lemma {:induction false} TablesLinear(a: Octet, b: Octet)
    ensures Table0(Xor(a, b)) == Xor(Table0(a), Table0(b)) && Table1(Xor(a, b)) == Xor(Table1(a), Table1(b))
    ensures Table2(Xor(a, b)) == Xor(Table2(a), Table2(b)) && Table3(Xor(a, b)) == Xor(Table3(a), Table3(b))
  {
    hide Shift, ZeroByte;
    assert Low(Xor(a, b)) == Xor(Low(a), Low(b));
    ShiftLinear(Low(a), Low(b), 8);
    ZeroByteLinear(Table0(a), Table0(b));
    ZeroByteLinear(Table1(a), Table1(b));
    ZeroByteLinear(Table2(a), Table2(b));
  }

  // ---------- checksums ----------

  lemma {:induction false} AllOnes(n: nat)
    ensures BitsOf(Pow2(n) - 1, n) == seq(n, _ => true)
  {
    if n > 0 {
      AllOnes(n - 1);
      assert (Pow2(n) - 1) / 2 == Pow2(n - 1) - 1;
      var r: Bits := seq(n, _ => true);
      assert r == [true] + r[1..];
      assert r[1..] == seq(n - 1, _ => true);
    } else {
      assert seq(0, _ => true) == [];
    }
  }

  const ONES: bv32 := 0xffff_ffff

  lemma {:induction false} OnesWord()
    ensures Ones() == AsWord(ONES) && Xor(Zeros(32), Ones()) == Ones()
  {
    hide Number, LowBits;
    AllOnes(32);
    PowersOfTwo();
    NumberOfWord(ONES);
    assert ByBytes(ONES) == 0xffff_ffff;
    WordOfNumber(ONES, 32);
  }

  /** The register after the bytes, started as Extend starts it. */
  ghost function Register(bs: Bytes): Word {
    Fold(Ones(), Octets(bs))
  }

  lemma {:induction false} ValueIsComplement(bs: Bytes)
    ensures Value(bs) == Xor(Register(bs), Ones())
  {
    hide Fold, Xor, Ones, Octets;
    OnesWord();
  }

  lemma {:induction false} NextRegister(bs: Bytes, v: bv32, c: bv32)
    requires Register(bs) == AsWord(v) && c < 256
    ensures Byte(c) < 256 && Register(bs + [Byte(c)]) == AsWord(DivideByte(XorWords(v, c)))
  {
    hide Divide, DivideByte, XorWords, Fold, LowBits, Low, Xor;
    SmallWord(c);
    var more := Octets(bs + [Byte(c)]);
    assert more == Octets(bs) + [LowBits(c, 8)];
    FoldConcat(Ones(), Octets(bs), [LowBits(c, 8)]);
    OneByte(AsWord(v), LowBits(c, 8));
    XorLowBits(v, c, 32);
    ShiftDivides(XorWords(v, c), 8);
    DivideByByte(XorWords(v, c));
  }

  lemma {:induction false} NothingRegistered()
    ensures Register([]) == AsWord(ONES)
  {
    hide LowBits;
    OnesWord();
  }

  /** The complement at the end. */
  lemma {:induction false} ValueOfRegister(bs: Bytes, v: bv32, w: bv32)
    requires Register(bs) == AsWord(v) && w == XorWords(v, ONES)
    ensures ValueOf(Value(bs)) == ByBytes(w)
  {
    hide LowBits, XorWords, ByBytes, Xor, Register;
    ValueIsComplement(bs);
    OnesWord();
    XorLowBits(v, ONES, 32);
    ValueOfMachineWord(w);
  }

  /** The checksum of one zero byte, which both complements change. */
  lemma {:induction false} ChecksumOfZero()
    ensures ValueOf(Value([0])) == 0x527d_5351
  {
    hide Register, LowBits, Value;
    NothingRegistered();
    NextRegister([], ONES, 0);
    assert [] + [Byte(0)] == [0];
    ValueOfRegister([0], 0xad82acae, 0x527d_5351);
  }

  /** The self test that decides about the accelerated version. */
  lemma {:induction false} ChecksumOfTestBuffer(bs: Bytes)
    requires bs == [84, 101, 115, 116, 67, 82, 67, 66, 117, 102, 102, 101, 114]
    ensures ValueOf(Value(bs)) == 0xdcbc_59fa
  {
    hide *;
    TestBufferFront(bs);
    TestSteps();
    assert bs[..13] == bs;
    OneMore(bs, 7, 0x4c22_d062, 66, 0x20f1_ac0e);
    OneMore(bs, 8, 0x20f1_ac0e, 117, 0xe831_0e9a);
    OneMore(bs, 9, 0xe831_0e9a, 102, 0xbec5_91ab);
    OneMore(bs, 10, 0xbec5_91ab, 102, 0x7c1b_af86);
    OneMore(bs, 11, 0x7c1b_af86, 101, 0xf01c_4041);
    OneMore(bs, 12, 0xf01c_4041, 114, 0x2343_a605);
    ValueOfRegister(bs, 0x2343_a605, 0xdcbc_59fa);
  }

  lemma {:induction false} TestBufferFront(bs: Bytes)
    requires |bs| >= 7 && bs[..7] == [84, 101, 115, 116, 67, 82, 67]
    ensures Register(bs[..7]) == AsWord(0x4c22_d062)
  {
    hide *;
    NothingRegistered();
    TestSteps();
    var front := bs[..7];
    assert front[..0] == [] && front[..7] == front;
    OneMore(front, 0, ONES, 84, 0x3b3d_e162);
    OneMore(front, 1, 0x3b3d_e162, 101, 0xd4f1_590a);
    OneMore(front, 2, 0xd4f1_590a, 115, 0x09fe_7e98);
    OneMore(front, 3, 0x09fe_7e98, 116, 0xae7a_99b4);
    OneMore(front, 4, 0xae7a_99b4, 67, 0x270a_7107);
    OneMore(front, 5, 0x270a_7107, 82, 0x64f3_c4be);
    OneMore(front, 6, 0x64f3_c4be, 67, 0x4c22_d062);
  }

  /** The register of the self test after each letter. */
  lemma {:induction false} TestSteps()
    ensures Byte(84) == 84 && DivideByte(XorWords(ONES, 84)) == 0x3b3d_e162
    ensures Byte(101) == 101 && DivideByte(XorWords(0x3b3d_e162, 101)) == 0xd4f1_590a
    ensures Byte(115) == 115 && DivideByte(XorWords(0xd4f1_590a, 115)) == 0x09fe_7e98
    ensures Byte(116) == 116 && DivideByte(XorWords(0x09fe_7e98, 116)) == 0xae7a_99b4
    ensures Byte(67) == 67 && DivideByte(XorWords(0xae7a_99b4, 67)) == 0x270a_7107
    ensures Byte(82) == 82 && DivideByte(XorWords(0x270a_7107, 82)) == 0x64f3_c4be
    ensures Byte(67) == 67 && DivideByte(XorWords(0x64f3_c4be, 67)) == 0x4c22_d062
    ensures Byte(66) == 66 && DivideByte(XorWords(0x4c22_d062, 66)) == 0x20f1_ac0e
    ensures Byte(117) == 117 && DivideByte(XorWords(0x20f1_ac0e, 117)) == 0xe831_0e9a
    ensures Byte(102) == 102 && DivideByte(XorWords(0xe831_0e9a, 102)) == 0xbec5_91ab
    ensures Byte(102) == 102 && DivideByte(XorWords(0xbec5_91ab, 102)) == 0x7c1b_af86
    ensures Byte(101) == 101 && DivideByte(XorWords(0x7c1b_af86, 101)) == 0xf01c_4041
    ensures Byte(114) == 114 && DivideByte(XorWords(0xf01c_4041, 114)) == 0x2343_a605
    ensures 0xdcbc59fa == XorWords(0x2343_a605, ONES) && ByBytes(0xdcbc_59fa) == 0xdcbc_59fa
  {
  }

  lemma {:induction false} OneMore(bs: Bytes, i: nat, v: bv32, c: bv32, w: bv32)
    requires i < |bs| && Register(bs[..i]) == AsWord(v)
    requires c < 256 && bs[i] == Byte(c) && w == DivideByte(XorWords(v, c))
    ensures Register(bs[..i + 1]) == AsWord(w)
  {
    hide *;
    NextRegister(bs[..i], v, c);
    assert bs[..i + 1] == bs[..i] + [bs[i]];
  }

  // ---------- the residue ----------

  lemma {:induction false} ValueOfConcat(a: Bits, b: Bits)
    ensures ValueOf(a + b) == ValueOf(a) + Pow2(|a|) * ValueOf(b)
  {
    if a == [] {
      assert a + b == b;
    } else {
      ValueOfConcat(a[1..], b);
      assert (a + b)[1..] == a[1..] + b;
      Double(Pow2(|a| - 1), ValueOf(b));
    }
  }

  /** A number written with its low byte first gives the bits of its word, eight at a time. */
  lemma {:induction false} FixedBits(w: Bits, n: nat)
    requires |w| == 8 * n
    ensures |Fixed(ValueOf(w), n)| == n
    ensures forall k :: 0 <= k < n ==> BitsOf(Fixed(ValueOf(w), n)[k], 8) == w[8 * k..8 * k + 8]
    decreases n
  {
    hide ValueOf, BitsOf;
    if n > 0 {
      var low, high := w[..8], w[8..];
      assert w == low + high && Pow2(8) == 2 * (2 * (2 * (2 * Pow2(4)))) == 256;
      ValueOfConcat(low, high);
      ValueBound(low);
      BitsOfValue(low);
      assert ValueOf(w) % 256 == ValueOf(low) && ValueOf(w) / 256 == ValueOf(high);
      FixedBits(high, n - 1);
      forall k | 0 <= k < n ensures BitsOf(Fixed(ValueOf(w), n)[k], 8) == w[8 * k..8 * k + 8] {
        if k > 0 {
          assert Fixed(ValueOf(w), n)[k] == Fixed(ValueOf(high), n - 1)[k - 1];
          assert high[8 * (k - 1)..8 * (k - 1) + 8] == w[8 * k..8 * k + 8];
        }
      }
    }
  }

  lemma {:induction false} OctetsOfWord(w: Word)
    ensures Octets(Fixed(ValueOf(w), 4)) == [w[..8], w[8..16], w[16..24], w[24..]]
  {
    hide ValueOf, BitsOf, Fixed;
    FixedBits(w, 4);
    var o := Octets(Fixed(ValueOf(w), 4));
    assert o[0] == w[8 * 0..8 * 0 + 8] && o[1] == w[8 * 1..8 * 1 + 8];
    assert o[2] == w[8 * 2..8 * 2 + 8] && o[3] == w[8 * 3..8 * 3 + 8] == w[24..];
    assert o == [o[0], o[1], o[2], o[3]];
  }

  /** Whatever the data, the checksum of the data with its checksum appended is the same
      number. */
  lemma {:induction false} Residue(data: Bytes)
    ensures ValueOf(Value(data + Fixed(ValueOf(Value(data)), 4))) == 0x4867_4bc7
  {
    hide Shift, Fold, Xor, LowBits, ValueOf, Fixed, Ones;
    var l, c := Register(data), Value(data);
    var sum := Fixed(ValueOf(c), 4);
    ValueIsComplement(data);
    OctetsOfWord(c);
    assert Octets(data + sum) == Octets(data) + Octets(sum);
    FoldConcat(Ones(), Octets(data), Octets(sum));
    assert c == c[..8] + c[8..16] + c[16..24] + c[24..];
    ShiftFour(l, c[..8], c[8..16], c[16..24], c[24..]);
    XorRegroup(l, l, Ones());
    XorSelf(l, Ones());
    OnesDivided();
    ValueOfRegister(data + sum, 0xb798_b438, 0x4867_4bc7);
  }

  lemma {:induction false} XorSelf(l: Word, o: Word)
    ensures Xor(l, Xor(l, o)) == o
  {
  }

  lemma {:induction false} OnesDivided()
    ensures Shift(Shift(Shift(Shift(Ones(), 8), 8), 8), 8) == AsWord(0xb798_b438)
  {
    hide Shift, LowBits, Divide, Ones;
    OnesWord();
    DivideByByte(ONES);
    ShiftDivides(ONES, 8);
    DivideByByte(0xad82_acae);
    ShiftDivides(0xad82_acae, 8);
    DivideByByte(0x0e9e_882d);
    ShiftDivides(0x0e9e_882d, 8);
    DivideByByte(0x9f9b_5c85);
    ShiftDivides(0x9f9b_5c85, 8);
    assert DivideByte(ONES) == 0xad82_acae && DivideByte(0xad82_acae) == 0x0e9e_882d;
    assert DivideByte(0x0e9e_882d) == 0x9f9b_5c85 && DivideByte(0x9f9b_5c85) == 0xb798_b438;
  }

  // ---------- the mask ----------

  /** Mask on numbers: rotated right by 15 bits, with the constant added. */
  lemma {:induction false} MaskRotates(crc: Word)
    ensures var v := ValueOf(crc); Mask(crc) == (v / 0x8000 + v % 0x8000 * 0x2_0000 + 0xa282_ead8) % TWO32
  {
    hide ValueOf, Pow2;
    var low, high := crc[..15], crc[15..];
    assert crc == low + high;
    ValueOfConcat(low, high);
    ValueOfConcat(high, low);
    ValueBound(low);
    MaskPowers();
    HighAndLow(ValueOf(low), ValueOf(high));
  }

  lemma {:induction false} HighAndLow(low: nat, high: nat)
    requires low < 0x8000
    ensures (low + 0x8000 * high) / 0x8000 == high && (low + 0x8000 * high) % 0x8000 == low
  {
  }

  lemma {:induction false} MaskPowers()
    ensures Pow2(15) == 0x8000 && Pow2(17) == 0x2_0000
  {
    assert Pow2(8) == 2 * (2 * (2 * (2 * Pow2(4)))) == 256 && Pow2(12) == 2 * (2 * (2 * (2 * Pow2(8)))) == 0x1000;
    assert Pow2(15) == 2 * (2 * (2 * Pow2(12))) == 0x8000 && Pow2(17) == 2 * (2 * Pow2(15)) == 0x2_0000;
  }
}

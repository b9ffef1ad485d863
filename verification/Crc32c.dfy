/** CRC-32C, section 12.1 of RFC 3720, bit by bit, byte by byte with a table, and four
    bytes at a time by slicing (util/crc32c.cc, util/crc32c.h).  A machine word is the
    sequence of its bits, least significant first, so that xor is bitwise, a right
    shift drops bits at the front, and a little-endian load is concatenation. */
module Crc32c {
  import Coding

  type Bits = seq<bool>

  function Zeros(n: nat): (r: Bits)
    ensures |r| == n
  {
    seq(n, _ => false)
  }

  function Xor(x: Bits, y: Bits): (r: Bits)
    requires |x| == |y|
    ensures |r| == |x|
  {
    seq(|x|, i requires 0 <= i < |x| => x[i] != y[i])
  }

  function ShiftRight(l: Bits, n: nat): (r: Bits)
    requires n <= |l|
    ensures |r| == |l|
  {
    l[n..] + Zeros(n)
  }

  /** The n low bits of v. */
  function BitsOf(v: nat, n: nat): (r: Bits)
    ensures |r| == n
  {
    if n == 0 then [] else [v % 2 == 1] + BitsOf(v / 2, n - 1)
  }

  function ValueOf(l: Bits): nat {
    if l == [] then 0 else (if l[0] then 1 else 0) + 2 * ValueOf(l[1..])
  }

  type Word = w: Bits | |w| == 32 witness Zeros(32)
  type Octet = w: Bits | |w| == 8 witness Zeros(8)

  /** The CRC-32C polynomial 0x82f63b78, reflected. */
  function Polynomial(): Word {
    BitsOf(0x82f6_3b78, 32)
  }

  function Ones(): Word {
    seq(32, _ => true)
  }

  /** Divide by x: one bit of the reflected register. */
  function Shift1(l: Word): Word {
    if l[0] then Xor(ShiftRight(l, 1), Polynomial()) else ShiftRight(l, 1)
  }

  function Shift(l: Word, n: nat): Word
    decreases n, l
  {
    if n == 0 then l else Shift(Shift1(l), n - 1)
  }

  /** A byte in the low end of a word. */
  function Low(b: Octet): Word {
    b + Zeros(24)
  }

  /** The reference: the message divided bit by bit. */
  function Fold(l: Word, data: seq<Octet>): Word
    decreases data
  {
    if data == [] then l else Fold(Shift(Xor(l, Low(data[0])), 8), data[1..])
  }

  function Crc(crc: Word, data: seq<Octet>): Word {
    Xor(Fold(Xor(crc, Ones()), data), Ones())
  }

  // ---------- the tables ----------

  /** table0_ as the polynomial determines it, and table1_ to table3_ by the zero-byte recurrence. */
  function Table0(c: Octet): Word {
    Shift(Low(c), 8)
  }

  function ZeroByte(l: Word): Word {
    Xor(Table0(l[..8]), ShiftRight(l, 8))
  }

  function Table1(c: Octet): Word {
    ZeroByte(Table0(c))
  }

  function Table2(c: Octet): Word {
    ZeroByte(Table1(c))
  }

  function Table3(c: Octet): Word {
    ZeroByte(Table2(c))
  }

  // ---------- division is linear ----------

  lemma {:induction false} Shift1Linear(x: Word, y: Word)
    ensures Shift1(Xor(x, y)) == Xor(Shift1(x), Shift1(y))
  {
    var l, r := Shift1(Xor(x, y)), Xor(Shift1(x), Shift1(y));
    assert forall i :: 0 <= i < 32 ==> l[i] == r[i];
  }

  lemma {:induction false} ShiftLinear(x: Word, y: Word, n: nat)
    ensures Shift(Xor(x, y), n) == Xor(Shift(x, n), Shift(y, n))
    decreases n
  {
    hide Xor, Shift1;
    if n > 0 {
      Shift1Linear(x, y);
      ShiftLinear(Shift1(x), Shift1(y), n - 1);
    }
  }

  /** Bits above the n low ones only move down. */
  lemma {:induction false} ShiftHighBits(l: Word, n: nat)
    requires n <= 32 && l[..n] == Zeros(n)
    ensures Shift(l, n) == ShiftRight(l, n)
    decreases n
  {
    if n == 0 {
      assert ShiftRight(l, 0) == l;
    } else {
      var s := Shift1(l);
      assert l[..n][0] == false;
      assert s[..n - 1] == Zeros(n - 1) by {
        assert forall i :: 0 <= i < n - 1 ==> s[i] == l[..n][i + 1];
      }
      ShiftHighBits(s, n - 1);
      assert ShiftRight(s, n - 1) == ShiftRight(l, n);
    }
  }

  /** The table-driven step divides by eight bits. */
  lemma {:induction false} ZeroByteIsShift(l: Word)
    ensures ZeroByte(l) == Shift(l, 8)
  {
    var low, high: Word := Low(l[..8]), Zeros(8) + l[8..];
    assert l == Xor(low, high);
    ShiftLinear(low, high, 8);
    assert high[..8] == Zeros(8);
    ShiftHighBits(high, 8);
    assert ShiftRight(high, 8) == ShiftRight(l, 8);
  }

  // ---------- the two steps of the loops ----------

  function Step1(l: Word, b: Octet): Word {
    Xor(Table0(Xor(l[..8], b)), ShiftRight(l, 8))
  }

  lemma {:induction false} Step1IsFold(l: Word, b: Octet)
    ensures Step1(l, b) == Shift(Xor(l, Low(b)), 8)
  {
    hide Xor, Low, Shift, ShiftRight;
    XorLow(l, b);
    ZeroByteIsShift(Xor(l, Low(b)));
  }

  /** A byte meets only the low byte of a word. */
  lemma {:induction false} XorLow(l: Word, b: Octet)
    ensures Xor(l, Low(b))[..8] == Xor(l[..8], b)
    ensures ShiftRight(Xor(l, Low(b)), 8) == ShiftRight(l, 8)
  {
    hide Shift, Shift1, Polynomial;
    var m: Word := Xor(l, Low(b));
    forall i | 0 <= i < 8 ensures m[..8][i] == Xor(l[..8], b)[i] {
      assert Low(b)[i] == b[i];
    }
    forall i | 8 <= i < 32 ensures m[i] == l[i] {
      assert !Low(b)[i];
    }
    assert m[8..] == l[8..];
  }

  function Step4(l: Word, b0: Octet, b1: Octet, b2: Octet, b3: Octet): Word {
    var c: Word := Xor(l, b0 + b1 + b2 + b3);
    Xor(Xor(Xor(Table3(c[..8]), Table2(c[8..16])), Table1(c[16..24])), Table0(c[24..]))
  }

  lemma {:induction false} XorRegroup(a: Word, b: Word, c: Word)
    ensures Xor(a, Xor(b, c)) == Xor(Xor(a, b), c)
  {
  }

  /** Dividing by eight takes the low byte through the table and moves the rest down. */
  lemma {:induction false} PeelByte(t: Word, c: Word)
    ensures Shift(Xor(t, c), 8) == Xor(Xor(ZeroByte(t), Table0(c[..8])), ShiftRight(c, 8))
  {
    ShiftLinear(t, c, 8);
    ZeroByteIsShift(t);
    ZeroByteIsShift(c);
    XorRegroup(ZeroByte(t), Table0(c[..8]), ShiftRight(c, 8));
  }

  lemma {:induction false} ZeroByteLinear(x: Word, y: Word)
    ensures ZeroByte(Xor(x, y)) == Xor(ZeroByte(x), ZeroByte(y))
  {
    ZeroByteIsShift(x);
    ZeroByteIsShift(y);
    ZeroByteIsShift(Xor(x, y));
    ShiftLinear(x, y, 8);
  }

  lemma {:induction false} ShiftRightTwice(c: Word, m: nat, n: nat)
    requires m + n <= 32
    ensures ShiftRight(ShiftRight(c, m), n) == ShiftRight(c, m + n)
    ensures m + n < 32 ==> ShiftRight(c, m)[..n] == c[m..m + n]
  {
  }

  /** Four divisions of a word are the four tables. */
  lemma {:induction false} TablesAreShift32(c: Word)
    ensures Shift(Shift(Shift(Shift(c, 8), 8), 8), 8) ==
            Xor(Xor(Xor(Table3(c[..8]), Table2(c[8..16])), Table1(c[16..24])), Table0(c[24..]))
  {
    var b0, b1, b2, b3 := c[..8], c[8..16], c[16..24], c[24..];
    ZeroByteIsShift(c);
    var t1 := Table0(b0);
    assert Shift(c, 8) == Xor(t1, ShiftRight(c, 8));
    PeelByte(t1, ShiftRight(c, 8));
    ShiftRightTwice(c, 8, 8);
    var t2 := Xor(Table1(b0), Table0(b1));
    assert Shift(Shift(c, 8), 8) == Xor(t2, ShiftRight(c, 16));
    PeelByte(t2, ShiftRight(c, 16));
    ShiftRightTwice(c, 16, 8);
    ZeroByteLinear(Table1(b0), Table0(b1));
    var t3 := Xor(Xor(Table2(b0), Table1(b1)), Table0(b2));
    assert Shift(Shift(Shift(c, 8), 8), 8) == Xor(t3, ShiftRight(c, 24));
    PeelByte(t3, ShiftRight(c, 24));
    ShiftRightTwice(c, 24, 8);
    assert ShiftRight(c, 24)[..8] == b3;
    ZeroByteLinear(Xor(Table2(b0), Table1(b1)), Table0(b2));
    ZeroByteLinear(Table2(b0), Table1(b1));
    var t4 := Xor(Xor(Xor(Table3(b0), Table2(b1)), Table1(b2)), Table0(b3));
    assert Xor(t4, ShiftRight(c, 32)) == t4;
  }

  /** Bits above the low byte pass through a division unchanged, eight places lower. */
  lemma {:induction false} ShiftCarries(x: Word, w: Bits)
    requires |w| == 24
    ensures Shift(Xor(x, Zeros(8) + w), 8) == Xor(Shift(x, 8), w + Zeros(8))
  {
    var high: Word := Zeros(8) + w;
    ShiftLinear(x, high, 8);
    assert high[..8] == Zeros(8);
    ShiftHighBits(high, 8);
    assert ShiftRight(high, 8) == w + Zeros(8);
  }

  /** One division of a register that still holds unread bytes: b is consumed, and `next`
      reaches the low end. */
  lemma {:induction false} Stage(l: Word, b: Octet, next: Octet, w: Bits)
    requires |w| == 16
    ensures Shift(Xor(Xor(l, Low(b)), Zeros(8) + (next + w)), 8) ==
            Xor(Xor(Shift(Xor(l, Low(b)), 8), Low(next)), Zeros(8) + (w + Zeros(8)))
  {
    ShiftCarries(Xor(l, Low(b)), next + w);
    LowBytePlusRest(next, w + Zeros(8));
    assert next + w + Zeros(8) == next + (w + Zeros(8));
    XorRegroup(Shift(Xor(l, Low(b)), 8), Low(next), Zeros(8) + (w + Zeros(8)));
  }

  lemma {:induction false} LowBytePlusRest(b: Octet, w: Bits)
    requires |w| == 24
    ensures b + w == Xor(Low(b), Zeros(8) + w)
  {
  }

  lemma {:induction false} XorZeros(x: Word)
    ensures Xor(x, Zeros(32)) == x
  {
  }

  lemma {:induction false} ShiftFour(l: Word, b0: Octet, b1: Octet, b2: Octet, b3: Octet)
    ensures Shift(Shift(Shift(Shift(Xor(l, b0 + b1 + b2 + b3), 8), 8), 8), 8) == Fold(l, [b0, b1, b2, b3])
  {
    hide Shift, Fold, Xor;
    var z := Zeros(8);
    var l1, l2, l3 := Shift(Xor(l, Low(b0)), 8), Fold(l, [b0, b1]), Fold(l, [b0, b1, b2]);
    FoldUnrolled(l, b0, b1, b2, b3);
    LowBytePlusRest(b0, b1 + (b2 + b3));
    assert b0 + b1 + b2 + b3 == b0 + (b1 + (b2 + b3));
    XorRegroup(l, Low(b0), z + (b1 + (b2 + b3)));
    Stage(l, b0, b1, b2 + b3);
    assert (b2 + b3) + z == b2 + (b3 + z);
    Stage(l1, b1, b2, b3 + z);
    assert (b3 + z) + z == b3 + (z + z);
    Stage(l2, b2, b3, z + z);
    assert z + ((z + z) + z) == Zeros(32);
    XorZeros(Xor(l3, Low(b3)));
  }

  lemma {:induction false} Step4IsFold(l: Word, b0: Octet, b1: Octet, b2: Octet, b3: Octet)
    ensures Step4(l, b0, b1, b2, b3) == Fold(l, [b0, b1, b2, b3])
  {
    TablesAreShift32(Xor(l, b0 + b1 + b2 + b3));
    ShiftFour(l, b0, b1, b2, b3);
  }

  lemma {:induction false} FoldUnrolled(l: Word, b0: Octet, b1: Octet, b2: Octet, b3: Octet)
    ensures Fold(l, [b0, b1]) == Shift(Xor(Shift(Xor(l, Low(b0)), 8), Low(b1)), 8)
    ensures Fold(l, [b0, b1, b2]) == Shift(Xor(Fold(l, [b0, b1]), Low(b2)), 8)
    ensures Fold(l, [b0, b1, b2, b3]) == Shift(Xor(Fold(l, [b0, b1, b2]), Low(b3)), 8)
  {
    FoldConcat(l, [b0], [b1]);
    FoldConcat(l, [b0, b1], [b2]);
    FoldConcat(l, [b0, b1, b2], [b3]);
    assert [b0] + [b1] == [b0, b1] && [b0, b1] + [b2] == [b0, b1, b2] && [b0, b1, b2] + [b3] == [b0, b1, b2, b3];
    OneByte(l, b0);
    OneByte(Fold(l, [b0]), b1);
    OneByte(Fold(l, [b0, b1]), b2);
    OneByte(Fold(l, [b0, b1, b2]), b3);
  }

  lemma {:induction false} OneByte(l: Word, b: Octet)
    ensures Fold(l, [b]) == Shift(Xor(l, Low(b)), 8)
  {
    assert [b][1..] == [];
  }

  lemma {:induction false} FoldConcat(l: Word, a: seq<Octet>, b: seq<Octet>)
    ensures Fold(l, a + b) == Fold(Fold(l, a), b)
    decreases a
  {
    if a == [] {
      assert a + b == b;
    } else {
      assert (a + b)[1..] == a[1..] + b;
      FoldConcat(Shift(Xor(l, Low(a[0])), 8), a[1..], b);
    }
  }

  // ---------- Extend ----------

  /** The four loops: up to an aligned address, sixteen bytes at a time, four at a time, and
      the rest.  Whatever the address of the buffer, the result is the bitwise division. */
  method Extend(crc: Word, data: seq<Octet>, address: nat) returns (r: Word)
    ensures r == Crc(crc, data)
  {
    hide Fold, Xor, Ones;
    var l: Word := Xor(crc, Ones());
    ghost var start := l;
    FoldNothing(start);
    var p, e := 0, |data|;
    var x := (address + 3) / 4 * 4 - address;
    if x <= e {
      while p != x
        invariant p <= x && l == Fold(start, data[..p])
        decreases x - p
      {
        l := StepByte(start, data, p, l);
        p := p + 1;
      }
    }
    while e - p >= 16
      invariant p <= e && l == Fold(start, data[..p])
    {
      l := StepWord(start, data, p, l);
      l := StepWord(start, data, p + 4, l);
      l := StepWord(start, data, p + 8, l);
      l := StepWord(start, data, p + 12, l);
      p := p + 16;
    }
    while e - p >= 4
      invariant p <= e && l == Fold(start, data[..p])
    {
      l := StepWord(start, data, p, l);
      p := p + 4;
    }
    while p != e
      invariant p <= e && l == Fold(start, data[..p])
      decreases e - p
    {
      l := StepByte(start, data, p, l);
      p := p + 1;
    }
    assert data[..p] == data;
    r := Xor(l, Ones());
  }

  lemma {:induction false} FoldNothing(l: Word)
    ensures Fold(l, []) == l
  {
  }

  method StepByte(ghost start: Word, data: seq<Octet>, p: nat, l: Word) returns (r: Word)
    requires p < |data| && l == Fold(start, data[..p])
    ensures r == Fold(start, data[..p + 1])
  {
    hide *;
    r := Step1(l, data[p]);
    Step1IsFold(l, data[p]);
    FoldConcat(start, data[..p], [data[p]]);
    assert data[..p + 1] == data[..p] + [data[p]];
    OneByte(l, data[p]);
  }

  method StepWord(ghost start: Word, data: seq<Octet>, p: nat, l: Word) returns (r: Word)
    requires p + 4 <= |data| && l == Fold(start, data[..p])
    ensures r == Fold(start, data[..p + 4])
  {
    hide *;
    r := Step4(l, data[p], data[p + 1], data[p + 2], data[p + 3]);
    Step4IsFold(l, data[p], data[p + 1], data[p + 2], data[p + 3]);
    var word := [data[p], data[p + 1], data[p + 2], data[p + 3]];
    FoldConcat(start, data[..p], word);
    assert data[..p + 4] == data[..p] + word;
  }

  /** Extending the CRC of a by b gives the CRC of both. */
  lemma {:induction false} CrcConcat(crc: Word, a: seq<Octet>, b: seq<Octet>)
    ensures Crc(Crc(crc, a), b) == Crc(crc, a + b)
  {
    FoldConcat(Xor(crc, Ones()), a, b);
    var l := Fold(Xor(crc, Ones()), a);
    assert Xor(Xor(l, Ones()), Ones()) == l;
  }

  // ---------- words as numbers ----------

  lemma {:induction false} ValueBound(l: Bits)
    ensures ValueOf(l) < Coding.Pow2(|l|)
  {
    if l != [] {
      ValueBound(l[1..]);
    }
  }

  lemma {:induction false} BitsOfValue(l: Bits)
    ensures BitsOf(ValueOf(l), |l|) == l
  {
    if l != [] {
      BitsOfValue(l[1..]);
      assert ValueOf(l) / 2 == ValueOf(l[1..]);
    }
  }

  lemma {:induction false} ValueOfBits(v: nat, n: nat)
    requires v < Coding.Pow2(n)
    ensures ValueOf(BitsOf(v, n)) == v
  {
    if n > 0 {
      ValueOfBits(v / 2, n - 1);
      assert BitsOf(v, n)[1..] == BitsOf(v / 2, n - 1);
    }
  }

  lemma {:induction false} PowersOfTwo()
    ensures Coding.Pow2(32) == Coding.TWO32
  {
    assert Coding.Pow2(8) == 2 * (2 * (2 * (2 * Coding.Pow2(4))));
    assert Coding.Pow2(16) == 2 * (2 * (2 * (2 * (2 * (2 * (2 * (2 * Coding.Pow2(8))))))));
    assert Coding.Pow2(24) == 2 * (2 * (2 * (2 * (2 * (2 * (2 * (2 * Coding.Pow2(16))))))));
    assert Coding.Pow2(32) == 2 * (2 * (2 * (2 * (2 * (2 * (2 * (2 * Coding.Pow2(24))))))));
  }

  // ---------- masking ----------

  const MASK_DELTA: nat := 0xa282_ead8

  /** Rotate right by 15 bits and add a constant, with 32-bit wrap-around. */
  function Mask(crc: Word): (r: nat)
    ensures r < Coding.TWO32
  {
    (ValueOf(crc[15..] + crc[..15]) + MASK_DELTA) % Coding.TWO32
  }

  function Unmask(masked: nat): Word {
    var rot := BitsOf((masked - MASK_DELTA) % Coding.TWO32, 32);
    rot[17..] + rot[..17]
  }

  lemma {:induction false} WrapAround(v: nat)
    requires v < Coding.TWO32
    ensures ((v + MASK_DELTA) % Coding.TWO32 - MASK_DELTA) % Coding.TWO32 == v
  {
  }

  lemma {:induction false} UnmaskMask(crc: Word)
    ensures Unmask(Mask(crc)) == crc
  {
    hide BitsOf, ValueOf, Coding.Pow2;
    var rotated := crc[15..] + crc[..15];
    assert rotated[17..] + rotated[..17] == crc;
    ValueBound(rotated);
    PowersOfTwo();
    WrapAround(ValueOf(rotated));
    BitsOfValue(rotated);
  }

  lemma {:induction false} MaskUnmask(masked: nat)
    requires masked < Coding.TWO32
    ensures Mask(Unmask(masked)) == masked
  {
    var v := (masked - MASK_DELTA) % Coding.TWO32;
    var rot := BitsOf(v, 32);
    assert Unmask(masked)[15..] + Unmask(masked)[..15] == rot;
    PowersOfTwo();
    ValueOfBits(v, 32);
  }

  // ---------- checksums of byte strings ----------

  function Octets(bs: Coding.Bytes): (r: seq<Octet>)
    ensures |r| == |bs|
  {
    seq(|bs|, i requires 0 <= i < |bs| => BitsOf(bs[i], 8))
  }

  /** Value: the checksum of a whole buffer. */
  function Value(bs: Coding.Bytes): Word {
    Crc(Zeros(32), Octets(bs))
  }

  method ComputeValue(bs: Coding.Bytes, address: nat) returns (r: Word)
    ensures r == Value(bs)
  {
    r := Extend(Zeros(32), Octets(bs), address);
  }

  /** A checksum may be computed in two pieces. */
  lemma {:induction false} ExtendValue(a: Coding.Bytes, b: Coding.Bytes)
    ensures Crc(Value(a), Octets(b)) == Value(a + b)
  {
    hide Crc, Octets;
    CrcConcat(Zeros(32), Octets(a), Octets(b));
    OctetsConcat(a, b);
  }

  lemma {:induction false} OctetsConcat(a: Coding.Bytes, b: Coding.Bytes)
    ensures Octets(a + b) == Octets(a) + Octets(b)
  {
    assert |Octets(a + b)| == |Octets(a) + Octets(b)|;
    forall i | 0 <= i < |a + b| ensures Octets(a + b)[i] == (Octets(a) + Octets(b))[i] {
    }
  }
}

/** The bloom filter (util/bloom.cc), over any hash function of 32 bits. */
module BloomFilters {
  import opened Coding

  // ---------- bits of a byte ----------

  /** b & (1 << i). */
  predicate Bit(b: nat, i: nat) {
    if i == 0 then b % 2 == 1 else Bit(b / 2, i - 1)
  }

  /** b | (1 << i). */
  function WithBit(b: nat, i: nat): (r: nat) {
    if i == 0 then b / 2 * 2 + 1 else WithBit(b / 2, i - 1) * 2 + b % 2
  }

  lemma {:induction false} WithBitSets(b: nat, i: nat, j: nat)
    ensures Bit(WithBit(b, i), j) <==> i == j || Bit(b, j)
  {
    if i > 0 && j > 0 {
      WithBitSets(b / 2, i - 1, j - 1);
    }
  }

  lemma {:induction false} WithBitFits(b: nat, i: nat, n: nat)
    requires i < n && b < Pow2(n)
    ensures WithBit(b, i) < Pow2(n)
  {
    var half := Pow2(n - 1);
    assert Pow2(n) == 2 * half;
    if i > 0 {
      WithBitFits(b / 2, i - 1, n - 1);
      var w := WithBit(b / 2, i - 1);
      assert w < half && WithBit(b, i) == w * 2 + b % 2;
    }
  }

  lemma {:induction false} NoBits(i: nat)
    ensures !Bit(0, i)
  {
    if i > 0 {
      NoBits(i - 1);
    }
  }

  /** The positions of the one bits. */
  ghost function Ones(bits: Bytes): set<nat> {
    set p | 0 <= p < 8 * |bits| && Bit(bits[p / 8], p % 8)
  }

  /** array[p / 8] |= 1 << (p % 8). */
  function SetBit(bits: Bytes, p: nat): (r: Bytes)
    requires p < 8 * |bits|
    ensures |r| == |bits| && Ones(r) == Ones(bits) + {p}
  {
    assert Pow2(8) == 256;
    WithBitFits(bits[p / 8], p % 8, 8);
    var r: Bytes := bits[p / 8 := WithBit(bits[p / 8], p % 8)];
    assert Ones(r) == Ones(bits) + {p} by {
      forall q: nat | q < 8 * |bits| ensures Bit(r[q / 8], q % 8) <==> q == p || Bit(bits[q / 8], q % 8) {
        if q / 8 == p / 8 {
          WithBitSets(bits[p / 8], p % 8, q % 8);
        }
      }
    }
    r
  }

  // ---------- the filter ----------

  /** bits_per_key_, k_ and the hash function. */
  datatype Policy = Policy(bitsPerKey: nat, probes: nat, hash: Bytes -> nat) {
    ghost predicate Valid() {
      1 <= probes <= 30
    }
  }

  /** Rotate a 32-bit word right by 17 bits. */
  function Rotate(h: nat): nat {
    h / 0x2_0000 + h % 0x2_0000 * 0x8000
  }

  function Hash(policy: Policy, key: Bytes): nat {
    policy.hash(key) % TWO32
  }

  function Position(h: nat, bits: nat): (r: nat)
    requires bits > 0
    ensures r < bits
  {
    h % bits
  }

  /** The positions that k probes look at. */
  ghost function Probed(h: nat, delta: nat, k: nat, bits: nat): set<nat>
    requires bits > 0
    decreases k
  {
    if k == 0 then {} else {Position(h, bits)} + Probed((h + delta) % TWO32, delta, k - 1, bits)
  }

  /** Probe j looks at h + j * delta, a 32-bit word, modulo the number of bits. */
  lemma {:induction false} ProbePositions(h: nat, delta: nat, k: nat, bits: nat, q: nat)
    requires bits > 0
    ensures q in Probed(h % TWO32, delta, k, bits) <==>
            exists j: nat :: j < k && q == (h + j * delta) % TWO32 % bits
    decreases k
  {
    if k > 0 {
      ProbePositions(h + delta, delta, k - 1, bits, q);
      AddedWord(h, delta);
      if j: nat :| j < k - 1 && q == (h + delta + j * delta) % TWO32 % bits {
        assert h + delta + j * delta == h + (j + 1) * delta;
        assert j + 1 < k && q == (h + (j + 1) * delta) % TWO32 % bits;
      }
      if q == h % TWO32 % bits {
        assert h + 0 * delta == h;
      }
      if j: nat :| j < k && q == (h + j * delta) % TWO32 % bits {
        if j > 0 {
          assert h + delta + (j - 1) * delta == h + j * delta;
          assert j - 1 < k - 1 && q == (h + delta + (j - 1) * delta) % TWO32 % bits;
        } else {
          assert h + 0 * delta == h;
        }
      }
    }
  }

  lemma {:induction false} AddedWord(h: nat, delta: nat)
    ensures (h % TWO32 + delta) % TWO32 == (h + delta) % TWO32
  {
    var q := h / TWO32;
    assert h == q * TWO32 + h % TWO32;
    assert h + delta == q * TWO32 + (h % TWO32 + delta);
  }

  /** Bits of a number made of a low and a high part. */
  lemma {:induction false} BitOfParts(low: nat, high: nat, k: nat, i: nat)
    requires low < Pow2(k)
    ensures Bit(low + Pow2(k) * high, i) <==> if i < k then Bit(low, i) else Bit(high, i - k)
    decreases k
  {
    if k > 0 {
      var v, half := low + Pow2(k) * high, Pow2(k - 1);
      assert Pow2(k) * high == 2 * (half * high);
      assert v % 2 == low % 2 && v / 2 == low / 2 + half * high;
      if i > 0 {
        BitOfParts(low / 2, high, k - 1, i - 1);
      }
    }
  }

  /** delta_ is h rotated right by 17 bits. */
  lemma {:induction false} RotateMoves(h: nat, i: nat)
    requires h < TWO32 && i < 32
    ensures Bit(Rotate(h), i) <==> Bit(h, (i + 17) % 32)
  {
    var low, high := h % 0x2_0000, h / 0x2_0000;
    BloomPowers();
    assert h == low + Pow2(17) * high && Rotate(h) == high + Pow2(15) * low && high < Pow2(15);
    BitOfParts(low, high, 17, (i + 17) % 32);
    BitOfParts(high, low, 15, i);
  }

  lemma {:induction false} BloomPowers()
    ensures Pow2(15) == 0x8000 && Pow2(17) == 0x2_0000
  {
    assert Pow2(8) == 2 * (2 * (2 * (2 * Pow2(4)))) == 256 && Pow2(12) == 2 * (2 * (2 * (2 * Pow2(8)))) == 0x1000;
    assert Pow2(15) == 2 * (2 * (2 * Pow2(12))) == 0x8000 && Pow2(17) == 2 * (2 * Pow2(15)) == 0x2_0000;
  }

  ghost function ProbesOf(policy: Policy, key: Bytes, k: nat, bits: nat): set<nat>
    requires bits > 0
  {
    Probed(Hash(policy, key), Rotate(Hash(policy, key)), k, bits)
  }

  ghost function AllProbes(policy: Policy, keys: seq<Bytes>, bits: nat): set<nat>
    requires bits > 0
  {
    if keys == [] then {}
    else AllProbes(policy, keys[..|keys| - 1], bits) + ProbesOf(policy, keys[|keys| - 1], policy.probes, bits)
  }

  lemma {:induction false} ProbesIncluded(policy: Policy, keys: seq<Bytes>, i: nat, bits: nat)
    requires bits > 0 && i < |keys|
    ensures ProbesOf(policy, keys[i], policy.probes, bits) <= AllProbes(policy, keys, bits)
  {
    if i < |keys| - 1 {
      assert keys[..|keys| - 1][i] == keys[i];
      ProbesIncluded(policy, keys[..|keys| - 1], i, bits);
    }
  }

  /** At least 64 bits, in whole bytes. */
  function FilterBytes(policy: Policy, n: nat): (r: nat)
    ensures r >= 8
  {
    ((if n * policy.bitsPerKey < 64 then 64 else n * policy.bitsPerKey) + 7) / 8
  }

  /** The filter of a list of keys: its ones are the probes of the keys, and it ends with k. */
  ghost predicate FilterOf(policy: Policy, keys: seq<Bytes>, filter: Bytes) {
    && |filter| == FilterBytes(policy, |keys|) + 1 && filter[|filter| - 1] == policy.probes
    && Ones(filter[..|filter| - 1]) == AllProbes(policy, keys, 8 * (|filter| - 1))
  }

  /** When a filter may hold a key: it is of an unknown kind, or all the key's probes are ones. */
  ghost predicate MayHold(policy: Policy, key: Bytes, filter: Bytes) {
    |filter| >= 2 &&
    var k := filter[|filter| - 1];
    k <= 30 ==> ProbesOf(policy, key, k, 8 * (|filter| - 1)) <= Ones(filter[..|filter| - 1])
  }

  lemma {:induction false} NoFalseNegatives(policy: Policy, keys: seq<Bytes>, key: Bytes, filter: Bytes)
    requires FilterOf(policy, keys, filter) && key in keys
    ensures MayHold(policy, key, filter)
  {
    var i :| 0 <= i < |keys| && keys[i] == key;
    ProbesIncluded(policy, keys, i, 8 * (|filter| - 1));
  }

  /** CreateFilter appends the filter to dst. */
  method CreateFilter(policy: Policy, keys: seq<Bytes>, dst: Bytes) returns (r: Bytes)
    requires policy.Valid()
    ensures |r| >= |dst| && r[..|dst|] == dst && FilterOf(policy, keys, r[|dst|..])
  {
    hide FilterOf, Ones, AllProbes;
    var bits: nat := |keys| * policy.bitsPerKey;
    if bits < 64 {
      bits := 64;
    }
    var bytes: nat := (bits + 7) / 8;
    bits := bytes * 8;
    var filter: Bytes := seq(bytes, _ => 0);
    NoOnes(policy, keys, bytes);
    for i := 0 to |keys|
      invariant |filter| == bytes && Ones(filter) == AllProbes(policy, keys[..i], bits)
    {
      NextProbes(policy, keys, i, bits);
      filter := AddProbes(policy, keys[i], filter);
    }
    assert keys[..|keys|] == keys;
    FilterMade(policy, keys, filter);
    r := dst + (filter + [policy.probes]);
    assert r[|dst|..] == filter + [policy.probes];
  }

  lemma {:induction false} FilterMade(policy: Policy, keys: seq<Bytes>, filter: Bytes)
    requires |filter| == FilterBytes(policy, |keys|) && Ones(filter) == AllProbes(policy, keys, 8 * |filter|)
    requires policy.Valid()
    ensures FilterOf(policy, keys, filter + [policy.probes])
  {
    hide Ones, AllProbes, FilterBytes;
    assert (filter + [policy.probes])[..|filter|] == filter;
  }

  lemma {:induction false} NoOnes(policy: Policy, keys: seq<Bytes>, bytes: nat)
    requires policy.Valid() && bytes > 0
    ensures Ones(seq(bytes, _ => 0)) == {} == AllProbes(policy, keys[..0], 8 * bytes)
  {
    var filter: Bytes := seq(bytes, _ => 0);
    forall p: nat | p < 8 * bytes ensures !Bit(filter[p / 8], p % 8) {
      NoBits(p % 8);
    }
  }

  lemma {:induction false} NextProbes(policy: Policy, keys: seq<Bytes>, i: nat, bits: nat)
    requires i < |keys| && bits > 0
    ensures AllProbes(policy, keys[..i + 1], bits) ==
            AllProbes(policy, keys[..i], bits) + ProbesOf(policy, keys[i], policy.probes, bits)
  {
    hide ProbesOf;
    assert keys[..i + 1][..i] == keys[..i];
  }

  /** The inner loop of CreateFilter. */
  method AddProbes(policy: Policy, key: Bytes, filter: Bytes) returns (r: Bytes)
    requires |filter| > 0
    ensures |r| == |filter| && Ones(r) == Ones(filter) + ProbesOf(policy, key, policy.probes, 8 * |filter|)
  {
    hide Ones, Position, SetBit, Rotate;
    r := filter;
    var h: nat := Hash(policy, key);
    var delta := Rotate(h);
    var bits := 8 * |filter|;
    for j := 0 to policy.probes
      invariant |r| == |filter|
      invariant Ones(r) + Probed(h, delta, policy.probes - j, bits) == Ones(filter)
                + ProbesOf(policy, key, policy.probes, bits)
    {
      r := SetBit(r, Position(h, bits));
      h := (h + delta) % TWO32;
    }
  }

  method KeyMayMatch(policy: Policy, key: Bytes, filter: Bytes) returns (r: bool)
    ensures r <==> MayHold(policy, key, filter)
  {
    hide Position, Rotate, Bit;
    if |filter| < 2 {
      return false;
    }
    var bitmap := filter[..|filter| - 1];
    var bits := 8 * |bitmap|;
    var k: nat := filter[|filter| - 1];
    if k > 30 {
      return true;
    }
    var h: nat := Hash(policy, key);
    var delta := Rotate(h);
    for j := 0 to k
      invariant ProbesOf(policy, key, k, bits) <= Ones(bitmap) <==> Probed(h, delta, k - j, bits) <= Ones(bitmap)
    {
      var p := Position(h, bits);
      assert p in Ones(bitmap) <==> Bit(bitmap[p / 8], p % 8);
      if !Bit(bitmap[p / 8], p % 8) {
        return false;
      }
      h := (h + delta) % TWO32;
    }
    r := true;
  }
}

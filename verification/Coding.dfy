/** Fixed-width and varint encodings (util/coding.cc, util/coding.h). */
module Coding {
  import opened Wrappers

  type byte = n: nat | n < 256
  type Bytes = seq<byte>

  const TWO32: nat := 0x1_0000_0000
  const TWO64: nat := 0x1_0000_0000_0000_0000

  // ---------- fixed width, little endian ----------

  /** The n low-order bytes of v, least significant first. */
  function Fixed(v: nat, n: nat): (r: Bytes)
    ensures |r| == n
  {
    if n == 0 then [] else [v % 256] + Fixed(v / 256, n - 1)
  }

  function Unfixed(bs: Bytes): nat {
    if bs == [] then 0 else bs[0] + 256 * Unfixed(bs[1..])
  }

  function Pow2(n: nat): (r: nat)
    ensures r > 0
  {
    if n == 0 then 1 else 2 * Pow2(n - 1)
  }

  function Pow256(n: nat): (r: nat)
    ensures r > 0
  {
    if n == 0 then 1 else 256 * Pow256(n - 1)
  }

  lemma {:induction false} FixedRoundTrip(v: nat, n: nat)
    requires v < Pow256(n)
    ensures Unfixed(Fixed(v, n)) == v
  {
    if n > 0 {
      FixedRoundTrip(v / 256, n - 1);
      assert Fixed(v, n)[1..] == Fixed(v / 256, n - 1);
    }
  }

  lemma {:induction false} UnfixedBound(bs: Bytes)
    ensures Unfixed(bs) < Pow256(|bs|)
  {
    if bs != [] {
      UnfixedBound(bs[1..]);
    }
  }

  lemma {:induction false} PowersOf256()
    ensures Pow256(2) == 65536 && Pow256(4) == TWO32 && Pow256(8) == TWO64
  {
    assert Pow256(4) == 256 * (256 * (256 * Pow256(1)));
    assert Pow256(8) == 256 * (256 * (256 * (256 * Pow256(4))));
  }

  // ---------- varints ----------

  /** Seven bits a byte, least significant first, with the high bit set on all but the last. */
  function Varint(v: nat): (r: Bytes)
    ensures |r| > 0
  {
    if v < 128 then [v] else [v % 128 + 128] + Varint(v / 128)
  }

  /** A varint of at most n bytes at the front of the input: its value and its length. */
  function ParseVarint(bs: Bytes, n: nat): (r: Option<(nat, nat)>)
    ensures r.Some? ==> 0 < r.value.1 <= n && r.value.1 <= |bs|
  {
    if n == 0 || bs == [] then None
    else if bs[0] < 128 then Some((bs[0], 1))
    else
      match ParseVarint(bs[1..], n - 1)
      case None => None
      case Some(p) => Some((bs[0] % 128 + 128 * p.0, p.1 + 1))
  }

  function Pow128(n: nat): (r: nat)
    ensures r > 0
  {
    if n == 0 then 1 else 128 * Pow128(n - 1)
  }

  lemma {:induction false} PowersOf128()
    ensures TWO32 <= Pow128(5) && TWO64 <= Pow128(10)
  {
    assert Pow128(5) == 128 * (128 * (128 * (128 * Pow128(1))));
    assert Pow128(10) == 128 * (128 * (128 * (128 * (128 * Pow128(5)))));
  }

  lemma {:induction false} VarintRoundTrip(v: nat, n: nat, rest: Bytes)
    requires n > 0 && v < Pow128(n)
    ensures ParseVarint(Varint(v) + rest, n) == Some((v, |Varint(v)|))
  {
    assert Pow128(0) == 1;
    var bs := Varint(v) + rest;
    if v >= 128 {
      VarintRoundTrip(v / 128, n - 1, rest);
      assert bs[1..] == Varint(v / 128) + rest;
    }
  }

  /** VarintLength counts the bytes Varint produces. */
  method VarintLength(v: nat) returns (len: nat)
    ensures len == |Varint(v)|
  {
    len := 1;
    var w := v;
    while w >= 128
      invariant len - 1 + |Varint(w)| == |Varint(v)|
    {
      w := w / 128;
      len := len + 1;
    }
  }

  method PutVarint32(dst: Bytes, v: nat) returns (r: Bytes)
    requires v < TWO32
    ensures r == dst + Varint(v)
  {
    var v1, v2, v3 := v / 128, v / 128 / 128, v / 128 / 128 / 128;
    if v < 128 {
      r := dst + [v];
    } else if v < 0x4000 {
      r := dst + [v % 128 + 128, v1];
    } else if v < 0x20_0000 {
      r := dst + [v % 128 + 128, v1 % 128 + 128, v2];
      VarintStep(v1);
    } else if v < 0x1000_0000 {
      r := dst + [v % 128 + 128, v1 % 128 + 128, v2 % 128 + 128, v3];
      VarintStep(v1);
      VarintStep(v2);
    } else {
      r := dst + [v % 128 + 128, v1 % 128 + 128, v2 % 128 + 128, v3 % 128 + 128, v3 / 128];
      VarintStep(v1);
      VarintStep(v2);
      VarintStep(v3);
    }
  }

  lemma {:induction false} VarintStep(v: nat)
    requires v >= 128
    ensures Varint(v) == [v % 128 + 128] + Varint(v / 128)
  {
  }

  method PutVarint64(dst: Bytes, v: nat) returns (r: Bytes)
    requires v < TWO64
    ensures r == dst + Varint(v)
  {
    r := dst;
    var w := v;
    while w >= 128
      invariant r + Varint(w) == dst + Varint(v)
    {
      r := r + [w % 128 + 128];
      w := w / 128;
    }
    r := r + [w];
  }

  /** What GetVarint32 and GetVarint64 read: at most maxBytes bytes, with the sum kept to `modulus`. */
  function GetVarint(input: Bytes, maxBytes: nat, modulus: nat): Option<(nat, Bytes)>
    requires modulus > 0
  {
    match ParseVarint(input, maxBytes)
    case None => None
    case Some(p) => Some((p.0 % modulus, input[p.1..]))
  }

  function GetVarint32(input: Bytes): Option<(nat, Bytes)> {
    GetVarint(input, 5, TWO32)
  }

  function GetVarint64(input: Bytes): Option<(nat, Bytes)> {
    GetVarint(input, 10, TWO64)
  }

  lemma {:induction false} GetVarint32Of(v: nat, rest: Bytes)
    requires v < TWO32
    ensures GetVarint32(Varint(v) + rest) == Some((v, rest))
  {
    PowersOf128();
    VarintRoundTrip(v, 5, rest);
    assert (Varint(v) + rest)[|Varint(v)|..] == rest;
  }

  lemma {:induction false} GetVarint64Of(v: nat, rest: Bytes)
    requires v < TWO64
    ensures GetVarint64(Varint(v) + rest) == Some((v, rest))
  {
    PowersOf128();
    VarintRoundTrip(v, 10, rest);
    assert (Varint(v) + rest)[|Varint(v)|..] == rest;
  }

  /** A varint whose first p bytes have been read into `sum`, and the rest parsed as `q`. */
  function Resumed(sum: nat, scale: nat, p: nat, q: Option<(nat, nat)>): Option<(nat, nat)> {
    match q
    case None => None
    case Some(x) => Some((sum + scale * x.0, p + x.1))
  }

  lemma {:induction false} ResumedStep(input: Bytes, p: nat, n: nat, sum: nat, scale: nat)
    requires p < |input| && p < n && input[p] >= 128
    ensures Resumed(sum, scale, p, ParseVarint(input[p..], n - p)) ==
            Resumed(sum + scale * (input[p] % 128), 128 * scale, p + 1, ParseVarint(input[p + 1..], n - (p + 1)))
  {
    assert input[p..][1..] == input[p + 1..];
    var q := ParseVarint(input[p + 1..], n - (p + 1));
    if q.Some? {
      Regroup(sum, scale, input[p] % 128, q.value.0);
    }
  }

  /** The pointer loop of GetVarint32PtrFallback and GetVarint64Ptr. */
  method GetVarintLoop(input: Bytes, maxBytes: nat, modulus: nat) returns (r: Option<(nat, Bytes)>)
    requires modulus > 0
    ensures r == GetVarint(input, maxBytes, modulus)
  {
    hide ParseVarint, Pow128;
    var result: nat, p: nat, scale: nat := 0, 0, 1;
    assert input[p..] == input;
    while p < maxBytes && p < |input|
      invariant p <= maxBytes && p <= |input|
      invariant ParseVarint(input, maxBytes) == Resumed(result, scale, p, ParseVarint(input[p..], maxBytes - p))
    {
      var byte := input[p];
      if byte < 128 {
        LastByte(input[p..], maxBytes - p);
        return Some(((result + scale * byte) % modulus, input[p + 1..]));
      }
      ResumedStep(input, p, maxBytes, result, scale);
      result := result + scale * (byte % 128);
      scale := 128 * scale;
      p := p + 1;
    }
    NoByte(input[p..], maxBytes - p);
    return None;
  }

  lemma {:induction false} LastByte(bs: Bytes, n: nat)
    requires n > 0 && bs != [] && bs[0] < 128
    ensures ParseVarint(bs, n) == Some((bs[0], 1))
  {
  }

  lemma {:induction false} NoByte(bs: Bytes, n: nat)
    requires n == 0 || bs == []
    ensures ParseVarint(bs, n) == None
  {
  }

  lemma {:induction false} Regroup(a: nat, s: nat, b: nat, v: nat)
    ensures a + s * (b + 128 * v) == (a + s * b) + (128 * s) * v
  {
  }

  // ---------- length-prefixed strings ----------

  function LengthPrefixed(s: Bytes): Bytes {
    Varint(|s|) + s
  }

  /** GetLengthPrefixedSlice: the string and what follows it. */
  function GetLengthPrefixed(input: Bytes): Option<(Bytes, Bytes)> {
    match GetVarint32(input)
    case None => None
    case Some(p) => if |p.1| >= p.0 then Some((p.1[..p.0], p.1[p.0..])) else None
  }

  lemma {:induction false} GetLengthPrefixedOf(s: Bytes, rest: Bytes)
    requires |s| < TWO32
    ensures GetLengthPrefixed(LengthPrefixed(s) + rest) == Some((s, rest))
  {
    assert LengthPrefixed(s) + rest == Varint(|s|) + (s + rest);
    GetVarint32Of(|s|, s + rest);
  }
}

/** Nanopb's input stream and the basic decoders (nanopb/pb_decode.c). */
module NanopbStreams {
  import opened Wrappers
  import opened Coding
  import opened NanopbEncoding

  /** pb_istream_t over a buffer: the bytes it may still give. */
  class IStream {
    var left: Bytes

    constructor (left: Bytes)
      ensures this.left == left
    {
      this.left := left;
    }

    /** pb_read. */
    method Read(count: nat) returns (ok: bool, bytes: Bytes)
      modifies this
      ensures ok <==> count <= |old(left)|
      ensures ok ==> bytes == old(left)[..count] && left == old(left)[count..]
      ensures !ok ==> left == old(left)
    {
      if |left| < count {
        return false, [];
      }
      bytes := left[..count];
      left := left[count..];
      ok := true;
    }

    method ReadByte() returns (ok: bool, b: byte)
      modifies this
      ensures ok <==> old(left) != []
      ensures ok ==> b == old(left)[0] && left == old(left)[1..]
      ensures !ok ==> left == old(left)
    {
      if left == [] {
        return false, 0;
      }
      b := left[0];
      left := left[1..];
      ok := true;
    }

    /** pb_decode_varint32: the register keeps 32 bits. */
    method DecodeVarint32() returns (ok: bool, value: nat)
      modifies this
      ensures |left| <= |old(left)|
      ensures match GetVarint32(old(left))
              case None => !ok && (left == [] <==> |old(left)| <= 5)
              case Some(r) => ok && value == r.0 && left == r.1 && |left| < |old(left)|
    {
      hide ParseVarint, Pow128, Resumed, WithGroup;
      ghost var input := left;
      var b;
      ok, b := ReadByte();
      assert input[0..] == input;
      NothingRead(input, 5);
      if !ok {
        return false, 0;
      }
      GroupRead(input, 0, 5, 0, 1);
      var result: nat := b as nat;
      if b >= 128 {
        result := b as nat % 128;
        var bitpos, scale: nat := 7, 128;
        ghost var p := 1;
        var again := true;
        while again
          invariant 1 <= p <= 5 && p <= |input| && left == input[p..] && bitpos == 7 * p
          invariant again ==>
                      ParseVarint(input, 5) == Resumed(result, scale, p, ParseVarint(input[p..], 5 - p))
          invariant !again ==> ParseVarint(input, 5) == Some((result, p))
          decreases 5 - p, again
        {
          if bitpos >= 32 {
            VarintCut(input, p, 5, result, scale);
            return false, 0;
          }
          ok, b := ReadByte();
          if !ok {
            VarintCut(input, p, 5, result, scale);
            return false, 0;
          }
          GroupRead(input, p, 5, result, scale);
          result := WithGroup(result, scale, b);
          scale := 128 * scale;
          bitpos := bitpos + 7;
          p := p + 1;
          again := b >= 128;
        }
      }
      value := result % TWO32;
    }

    /** pb_decode_varint: the register keeps 64 bits. */
    method DecodeVarint() returns (ok: bool, value: nat)
      modifies this
      ensures |left| <= |old(left)|
      ensures match GetVarint64(old(left))
              case None => !ok
              case Some(r) => ok && value == r.0 && left == r.1 && |left| < |old(left)|
    {
      hide ParseVarint, Pow128, Resumed, WithGroup;
      ghost var input := left;
      assert input[0..] == input;
      NothingRead(input, 10);
      var b;
      var result: nat, bitpos: nat, scale: nat := 0, 0, 1;
      ghost var p := 0;
      var again := true;
      while again
        invariant p <= 10 && p <= |input| && left == input[p..] && bitpos == 7 * p && (!again ==> p > 0)
        invariant again ==> ParseVarint(input, 10) == Resumed(result, scale, p, ParseVarint(input[p..], 10 - p))
        invariant !again ==> ParseVarint(input, 10) == Some((result, p))
        decreases 10 - p, again
      {
        if bitpos >= 64 {
          VarintCut(input, p, 10, result, scale);
          return false, 0;
        }
        ok, b := ReadByte();
        if !ok {
          VarintCut(input, p, 10, result, scale);
          return false, 0;
        }
        GroupRead(input, p, 10, result, scale);
        result := WithGroup(result, scale, b);
        scale := 128 * scale;
        bitpos := bitpos + 7;
        p := p + 1;
        again := b >= 128;
      }
      ok, value := true, result % TWO64;
    }

    /** pb_decode_tag.  A zero byte or the end of the data ends the message. */
    method DecodeTag() returns (ok: bool, wireType: nat, tag: nat, eof: bool)
      modifies this
      ensures |left| <= |old(left)| && (ok ==> |left| < |old(left)|)
      ensures match GetVarint32(old(left))
              case None => !ok && (eof <==> |old(left)| <= 5)
              case Some(r) =>
                && left == r.1 && (ok <==> r.0 != 0) && (!ok ==> eof)
                && (ok ==> tag == r.0 / 8 && wireType == r.0 % 8 && !eof)
    {
      var temp;
      wireType, tag, eof := 0, 0, false;
      ok, temp := DecodeVarint32();
      if !ok {
        eof := left == [];
        return;
      }
      if temp == 0 {
        return false, 0, 0, true;
      }
      tag, wireType := temp / 8, temp % 8;
    }

    /** pb_skip_field. */
    method SkipField(wireType: nat) returns (ok: bool)
      modifies this
      ensures |left| <= |old(left)|
      ensures match Skipped(wireType, old(left))
              case None => !ok
              case Some(rest) => ok && left == rest
    {
      hide GetVarint32;
      var skipped;
      if wireType == WT_VARINT {
        var b := 128;
        while b >= 128
          invariant |left| <= |old(left)|
          invariant AfterVarint(old(left)) == if b >= 128 then AfterVarint(left) else Some(left)
          decreases |left|, b
        {
          ok, b := ReadByte();
          if !ok {
            return;
          }
        }
        ok := true;
      } else if wireType == WT_64BIT {
        ok, skipped := Read(8);
      } else if wireType == WT_STRING {
        var length;
        ok, length := DecodeVarint32();
        if ok {
          ok, skipped := Read(length);
        }
      } else if wireType == WT_32BIT {
        ok, skipped := Read(4);
      } else {
        ok := false;
      }
    }

    /** pb_make_string_substream: a stream limited to the length read. */
    method MakeSubstream() returns (ok: bool, substream: IStream)
      modifies this
      ensures |left| <= |old(left)| && fresh(substream)
      ensures match GetVarint32(old(left))
              case None => !ok
              case Some(r) =>
                && (ok <==> r.0 <= |r.1|)
                && (ok ==> substream.left == r.1[..r.0] && left == r.1[r.0..] && |left| < |old(left)|)
    {
      var size;
      substream := new IStream([]);
      ok, size := DecodeVarint32();
      if !ok {
        return;
      }
      if |left| < size {
        return false, substream;
      }
      substream := new IStream(left[..size]);
      left := left[size..];
    }
  }

  /** A length-prefixed body at the front of a stream. */
  lemma {:induction false} BodyAhead(body: Bytes, tail: Bytes)
    requires |body| < TWO32
    ensures var r := GetVarint32(LengthPrefixed(body) + tail);
            r.Some? && r.value.0 == |body| && r.value.1 == body + tail
            && r.value.1[..|body|] == body && r.value.1[|body|..] == tail
  {
    assert LengthPrefixed(body) + tail == Varint(|body|) + (body + tail);
    GetVarint32Of(|body|, body + tail);
  }

  /** A field's key at the front of a stream. */
  lemma {:induction false} KeyAhead(tag: nat, wireType: nat, tail: Bytes)
    requires tag < 0x2000_0000 && wireType < 8
    ensures var r := GetVarint32(Key(tag, wireType) + tail);
            r.Some? && r.value.0 / 8 == tag && r.value.0 % 8 == wireType && r.value.1 == tail
            && (tag > 0 ==> r.value.0 != 0)
  {
    GetVarint32Of(tag * 8 + wireType, tail);
  }

  /** The number read so far with the seven bits of one more byte. */
  function WithGroup(sum: nat, scale: nat, b: byte): nat {
    sum + scale * (b as nat % 128)
  }

  lemma {:induction false} NothingRead(input: Bytes, n: nat)
    ensures ParseVarint(input, n) == Resumed(0, 1, 0, ParseVarint(input, n))
    ensures input == [] ==> ParseVarint(input, n) == None
  {
  }

  lemma {:induction false} VarintCut(input: Bytes, p: nat, n: nat, sum: nat, scale: nat)
    requires p == |input| <= n || p == n <= |input|
    ensures Resumed(sum, scale, p, ParseVarint(input[p..], n - p)) == None
  {
  }

  lemma {:induction false} GroupRead(input: Bytes, p: nat, n: nat, sum: nat, scale: nat)
    requires p < |input| && p < n
    ensures var r := WithGroup(sum, scale, input[p]);
            Resumed(sum, scale, p, ParseVarint(input[p..], n - p)) ==
            if input[p] < 128 then Some((r, p + 1))
            else Resumed(r, 128 * scale, p + 1, ParseVarint(input[p + 1..], n - (p + 1)))
    ensures WithGroup(0, 1, input[p]) == input[p] as nat % 128
  {
    if input[p] < 128 {
      LastByte(input[p..], n - p);
    } else {
      ResumedStep(input, p, n, sum, scale);
    }
  }

  // ---------- skipping ----------

  /** What follows a varint of any length. */
  function AfterVarint(bs: Bytes): Option<Bytes> {
    if bs == [] then None else if bs[0] < 128 then Some(bs[1..]) else AfterVarint(bs[1..])
  }

  function AfterBytes(bs: Bytes, count: nat): Option<Bytes> {
    if count <= |bs| then Some(bs[count..]) else None
  }

  /** What pb_skip_field leaves, from the wire type alone. */
  function Skipped(wireType: nat, bs: Bytes): Option<Bytes> {
    if wireType == WT_VARINT then AfterVarint(bs)
    else if wireType == WT_64BIT then AfterBytes(bs, 8)
    else if wireType == WT_STRING then
      match GetVarint32(bs)
      case None => None
      case Some(r) => AfterBytes(r.1, r.0)
    else if wireType == WT_32BIT then AfterBytes(bs, 4)
    else None
  }

  /** A value of any field is skipped whole, whatever the reader knows about the field. */
  lemma {:induction false} SkipsWhole(v: nat, body: Bytes, tail: Bytes)
    requires |body| < TWO32
    ensures Skipped(WT_VARINT, Varint(v) + tail) == Some(tail)
    ensures Skipped(WT_STRING, LengthPrefixed(body) + tail) == Some(tail)
    ensures |body| == 4 ==> Skipped(WT_32BIT, body + tail) == Some(tail)
    ensures |body| == 8 ==> Skipped(WT_64BIT, body + tail) == Some(tail)
  {
    VarintSkipped(v, tail);
    BodyAhead(body, tail);
    assert (body + tail)[|body|..] == tail;
  }

  lemma {:induction false} VarintSkipped(v: nat, tail: Bytes)
    ensures AfterVarint(Varint(v) + tail) == Some(tail)
  {
    if v >= 128 {
      VarintSkipped(v / 128, tail);
      assert (Varint(v) + tail)[1..] == Varint(v / 128) + tail;
    }
  }
}

/** The byte formats in numbers: which bytes stand where, for the formats whose readers and
    writers are proved against each other elsewhere. */
module FormatNumbers {
  import opened Coding
  import Crc32c
  import LogFormat
  import LogScans
  import WriteBatches
  import VersionEdits
  import TableFormat
  import Comparators
  import NanopbMessages
  import NanopbEncoding

  // ---------- numbers ----------

  /** Little-endian (util/coding.cc). */
  lemma {:induction false} FixedLayout(v: nat)
    ensures Fixed(v, 2) == [v % 256, v / 256 % 256]
    ensures Fixed(v, 4) == [v % 256, v / 256 % 256, v / 256 / 256 % 256, v / 256 / 256 / 256 % 256]
    ensures Fixed(v, 8) == Fixed(v, 4) + Fixed(v / 256 / 256 / 256 / 256, 4)
  {
    var a, b, c := v / 256, v / 256 / 256, v / 256 / 256 / 256;
    var d := c / 256;
    assert Fixed(d, 0) == [] && Fixed(c, 1) == [c % 256];
    assert Fixed(b, 2) == [b % 256] + Fixed(c, 1) && Fixed(a, 1) == [a % 256] && Fixed(a, 3) == [a % 256] + Fixed(b, 2);
    assert Fixed(c, 5) == [c % 256] + Fixed(d, 4) && Fixed(b, 6) == [b % 256] + Fixed(c, 5);
    assert Fixed(a, 7) == [a % 256] + Fixed(b, 6) && Fixed(v, 8) == [v % 256] + Fixed(a, 7);
  }

  /** Seven bits in a byte, the low ones first, with the top bit when more follow. */
  lemma {:induction false} VarintLayout(v: nat)
    ensures v < 0x80 ==> Varint(v) == [v]
    ensures 0x80 <= v < 0x4000 ==> Varint(v) == [v % 128 + 128, v / 128]
  {
  }

  // ---------- the log ----------

  /** Checksum, length and type in front of the payload (db/log_format.h). */
  lemma {:induction false} LogRecordLayout(kind: LogFormat.RecordType, payload: Bytes)
    requires |payload| <= 0xffff
    ensures var p := LogFormat.Physical(kind, payload);
            && |p| == 7 + |payload| && p[7..] == payload
            && Unfixed(p[..4]) == Crc32c.Mask(Crc32c.Value([p[6]] + payload))
            && p[4] == |payload| % 256 && p[5] == |payload| / 256
            && p[6] == if kind.Full? then 1 else if kind.First? then 2 else if kind.Middle? then 3 else 4
  {
    hide LogFormat.Physical, Crc32c.Value, Crc32c.Mask, Unfixed;
    LogScans.PhysicalLayout(kind, payload);
    var p := LogFormat.Physical(kind, payload);
    assert p[7..] == p[6..][1..];
  }

  // ---------- write batches ----------

  /** Sequence, count, and for each operation its type and its strings (db/write_batch.cc). */
  lemma {:induction false} BatchLayout(sequence: nat, ops: seq<WriteBatches.Op>)
    ensures var rep := WriteBatches.Rep(sequence, ops);
            rep[..8] == Fixed(sequence, 8) && rep[8..12] == Fixed(|ops|, 4) && rep[12..] == WriteBatches.EncodeOps(ops)
  {
    hide Fixed, WriteBatches.EncodeOps;
    var rep, a, b := WriteBatches.Rep(sequence, ops), Fixed(sequence, 8), Fixed(|ops|, 4);
    assert rep == a + (b + WriteBatches.EncodeOps(ops));
    assert rep[8..] == b + WriteBatches.EncodeOps(ops) && rep[8..12] == rep[8..][..4] && rep[12..] == rep[8..][4..];
  }

  lemma {:induction false} OpLayout(key: Bytes, value: Bytes)
    ensures WriteBatches.EncodeOp(WriteBatches.Put(key, value)) ==
            [1] + (Varint(|key|) + key) + (Varint(|value|) + value)
    ensures WriteBatches.EncodeOp(WriteBatches.Delete(key)) == [0] + (Varint(|key|) + key)
  {
  }

  // ---------- internal keys ----------

  /** Type and sequence behind the user key, as one little-endian word (db/dbformat.h). */
  lemma {:induction false} InternalKeyLayout(user: Bytes, sequence: nat, kind: nat)
    requires kind < 256
    ensures var k := Comparators.Pack(user, sequence * 256 + kind);
            |k| == |user| + 8 && k[..|user|] == user && k[|user|] == kind && k[|user| + 1..] == Fixed(sequence, 7)
  {
    hide Fixed;
    var tag := sequence * 256 + kind;
    assert tag % 256 == kind && tag / 256 == sequence;
    FixedNext(tag, 7);
    var k := Comparators.Pack(user, tag);
    assert k[|user| + 1..] == Fixed(tag, 8)[1..];
  }

  lemma {:induction false} FixedNext(v: nat, n: nat)
    ensures Fixed(v, n + 1) == [v % 256] + Fixed(v / 256, n)
  {
  }

  // ---------- version edits ----------

  /** The tag of each field (db/version_edit.cc). */
  lemma {:induction false} EditTags(f: VersionEdits.Field)
    ensures var t := match f
                     case Comparator(_) => 1
                     case LogNumber(_) => 2
                     case NextFileNumber(_) => 3
                     case LastSequence(_) => 4
                     case CompactPointer(_, _) => 5
                     case DeletedFile(_, _) => 6
                     case NewFile(_, _) => 7
                     case PrevLogNumber(_) => 9;
            f.Encode() == [t] + f.Body()
  {
    hide VersionEdits.Field.Body;
    VarintLayout(f.Tag());
  }

  // ---------- tables ----------

  /** The type of the block and its checksum behind the contents (table/format.h). */
  lemma {:induction false} BlockLayout(contents: Bytes)
    ensures var raw, n := TableFormat.RawBlock(contents), |contents|;
            && |raw| == n + 5 && raw[..n] == contents && raw[n] == 0
            && raw[n + 1..] == Fixed(Crc32c.Mask(Crc32c.Value(raw[..n + 1])), 4)
  {
    hide Fixed, Crc32c.Mask, Crc32c.Value;
    var raw, n := TableFormat.RawBlock(contents), |contents|;
    assert raw[..n + 1] == contents + [0];
  }

  /** kTableMagicNumber at the end. */
  lemma {:induction false} FooterLayout(meta: TableFormat.Handle, index: TableFormat.Handle)
    requires meta.Fits() && index.Fits()
    ensures var f := TableFormat.Footer(meta, index);
            |f| == 48 && f[40..] == [0x57, 0xfb, 0x80, 0x8b, 0x24, 0x75, 0x47, 0xdb]
  {
    hide Fixed, TableFormat.Handle.Encode;
    FixedLayout(0xdb47_7524_8b80_fb57);
    FixedLayout(0xdb47_7524);
    TableFormat.FooterRoundTrip(meta, index);
  }

  // ---------- nanopb ----------

  /** A key in one byte: the tag above the three bits of the wire type (nanopb/pb.h). */
  lemma {:induction false} KeyLayout(tag: nat, t: NanopbMessages.LType)
    requires 0 < tag < 16
    ensures NanopbEncoding.Key(tag, NanopbEncoding.WireType(t)) ==
            [8 * tag + match t
                       case VarIntType => 0
                       case UVarIntType => 0
                       case SVarIntType => 0
                       case Fixed64Type => 1
                       case Fixed32Type => 5
                       case BytesType => 2
                       case StringType => 2
                       case SubMessage(_) => 2
                       case FixedLengthBytes => 2]
  {
    VarintLayout(tag * 8 + NanopbEncoding.WireType(t));
  }

  /** pb_enc_svarint: twice the number, or the complement of twice a negative one, in 64 bits. */
  lemma {:induction false} ZigZagWord(v: int)
    requires -0x8000_0000_0000_0000 <= v < 0x8000_0000_0000_0000
    ensures NanopbEncoding.ZigZag(v) ==
            var doubled := NanopbEncoding.Unsigned64(v) * 2 % TWO64;
            if v < 0 then TWO64 - 1 - doubled else doubled
  {
    if v < 0 {
      assert v % TWO64 == v + TWO64;
      assert (v + TWO64) * 2 % TWO64 == 2 * v + TWO64;
    }
  }
}

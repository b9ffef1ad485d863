/** log::Writer (db/log_writer.cc). */
module LogWriters {
  import opened Coding
  import opened LogFormat
  import Crc32c

  class Writer {
    /** The bytes of the file so far. */
    var dest: Bytes
    var blockOffset: nat
    /** Checksums of the record type bytes, computed once. */
    const typeCrc: seq<Crc32c.Word>
    /** The records the file holds. */
    ghost var records: seq<Bytes>

    ghost predicate Valid()
      reads this
    {
      && blockOffset <= BLOCK
      && TypeCrcOk()
      && dest == Log(0, records)
      && SameOffset(blockOffset, LogEnd(0, records))
    }

    ghost predicate TypeCrcOk() {
      && |typeCrc| == 5
      && forall t: RecordType :: typeCrc[t.Code()] == Crc32c.Value([t.Code()])
    }

    constructor ()
      ensures Valid() && records == []
    {
      hide Crc32c.Value, Emit;
      dest := [];
      blockOffset := 0;
      records := [];
      typeCrc := TypeCrcs();
    }

    /** InitTypeCrc. */
    static function TypeCrcs(): (r: seq<Crc32c.Word>)
      ensures |r| == 5 && forall t: RecordType :: r[t.Code()] == Crc32c.Value([t.Code()])
    {
      hide Crc32c.Value;
      seq(5, i requires 0 <= i < 5 => Crc32c.Value([i]))
    }

    /** Continue a log of length destLength. */
    constructor Resume(file: Bytes, destLength: nat, ghost written: seq<Bytes>)
      requires file == Log(0, written) && destLength == |file|
      ensures Valid() && records == written
    {
      hide Crc32c.Value, Log, LogEnd;
      dest := file;
      blockOffset := destLength % BLOCK;
      records := written;
      typeCrc := TypeCrcs();
      ResumeOffset(written);
    }

    method AddRecord(slice: Bytes)
      requires Valid()
      modifies this
      ensures Valid() && records == old(records) + [slice]
      ensures dest == old(dest) + Emit(LogEnd(0, old(records)), slice, true)
    {
      ghost var off := LogEnd(0, records);
      BlockBoundary(blockOffset, off, slice);
      LogConcat(0, records, [slice]);
      LogOne(off, slice);
      EmitFragments(slice);
      records := records + [slice];
    }

    /** The loop of AddRecord: at least one fragment, even for an empty record. */
    method EmitFragments(slice: Bytes)
      requires blockOffset <= BLOCK && TypeCrcOk()
      modifies `dest, `blockOffset
      ensures dest == old(dest) + Emit(old(blockOffset), slice, true)
      ensures blockOffset == EmitEnd(old(blockOffset), |slice|)
    {
      hide Physical, Emit, EmitEnd, TypeCrcOk, Crc32c.Value;
      ghost var whole, end' := dest + Emit(blockOffset, slice, true), EmitEnd(blockOffset, |slice|);
      var ptr, begin, again := 0, true, true;
      assert slice[ptr..] == slice;
      while again
        invariant ptr <= |slice| && blockOffset <= BLOCK
        invariant whole == dest + Unwritten(again, blockOffset, slice, ptr, begin)
        invariant end' == if again then EmitEnd(blockOffset, |slice| - ptr) else blockOffset
        decreases |slice| - ptr, again, Room(blockOffset)
      {
        ghost var before, off := dest, blockOffset;
        SwitchBlock();
        var avail := BLOCK - blockOffset - HEADER;
        var left := |slice| - ptr;
        var n := if left < avail then left else avail;
        var end := left == n;
        var kind := if begin && end then Full else if begin then First else if end then Last else Middle;
        EmitPhysicalRecord(kind, slice[ptr..ptr + n]);
        EmitUnfolds(before, off, slice, ptr, n, begin);
        if n == 0 && left > 0 { EmptyFragment(off, left); }
        ptr := ptr + n;
        begin := false;
        again := ptr < |slice|;
      }
    }

    static ghost function Unwritten(again: bool, off: nat, slice: Bytes, ptr: nat, begin: bool): Bytes
      requires off <= BLOCK && ptr <= |slice|
    {
      if again then Emit(off, slice[ptr..], begin) else []
    }

    /** Fill the trailer of a block that has no room for a header. */
    method SwitchBlock()
      requires blockOffset <= BLOCK
      modifies `dest, `blockOffset
      ensures dest == old(dest) + Padding(old(blockOffset)) && blockOffset == Start(old(blockOffset))
    {
      var leftover := BLOCK - blockOffset;
      if leftover < HEADER {
        if leftover > 0 {
          dest := dest + seq(leftover, _ => 0);
        }
        blockOffset := 0;
      }
    }

    static lemma {:induction false} EmitUnfolds(before: Bytes, off: nat, slice: Bytes, ptr: nat, n: nat, begin: bool)
      requires off <= BLOCK && ptr + n <= |slice| && n == Fragment(off, |slice| - ptr)
      ensures before + Unwritten(true, off, slice, ptr, begin) ==
              before + Padding(off) + Physical(TypeOf(begin, n == |slice| - ptr), slice[ptr..ptr + n]) +
              Unwritten(ptr + n < |slice|, Start(off) + HEADER + n, slice, ptr + n, false)
      ensures EmitEnd(off, |slice| - ptr) ==
              if ptr + n < |slice| then EmitEnd(Start(off) + HEADER + n, |slice| - (ptr + n))
                else Start(off) + HEADER + n
    {
      hide Physical;
      var rest := slice[ptr..];
      assert rest[..n] == slice[ptr..ptr + n];
      assert rest[n..] == slice[ptr + n..];
      var pad, piece := Padding(off), Physical(TypeOf(begin, n == |rest|), rest[..n]);
      var after := Unwritten(ptr + n < |slice|, Start(off) + HEADER + n, slice, ptr + n, false);
      assert Emit(off, rest, begin) == pad + piece + after;
      assert before + (pad + piece + after) == before + pad + piece + after;
    }

    method EmitPhysicalRecord(kind: RecordType, payload: Bytes)
      requires blockOffset + HEADER + |payload| <= BLOCK && TypeCrcOk()
      modifies `dest, `blockOffset
      ensures dest == old(dest) + Physical(kind, payload)
      ensures blockOffset == old(blockOffset) + HEADER + |payload|
    {
      hide Crc32c.Value, Crc32c.Crc, Crc32c.Mask, Crc32c.Octets;
      var length: Bytes := [|payload| % 256, |payload| / 256];
      assert Fixed(|payload|, 2) == length by {
        assert Fixed(|payload| / 256, 1) == [|payload| / 256];
      }
      var crc := Crc32c.Extend(typeCrc[kind.Code()], Crc32c.Octets(payload), blockOffset);
      Crc32c.ExtendValue([kind.Code()], payload);
      dest := dest + (Fixed(Crc32c.Mask(crc), 4) + length + [kind.Code()]);
      dest := dest + payload;
      blockOffset := blockOffset + HEADER + |payload|;
    }
  }
}

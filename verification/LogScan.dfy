/** What a log file holds, whatever its bytes (db/log_reader.cc): each block is scanned by
    itself, and the physical records found are put together. */
module LogScans {
  import opened Wrappers
  import opened Coding
  import opened LogFormat
  import Crc32c

  /** What the reporter is told. */
  datatype Drop = Drop(bytes: nat, reason: string)

  /** A physical record, or the rest of a block that is given up, with or without a report. */
  datatype Item = Piece(code: nat, payload: Bytes) | Damage(report: Option<Drop>) {
    function Reports(): seq<Drop> {
      if Damage? && report.Some? then [report.value] else []
    }
  }

  function Length(low: byte, high: byte): nat {
    low as nat + 256 * (high as nat)
  }

  /** The header and the payload of a block agree with its checksum. */
  ghost predicate Intact(block: Bytes, n: nat)
    requires HEADER + n <= |block|
  {
    Crc32c.Unmask(Unfixed(block[..4])) == Crc32c.Value(block[6..HEADER + n])
  }

  /** The items of (the rest of) one block.  After damage nothing more of the block is used;
      in the last block of the file a record that is cut off is no damage. */
  ghost function Scan(block: Bytes, last: bool, checked: bool): seq<Item>
    decreases |block|
  {
    if |block| < HEADER then []
    else
      var n := Length(block[4], block[5]);
      if HEADER + n > |block| then
        if last then [] else [Damage(Some(Drop(|block|, "bad record length")))]
      else if block[6] == 0 && n == 0 then [Damage(None)]
      else if checked && !Intact(block, n) then [Damage(Some(Drop(|block|, "checksum mismatch")))]
      else [Piece(block[6], block[HEADER..HEADER + n])] + Scan(block[HEADER + n..], last, checked)
  }

  /** The items of a file.  Only the last block may be short. */
  ghost function Items(file: Bytes, checked: bool): seq<Item>
    decreases |file|
  {
    if |file| < BLOCK then Scan(file, true, checked)
    else Scan(file[..BLOCK], false, checked) + Items(file[BLOCK..], checked)
  }

  /** What one item does: a record that it completes, what is reported, and the record that
      is open after it. */
  datatype Effect = Effect(record: Option<Bytes>, drops: seq<Drop>, open: Option<Bytes>)

  function Apply(item: Item, open: Option<Bytes>): Effect {
    match item
    case Damage(report) =>
      Effect(None, item.Reports() + if open.Some? then [Drop(|open.value|, "error in middle of record")] else [], None)
    case Piece(code, payload) =>
      if code == 1 then Effect(Some(payload), Unfinished(open, "partial record without end(1)"), None)
      else if code == 2 then Effect(None, Unfinished(open, "partial record without end(2)"), Some(payload))
      else if code == 3 then
        if open == None then Effect(None, [Drop(|payload|, "missing start of fragmented record(1)")], None)
        else Effect(None, [], Some(open.value + payload))
      else if code == 4 then
        if open == None then Effect(None, [Drop(|payload|, "missing start of fragmented record(2)")], None)
        else Effect(Some(open.value + payload), [], None)
      else
        Effect(None, [Drop(|payload| + if open.Some? then |open.value| else 0, "unknown record type")], None)
  }

  function Unfinished(open: Option<Bytes>, reason: string): seq<Drop> {
    if open.Some? && open.value != [] then [Drop(|open.value|, reason)] else []
  }

  datatype Reading = Reading(records: seq<Bytes>, drops: seq<Drop>)

  /** All records that some items give, and all reports. */
  function Read(items: seq<Item>, open: Option<Bytes>): Reading {
    if items == [] then Reading([], [])
    else
      var e := Apply(items[0], open);
      var rest := Read(items[1..], e.open);
      Reading((if e.record.Some? then [e.record.value] else []) + rest.records, e.drops + rest.drops)
  }

  /** The record that is open after some items. */
  function OpenAfter(items: seq<Item>, open: Option<Bytes>): Option<Bytes> {
    if items == [] then open else OpenAfter(items[1..], Apply(items[0], open).open)
  }

  ghost function ReadFile(file: Bytes, checked: bool): Reading {
    Read(Items(file, checked), None)
  }

  /** The first item of a block that has room for a header. */
  lemma {:induction false} ScanFirst(block: Bytes, last: bool, checked: bool)
    requires |block| >= HEADER
    ensures var n := Length(block[4], block[5]);
            Scan(block, last, checked) ==
              if HEADER + n > |block| then
                if last then [] else [Damage(Some(Drop(|block|, "bad record length")))]
              else if block[6] == 0 && n == 0 then [Damage(None)]
              else if checked && !Intact(block, n) then [Damage(Some(Drop(|block|, "checksum mismatch")))]
              else [Piece(block[6], block[HEADER..HEADER + n])] + Scan(block[HEADER + n..], last, checked)
  {
    hide Intact, Length;
  }

  // ---------- damage ends with its block ----------

  lemma {:induction false} ReadConcat(a: seq<Item>, b: seq<Item>, open: Option<Bytes>)
    ensures Read(a + b, open).records == Read(a, open).records + Read(b, OpenAfter(a, open)).records
    ensures Read(a + b, open).drops == Read(a, open).drops + Read(b, OpenAfter(a, open)).drops
  {
    hide Apply, Read;
    if a == [] {
      NoneRead(open);
      assert a + b == b;
    } else {
      ReadFirst(a[0], a[1..] + b, open);
      ReadFirst(a[0], a[1..], open);
      assert [a[0]] + a[1..] == a && [a[0]] + (a[1..] + b) == a + b;
      ReadConcat(a[1..], b, Apply(a[0], open).open);
    }
  }

  /** Whole blocks in front of a file are scanned by themselves. */
  lemma {:induction false} BlocksInFront(blocks: Bytes, file: Bytes, checked: bool) returns (front: seq<Item>)
    requires |blocks| % BLOCK == 0
    ensures Items(blocks + file, checked) == front + Items(file, checked)
    decreases |blocks|
  {
    hide Scan;
    if blocks == [] {
      front := [];
      assert blocks + file == file;
    } else {
      var rest := blocks[BLOCK..];
      front := BlocksInFront(rest, file, checked);
      assert (blocks + file)[..BLOCK] == blocks[..BLOCK];
      assert (blocks + file)[BLOCK..] == rest + file;
      front := Scan(blocks[..BLOCK], false, checked) + front;
    }
  }

  /** A fragment that begins a record makes the reader forget what was open. */
  lemma {:induction false} FreshStart(items: seq<Item>, open: Option<Bytes>)
    requires items != [] ==> items[0].Piece? && (items[0].code == 1 || items[0].code == 2)
    ensures Read(items, open).records == Read(items, None).records
  {
  }

  // ---------- the items of a log ----------

  /** The items of a file from offset `off` of a block on. */
  ghost function ItemsFrom(off: nat, rest: Bytes, checked: bool): seq<Item>
    requires off <= BLOCK
  {
    if |rest| < BLOCK - off then Scan(rest, true, checked)
    else Scan(rest[..BLOCK - off], false, checked) + Items(rest[BLOCK - off..], checked)
  }

  lemma {:induction false} FromBlockBoundary(rest: Bytes, checked: bool)
    ensures ItemsFrom(0, rest, checked) == Items(rest, checked) == ItemsFrom(BLOCK, rest, checked)
  {
    assert Scan(rest[..0], false, checked) == [];
    assert rest[0..] == rest;
  }

  /** The fields of a physical record at the front of a block. */
  lemma {:induction false} PhysicalLayout(kind: RecordType, payload: Bytes)
    requires |payload| <= 0xffff
    ensures var p := Physical(kind, payload);
            && Unfixed(p[..4]) == Crc32c.Mask(Crc32c.Value([kind.Code()] + payload))
            && p[4] == |payload| % 256 && p[5] == |payload| / 256 && Length(p[4], p[5]) == |payload|
            && p[6] == kind.Code() && p[6..] == [kind.Code()] + payload
  {
    hide Crc32c.Value, Crc32c.Mask, Length, Fixed, Unfixed;
    var sum, length := Fixed(Crc32c.Mask(Crc32c.Value([kind.Code()] + payload)), 4), Fixed(|payload|, 2);
    var p := Physical(kind, payload);
    assert p == sum + (length + ([kind.Code()] + payload));
    assert p[..4] == sum && p[4..6] == length && p[6..] == [kind.Code()] + payload;
    assert p[4] == p[4..6][0] && p[5] == p[4..6][1] && p[6] == p[6..][0];
    TwoBytes(|payload|);
    FourBytes(Crc32c.Mask(Crc32c.Value([kind.Code()] + payload)));
  }

  /** The numbers of the record types. */
  lemma {:induction false} TypeCodes(kind: RecordType)
    ensures kind.Code() == if kind.Full? then 1 else if kind.First? then 2 else if kind.Middle? then 3 else 4
  {
  }

  lemma {:induction false} TwoBytes(n: nat)
    requires n <= 0xffff
    ensures Fixed(n, 2)[0] == n % 256 && Fixed(n, 2)[1] == n / 256 && Length(Fixed(n, 2)[0], Fixed(n, 2)[1]) == n
  {
    var high := n / 256;
    assert Fixed(high, 1)[0] == high % 256 == high;
    assert Fixed(n, 2)[0] == n % 256 && Fixed(n, 2)[1] == Fixed(high, 1)[0];
  }

  lemma {:induction false} FourBytes(n: nat)
    requires n < TWO32
    ensures Unfixed(Fixed(n, 4)) == n
  {
    PowersOf256();
    FixedRoundTrip(n, 4);
  }

  /** A whole physical record at the front of the rest of a block. */
  lemma {:induction false} ScanWhole(block: Bytes, kind: RecordType, payload: Bytes, last: bool, checked: bool)
    requires |payload| <= 0xffff && Physical(kind, payload) <= block
    ensures Scan(block, last, checked) ==
            [Piece(kind.Code(), payload)] + Scan(block[HEADER + |payload|..], last, checked)
  {
    hide Physical, Crc32c.Value, Crc32c.Mask, Crc32c.Unmask, Length, Unfixed;
    var p, end := Physical(kind, payload), HEADER + |payload|;
    PhysicalLayout(kind, payload);
    assert block[..end] == p;
    assert block[..4] == p[..4] && block[6..end] == p[6..] && block[HEADER..end] == p[6..][1..];
    assert block[4] == p[4] && block[5] == p[5] && block[6] == p[6];
    Crc32c.UnmaskMask(Crc32c.Value([kind.Code()] + payload));
  }

  /** A physical record that the end of the file cuts off. */
  lemma {:induction false} ScanCut(block: Bytes, kind: RecordType, payload: Bytes, checked: bool)
    requires |payload| <= 0xffff && block <= Physical(kind, payload) && |block| < HEADER + |payload|
    ensures Scan(block, true, checked) == []
  {
    hide Physical, Crc32c.Value, Crc32c.Mask, Crc32c.Unmask, Length, Unfixed;
    if |block| >= HEADER {
      PhysicalLayout(kind, payload);
      assert block[4] == Physical(kind, payload)[4] && block[5] == Physical(kind, payload)[5];
    }
  }

  /** The items of a file that begins, at this offset, with a physical record or a part of one. */
  lemma {:induction false} ItemsOfPhysical(off: nat, rest: Bytes, kind: RecordType, payload: Bytes, tail: Bytes,
                                           checked: bool)
    requires off <= BLOCK && Start(off) + HEADER + |payload| <= BLOCK
    requires rest <= Padding(off) + (Physical(kind, payload) + tail)
    ensures var size := |Padding(off)| + HEADER + |payload|;
            if |rest| < size then ItemsFrom(off, rest, checked) == []
            else
              && ItemsFrom(off, rest, checked) ==
                   [Piece(kind.Code(), payload)] +
                   ItemsFrom(Start(off) + HEADER + |payload|, rest[size..], checked)
              && rest[size..] <= tail
  {
    hide Physical, Scan, Items;
    var pad := |Padding(off)|;
    if |rest| < pad {
      ShortScan(rest, true, checked);
    } else if pad > 0 {
      ShortScan(rest[..pad], false, checked);
      DropPrefix(rest, Padding(off), Physical(kind, payload) + tail);
      FromBlockBoundary(rest[pad..], checked);
      ItemsInBlock(0, rest[pad..], kind, payload, tail, checked);
    } else {
      DropPrefix(rest, Padding(off), Physical(kind, payload) + tail);
      assert rest[0..] == rest;
      ShortScan([], false, checked);
      FromBlockBoundary(rest, checked);
      ItemsInBlock(if off == BLOCK then 0 else off, rest, kind, payload, tail, checked);
    }
  }

  lemma {:induction false} ShortScan(block: Bytes, last: bool, checked: bool)
    requires |block| < HEADER
    ensures Scan(block, last, checked) == []
  {
  }

  /** Fronts of a prefix can be dropped. */
  lemma {:induction false} DropPrefix(a: Bytes, front: Bytes, back: Bytes)
    requires a <= front + back && |a| >= |front|
    ensures a[|front|..] <= back
  {
    assert back == (front + back)[|front|..];
  }

  lemma {:induction false} ItemsInBlock(off: nat, rest: Bytes, kind: RecordType, payload: Bytes, tail: Bytes,
                                        checked: bool)
    requires off + HEADER + |payload| <= BLOCK && rest <= Physical(kind, payload) + tail
    ensures var size := HEADER + |payload|;
            if |rest| < size then ItemsFrom(off, rest, checked) == []
            else
              && ItemsFrom(off, rest, checked) ==
                   [Piece(kind.Code(), payload)] + ItemsFrom(off + size, rest[size..], checked)
              && rest[size..] <= tail
  {
    hide Physical, Scan, ItemsFrom;
    if |rest| < HEADER + |payload| {
      var all := Physical(kind, payload) + tail;
      assert rest == all[..|rest|] == Physical(kind, payload)[..|rest|];
      ScanCut(rest, kind, payload, checked);
      ItemsAtEnd(off, rest, checked);
    } else {
      DropPrefix(rest, Physical(kind, payload), tail);
      WholeInBlock(off, rest, kind, payload, checked);
    }
  }

  lemma {:induction false} ItemsAtEnd(off: nat, rest: Bytes, checked: bool)
    requires off <= BLOCK && |rest| < BLOCK - off
    ensures ItemsFrom(off, rest, checked) == Scan(rest, true, checked)
  {
    hide Scan, Items;
  }

  lemma {:induction false} WholeInBlock(off: nat, rest: Bytes, kind: RecordType, payload: Bytes, checked: bool)
    requires off + HEADER + |payload| <= BLOCK && Physical(kind, payload) <= rest
    ensures ItemsFrom(off, rest, checked) ==
            [Piece(kind.Code(), payload)] +
            ItemsFrom(off + HEADER + |payload|, rest[HEADER + |payload|..], checked)
  {
    hide Physical, Scan, Items;
    var size, left := HEADER + |payload|, BLOCK - off;
    if |rest| < left {
      ScanWhole(rest, kind, payload, true, checked);
    } else {
      var block, after := rest[..left], rest[size..];
      assert block[..size] == rest[..size];
      ScanWhole(block, kind, payload, false, checked);
      assert after[..left - size] == block[size..] && after[left - size..] == rest[left..];
    }
  }

  lemma {:induction false} NextFragment(off: nat, rest: Bytes, begin: bool, tail: Bytes)
    requires off <= BLOCK
    ensures var n := Fragment(off, |rest|);
            var last := n == |rest|;
            var after := if last then tail else Emit(Start(off) + HEADER + n, rest[n..], false) + tail;
            && Emit(off, rest, begin) + tail ==
                 Padding(off) + (Physical(TypeOf(begin, last), rest[..n]) + after)
            && |Emit(off, rest, begin)| == |Padding(off)| + HEADER + n + |after| - |tail|
            && EmitEnd(off, |rest|) ==
                 if last then Start(off) + HEADER + n else EmitEnd(Start(off) + HEADER + n, |rest| - n)
  {
    hide Physical;
  }

  /** The first item is a fragment where it belongs. */
  lemma {:induction false} ReadPiece(payload: Bytes, begin: bool, last: bool, scratch: Bytes, items: seq<Item>)
    requires begin ==> scratch == []
    ensures var r := Read([Piece(TypeOf(begin, last).Code(), payload)] + items, if begin then None else Some(scratch));
            if last then
              var after := Read(items, None);
              r == Reading([scratch + payload] + after.records, after.drops)
            else r == Read(items, Some(scratch + payload))
  {
    hide Read;
    ReadFirst(Piece(TypeOf(begin, last).Code(), payload), items, if begin then None else Some(scratch));
    assert begin ==> scratch + payload == payload;
  }

  lemma {:induction false} ReadFirst(item: Item, items: seq<Item>, open: Option<Bytes>)
    ensures var e := Apply(item, open);
            var rest := Read(items, e.open);
            Read([item] + items, open) ==
              Reading((if e.record.Some? then [e.record.value] else []) + rest.records, e.drops + rest.drops)
  {
    hide Apply;
    assert ([item] + items)[1..] == items;
  }

  lemma {:induction false} NoneRead(open: Option<Bytes>)
    ensures Read([], open) == Reading([], [])
  {
  }

  /** A record, or what the end of the file leaves of one, and what is read after it. */
  lemma {:induction false} ReadEmitted(off: nat, file: Bytes, rest: Bytes, begin: bool, scratch: Bytes, tail: Bytes,
                                       checked: bool)
    requires off <= BLOCK && file <= Emit(off, rest, begin) + tail && (begin ==> scratch == [])
    ensures var size := |Emit(off, rest, begin)|;
            var r := Read(ItemsFrom(off, file, checked), if begin then None else Some(scratch));
            if |file| < size then r == Reading([], [])
            else
              && file[size..] <= tail
              && var after := Read(ItemsFrom(EmitEnd(off, |rest|), file[size..], checked), None);
                 r == Reading([scratch + rest] + after.records, after.drops)
    decreases |rest|, Room(off)
  {
    hide Emit, EmitEnd, Physical, ItemsFrom, Padding, Start, Fragment, Read, Apply;
    var n := Fragment(off, |rest|);
    var last := n == |rest|;
    var next := Start(off) + HEADER + n;
    var after := if last then tail else Emit(next, rest[n..], false) + tail;
    NextFragment(off, rest, begin, tail);
    ItemsOfPhysical(off, file, TypeOf(begin, last), rest[..n], after, checked);
    var taken := |Padding(off)| + HEADER + n;
    NoneRead(if begin then None else Some(scratch));
    if |file| >= taken {
      ReadPiece(rest[..n], begin, last, scratch, ItemsFrom(next, file[taken..], checked));
      assert scratch + rest[..n] + rest[n..] == scratch + rest;
      if last {
        assert rest[..n] == rest;
      } else {
        if n == 0 {
          EmptyFragment(off, |rest|);
        }
        ReadEmitted(next, file[taken..], rest[n..], false, scratch + rest[..n], tail, checked);
        var size := |Emit(off, rest, begin)|;
        assert |file| >= size ==> file[taken..][size - taken..] == file[size..];
      }
    }
  }

  /** Every byte prefix of a log gives exactly the records wholly in it, and no report. */
  lemma {:induction false} ReadLog(off: nat, file: Bytes, written: seq<Bytes>, checked: bool)
    requires off <= BLOCK && file <= Log(off, written)
    ensures Read(ItemsFrom(off, file, checked), None) == Reading(written[..Complete(off, written, |file|)], [])
    decreases |written|
  {
    hide Emit, EmitEnd, Scan, Items, Read;
    if written == [] {
      NothingLeft(off, checked);
    } else {
      var size, end := |Emit(off, written[0], true)|, EmitEnd(off, |written[0]|);
      var tail := Log(end, written[1..]);
      ReadEmitted(off, file, written[0], true, [], tail, checked);
      assert [] + written[0] == written[0];
      if |file| >= size {
        ReadLog(end, file[size..], written[1..], checked);
        var k := Complete(end, written[1..], |file| - size);
        assert written[..k + 1] == [written[0]] + written[1..][..k];
      }
    }
  }

  lemma {:induction false} NothingLeft(off: nat, checked: bool)
    requires off <= BLOCK
    ensures Read(ItemsFrom(off, [], checked), None) == Reading([], [])
  {
    assert Items([], checked) == [];
  }

  /** A log begins with the begin of a record. */
  lemma {:induction false} LogStarts(file: Bytes, written: seq<Bytes>, checked: bool)
    requires file <= Log(0, written)
    ensures var items := Items(file, checked);
            items != [] ==> items[0].Piece? && (items[0].code == 1 || items[0].code == 2)
  {
    hide Emit, EmitEnd, Scan, Physical;
    FromBlockBoundary(file, checked);
    if written == [] {
      ShortScan([], true, checked);
    } else {
      var tail := Log(EmitEnd(0, |written[0]|), written[1..]);
      NextFragment(0, written[0], true, tail);
      var n := Fragment(0, |written[0]|);
      var after := if n == |written[0]| then tail else Emit(Start(0) + HEADER + n, written[0][n..], false) + tail;
      ItemsOfPhysical(0, file, TypeOf(true, n == |written[0]|), written[0][..n], after, checked);
    }
  }

  /** Whatever the blocks in front of a log hold, its records are read, after whatever the
      blocks may give. */
  lemma {:induction false} Resync(blocks: Bytes, file: Bytes, written: seq<Bytes>, checked: bool)
    returns (before: seq<Bytes>)
    requires |blocks| % BLOCK == 0 && file <= Log(0, written)
    ensures ReadFile(blocks + file, checked).records == before + written[..Complete(0, written, |file|)]
  {
    hide Scan, Items, Log, Complete, Read;
    var front := BlocksInFront(blocks, file, checked);
    var items := Items(file, checked);
    before := Read(front, None).records;
    ReadConcat(front, items, None);
    LogStarts(file, written, checked);
    FreshStart(items, OpenAfter(front, None));
    FromBlockBoundary(file, checked);
    ReadLog(0, file, written, checked);
  }
}

/** log::Reader (db/log_reader.cc), for a reader that starts at offset 0. */
module LogReaders {
  import opened Coding
  import opened Wrappers
  import opened LogFormat
  import opened LogScans
  import Crc32c
  import LogWriters

  datatype PhysicalResult = Record(kind: nat, fragment: Bytes) | Eof | BadRecord

  function ResultOf(item: Item): PhysicalResult {
    match item
    case Piece(code, payload) => Record(code, payload)
    case Damage(_) => BadRecord
  }

  // ---------- what any file may give ----------

  /** A physical record that was read: where it is in the file, its type and what it holds. */
  datatype Part = Part(at: nat, code: nat, fragment: Bytes) {
    function End(): nat {
      at + HEADER + |fragment|
    }
  }

  ghost predicate Suffix(file: Bytes, rest: Bytes) {
    |rest| <= |file| && rest == file[|file| - |rest|..]
  }

  /** The file has this record, and its checksum agrees if checksums are looked at. */
  ghost predicate Stands(file: Bytes, checked: bool, p: Part) {
    && p.End() <= |file|
    && Length(file[p.at + 4], file[p.at + 5]) == |p.fragment| && file[p.at + 6] == p.code
    && file[p.at + HEADER..p.End()] == p.fragment
    && (checked ==> Crc32c.Unmask(Unfixed(file[p.at..p.at + 4])) == Crc32c.Value(file[p.at + 6..p.End()]))
  }

  /** A record was read from the front of the file, after less than a header of padding. */
  ghost predicate Passed(file: Bytes, checked: bool, code: nat, fragment: Bytes, rest: Bytes) {
    exists at: nat :: PassedAt(file, checked, Part(at, code, fragment), rest)
  }

  ghost predicate PassedAt(file: Bytes, checked: bool, p: Part, rest: Bytes) {
    p.at < HEADER && Stands(file, checked, p) && rest == file[p.End()..]
  }

  /** One record after another, with nothing but padding between them. */
  ghost predicate Chain(file: Bytes, checked: bool, parts: seq<Part>) {
    && (forall i :: 0 <= i < |parts| ==> Stands(file, checked, parts[i]))
    && (forall i :: 0 <= i < |parts| - 1 ==> parts[i].End() <= parts[i + 1].at < parts[i].End() + HEADER)
  }

  function Joined(parts: seq<Part>): Bytes {
    if parts == [] then [] else Joined(parts[..|parts| - 1]) + parts[|parts| - 1].fragment
  }

  /** A first part and some middle parts. */
  ghost predicate Opened(parts: seq<Part>) {
    parts != [] && parts[0].code == 2 && forall i :: 0 < i < |parts| ==> parts[i].code == 3
  }

  /** The record is one full part of the file, or a first part, middle parts and a last part. */
  ghost predicate Stitched(file: Bytes, checked: bool, record: Bytes) {
    exists parts: seq<Part> :: Chain(file, checked, parts) && Joined(parts) == record && parts != [] &&
      if parts[|parts| - 1].code == 1 then |parts| == 1
      else parts[|parts| - 1].code == 4 && Opened(parts[..|parts| - 1])
  }

  /** The parts of an unfinished record, of which the last ends where `rest` begins. */
  ghost predicate Gathered(file: Bytes, checked: bool, parts: seq<Part>, scratch: Bytes, rest: Bytes) {
    && Opened(parts) && Chain(file, checked, parts) && Joined(parts) == scratch
    && parts[|parts| - 1].End() + |rest| == |file|
  }

  lemma {:induction false} SuffixOfSuffix(file: Bytes, rest: Bytes, end: Bytes)
    requires Suffix(file, rest) && Suffix(rest, end)
    ensures Suffix(file, end)
  {
    assert file[|file| - |rest|..][|rest| - |end|..] == file[|file| - |end|..];
  }

  lemma {:induction false} WholeSuffix(file: Bytes)
    ensures Suffix(file, file)
  {
  }

  lemma {:induction false} EmptySuffix(file: Bytes)
    ensures Suffix(file, [])
  {
  }

  lemma {:induction false} SecondIsSuffix(a: Bytes, b: Bytes)
    ensures Suffix(a + b, b)
  {
  }

  /** A record at a place of a suffix stands that much later in the file. */
  lemma {:induction false} StandsLater(file: Bytes, rest: Bytes, checked: bool, p: Part)
    requires Suffix(file, rest) && Stands(rest, checked, p)
    ensures Stands(file, checked, p.(at := |file| - |rest| + p.at))
    ensures rest[p.End()..] == file[p.(at := |file| - |rest| + p.at).End()..]
  {
    hide Length, Unfixed, Crc32c.Unmask, Crc32c.Value;
    var d := |file| - |rest|;
    assert forall i :: 0 <= i < |rest| ==> rest[i] == file[d + i];
    SameSlice(file, rest, d, p.at + HEADER, p.End());
    SameSlice(file, rest, d, p.at, p.at + 4);
    SameSlice(file, rest, d, p.at + 6, p.End());
    SameSlice(file, rest, d, p.End(), |rest|);
  }

  lemma {:induction false} SameSlice(file: Bytes, rest: Bytes, d: nat, i: nat, j: nat)
    requires d + |rest| == |file| && i <= j <= |rest| && forall k :: 0 <= k < |rest| ==> rest[k] == file[d + k]
    ensures rest[i..j] == file[d + i..d + j]
  {
  }

  lemma {:induction false} PassedLater(file: Bytes, rest: Bytes, checked: bool, code: nat, fragment: Bytes, end: Bytes)
    requires Suffix(file, rest) && |file| - |rest| < HEADER
    requires Stands(rest, checked, Part(0, code, fragment)) && end == rest[HEADER + |fragment|..]
    ensures Passed(file, checked, code, fragment, end)
  {
    hide Stands;
    StandsLater(file, rest, checked, Part(0, code, fragment));
    assert PassedAt(file, checked, Part(|file| - |rest|, code, fragment), end);
  }

  /** What one more record does to the parts gathered so far. */
  lemma {:induction false} Gather(file: Bytes, before: Bytes, after: Bytes, checked: bool, code: nat, fragment: Bytes,
                                  inFragmented: bool, parts: seq<Part>, scratch: Bytes)
    returns (parts': seq<Part>)
    requires Suffix(file, before) && Passed(before, checked, code, fragment, after)
    requires inFragmented ==> Gathered(file, checked, parts, scratch, before)
    ensures code == 1 ==> Stitched(file, checked, fragment)
    ensures code == 4 && inFragmented ==> Stitched(file, checked, scratch + fragment)
    ensures code == 2 ==> Gathered(file, checked, parts', fragment, after)
    ensures code == 3 && inFragmented ==> Gathered(file, checked, parts', scratch + fragment, after)
  {
    hide *;
    var p := Later(file, before, after, checked, code, fragment);
    OnePart(file, checked, p);
    parts' := [p];
    if inFragmented && (code == 3 || code == 4) {
      parts' := parts + [p];
      NextPart(file, checked, parts, scratch, before, p, after);
    } else {
      OnlyPart(file, checked, p, after);
    }
  }

  /** Where the record that was read is in the whole file. */
  lemma {:induction false} Later(file: Bytes, before: Bytes, after: Bytes, checked: bool, code: nat, fragment: Bytes)
    returns (p: Part)
    requires Suffix(file, before) && Passed(before, checked, code, fragment, after)
    ensures p.code == code && p.fragment == fragment && Stands(file, checked, p)
    ensures |file| - |before| <= p.at < |file| - |before| + HEADER && p.End() + |after| == |file|
  {
    hide Stands, Suffix, PassedAt;
    var at: nat :| PassedAt(before, checked, Part(at, code, fragment), after);
    p := LaterPart(file, before, after, checked, Part(at, code, fragment));
  }

  lemma {:induction false} LaterPart(file: Bytes, before: Bytes, after: Bytes, checked: bool, q: Part) returns (p: Part)
    requires Suffix(file, before) && PassedAt(before, checked, q, after)
    ensures p.code == q.code && p.fragment == q.fragment && Stands(file, checked, p)
    ensures |file| - |before| <= p.at < |file| - |before| + HEADER && p.End() + |after| == |file|
  {
    hide Stands;
    WithinFile(before, checked, q);
    StandsLater(file, before, checked, q);
    p := q.(at := |file| - |before| + q.at);
  }

  lemma {:induction false} OnePart(file: Bytes, checked: bool, p: Part)
    requires Stands(file, checked, p)
    ensures Chain(file, checked, [p]) && Joined([p]) == p.fragment
  {
    hide Stands;
    assert [p][..0] == [];
  }

  lemma {:induction false} OnlyPart(file: Bytes, checked: bool, p: Part, after: Bytes)
    requires Chain(file, checked, [p]) && Joined([p]) == p.fragment && p.End() + |after| == |file|
    ensures p.code == 1 ==> Stitched(file, checked, p.fragment)
    ensures p.code == 2 ==> Gathered(file, checked, [p], p.fragment, after)
  {
    hide Chain, Joined;
  }

  lemma {:induction false} NextPart(file: Bytes, checked: bool, parts: seq<Part>, scratch: Bytes, before: Bytes,
                                    p: Part, after: Bytes)
    requires Gathered(file, checked, parts, scratch, before) && Stands(file, checked, p)
    requires |file| - |before| <= p.at < |file| - |before| + HEADER && p.End() + |after| == |file|
    ensures p.code == 3 ==> Gathered(file, checked, parts + [p], scratch + p.fragment, after)
    ensures p.code == 4 ==> Stitched(file, checked, scratch + p.fragment)
  {
    hide Stands, Chain;
    var parts' := parts + [p];
    assert parts'[..|parts|] == parts;
    ChainGrows(file, checked, parts, p);
    assert Joined(parts') == scratch + p.fragment;
  }

  /** What is stitched together from a suffix is so from the file. */
  lemma {:induction false} StitchedLater(file: Bytes, rest: Bytes, checked: bool, record: Bytes)
    requires Suffix(file, rest) && Stitched(rest, checked, record)
    ensures Stitched(file, checked, record)
  {
    hide Stands, Chain, Joined;
    var parts: seq<Part> :| Chain(rest, checked, parts) && Joined(parts) == record && parts != [] &&
      if parts[|parts| - 1].code == 1 then |parts| == 1
      else parts[|parts| - 1].code == 4 && Opened(parts[..|parts| - 1]);
    var parts' := Moved(parts, |file| - |rest|);
    ChainLater(file, rest, checked, parts);
    JoinedLater(parts, |file| - |rest|);
    assert parts'[..|parts| - 1] == Moved(parts[..|parts| - 1], |file| - |rest|);
  }

  ghost function Moved(parts: seq<Part>, d: nat): (r: seq<Part>)
    ensures |r| == |parts| && forall i :: 0 <= i < |r| ==> r[i] == parts[i].(at := d + parts[i].at)
  {
    seq(|parts|, i requires 0 <= i < |parts| => parts[i].(at := d + parts[i].at))
  }

  lemma {:induction false} ChainLater(file: Bytes, rest: Bytes, checked: bool, parts: seq<Part>)
    requires Suffix(file, rest) && Chain(rest, checked, parts)
    ensures Chain(file, checked, Moved(parts, |file| - |rest|))
  {
    hide Stands;
    var moved := Moved(parts, |file| - |rest|);
    forall i | 0 <= i < |parts| ensures Stands(file, checked, moved[i]) {
      StandsLater(file, rest, checked, parts[i]);
    }
  }

  lemma {:induction false} JoinedLater(parts: seq<Part>, d: nat)
    ensures Joined(Moved(parts, d)) == Joined(parts)
  {
    if parts != [] {
      JoinedLater(parts[..|parts| - 1], d);
      assert Moved(parts, d)[..|parts| - 1] == Moved(parts[..|parts| - 1], d);
    }
  }

  lemma {:induction false} WithinFile(file: Bytes, checked: bool, p: Part)
    requires Stands(file, checked, p)
    ensures p.End() <= |file|
  {
  }

  lemma {:induction false} ChainGrows(file: Bytes, checked: bool, parts: seq<Part>, p: Part)
    requires Chain(file, checked, parts) && Stands(file, checked, p) && parts != []
    requires parts[|parts| - 1].End() <= p.at < parts[|parts| - 1].End() + HEADER
    ensures Chain(file, checked, parts + [p])
  {
    hide Stands;
  }

  class Reader {
    /** The part of the file not yet read. */
    var unread: Bytes
    /** The part of the current block not yet parsed. */
    var buffer: Bytes
    /** The last read of the file was short. */
    var eof: bool
    const checksum: bool
    var drops: seq<Drop>

    ghost predicate Valid()
      reads this
    {
      eof ==> unread == []
    }

    ghost function Remaining(): Bytes
      reads this
    {
      buffer + unread
    }

    /** The items that are still to come. */
    ghost function Pending(): seq<Item>
      reads this
    {
      Scan(buffer, eof, checksum) + if eof then [] else Items(unread, checksum)
    }

    constructor (file: Bytes, checksum: bool)
      ensures Valid() && Remaining() == file && drops == []
      ensures this.checksum == checksum && Pending() == Items(file, checksum)
    {
      hide Items;
      unread := file;
      buffer := [];
      eof := false;
      this.checksum := checksum;
      drops := [];
    }

    /** One block from the file. */
    method Refill()
      requires Valid() && !eof && |buffer| < HEADER
      modifies `unread, `buffer, `eof
      ensures Valid() && (|buffer| < HEADER ==> eof)
      ensures Remaining() == old(unread) && Pending() == old(Pending())
    {
      ShortScan(buffer, false, checksum);
      hide Scan;
      var n := if |unread| < BLOCK then |unread| else BLOCK;
      buffer := unread[..n];
      unread := unread[n..];
      eof := n < BLOCK;
      assert eof ==> buffer == old(unread) && unread == [];
    }

    /** Read on until the buffer holds a header or the file ends. */
    method SkipTrailer()
      requires Valid()
      modifies `unread, `buffer, `eof
      ensures Valid() && (|buffer| < HEADER ==> eof) && Pending() == old(Pending())
      ensures Suffix(old(Remaining()), Remaining()) && old(|Remaining()|) - |Remaining()| < HEADER
    {
      hide Scan, Items;
      if |buffer| < HEADER && !eof {
        Refill();
      }
    }

    method ReportCorruption(bytes: nat, reason: string)
      modifies `drops
      ensures drops == old(drops) + [Drop(bytes, reason)]
      ensures Valid() == old(Valid()) && Remaining() == old(Remaining()) && Pending() == old(Pending())
    {
      drops := drops + [Drop(bytes, reason)];
    }

    /** The next physical record: the first item that is left, whatever the file holds. */
    method ReadPhysicalRecord() returns (r: PhysicalResult)
      requires Valid()
      modifies this
      ensures Valid() && Suffix(old(Remaining()), Remaining())
      ensures r.Record? ==> Passed(old(Remaining()), checksum, r.kind, r.fragment, Remaining())
      ensures if old(Pending()) == [] then r == Eof && Remaining() == [] && Pending() == [] && drops == old(drops)
              else
                && r == ResultOf(old(Pending())[0]) && Pending() == old(Pending())[1..]
                && drops == old(drops) + old(Pending())[0].Reports()
    {
      hide Passed, Suffix, Stands, Scan, Items;
      ghost var file := Remaining();
      SkipTrailer();
      if |buffer| < HEADER {
        ShortScan(buffer, true, checksum);
        DropBuffer();
        ShortScan(buffer, true, checksum);
        EmptySuffix(file);
        return Eof;
      }
      ghost var rest := Remaining();
      r := ParseRecord();
      SuffixOfSuffix(file, rest, Remaining());
      if r.Record? {
        PassedLater(file, rest, checksum, r.kind, r.fragment, Remaining());
      }
    }

    /** The rest of ReadPhysicalRecord, with a whole header in the buffer. */
    method ParseRecord() returns (r: PhysicalResult)
      requires Valid() && |buffer| >= HEADER
      modifies this
      ensures Valid() && Suffix(old(Remaining()), Remaining())
      ensures r.Record? ==>
              Stands(old(Remaining()), checksum, Part(0, r.kind, r.fragment)) &&
              Remaining() == old(Remaining())[HEADER + |r.fragment|..]
      ensures if old(Pending()) == [] then r == Eof && Remaining() == [] && Pending() == [] && drops == old(drops)
              else
                && r == ResultOf(old(Pending())[0]) && Pending() == old(Pending())[1..]
                && drops == old(drops) + old(Pending())[0].Reports()
    {
      hide Crc32c.Value, Crc32c.Unmask, Unfixed, Length, Suffix, Stands, Items, Scan;
      ScanFirst(buffer, eof, checksum);
      ShortScan([], eof, checksum);
      var length := Length(buffer[4], buffer[5]);
      var code := buffer[6];
      if HEADER + length > |buffer| {
        var dropSize := |buffer|;
        DropBuffer();
        if !eof {
          ReportCorruption(dropSize, "bad record length");
          return BadRecord;
        }
        return Eof;
      }
      if code == 0 && length == 0 {
        DropBuffer();
        return BadRecord;
      }
      if checksum {
        var expected := Crc32c.Unmask(Unfixed(buffer[..4]));
        var actual := Crc32c.ComputeValue(buffer[6..HEADER + length], |buffer|);
        if actual != expected {
          var dropSize := |buffer|;
          DropBuffer();
          ReportCorruption(dropSize, "checksum mismatch");
          return BadRecord;
        }
      }
      r := TakeRecord(code, length);
    }

    /** Hand out the record at the front of the buffer. */
    method TakeRecord(code: nat, length: nat) returns (r: PhysicalResult)
      requires Valid() && HEADER + length <= |buffer| && Length(buffer[4], buffer[5]) == length && buffer[6] == code
      requires checksum ==> Crc32c.Unmask(Unfixed(buffer[..4])) == Crc32c.Value(buffer[6..HEADER + length])
      modifies `buffer
      ensures Valid() && Suffix(old(Remaining()), Remaining())
      ensures r == Record(code, old(buffer)[HEADER..HEADER + length]) && buffer == old(buffer)[HEADER + length..]
      ensures Stands(old(Remaining()), checksum, Part(0, code, r.fragment))
      ensures Remaining() == old(Remaining())[HEADER + length..]
    {
      hide Crc32c.Value, Crc32c.Unmask, Unfixed, Length, Suffix, Stands;
      r := Record(code, buffer[HEADER..HEADER + length]);
      StandsAtFront(buffer, unread, checksum, code, length);
      buffer := buffer[HEADER + length..];
    }

    /** Give up on what is in the buffer. */
    method DropBuffer()
      modifies `buffer
      ensures buffer == [] && Remaining() == unread && Suffix(old(Remaining()), Remaining())
    {
      SecondIsSuffix(buffer, unread);
      buffer := [];
    }

    static lemma {:induction false} StandsAtFront(buffer: Bytes, unread: Bytes, checked: bool, code: nat, length: nat)
      requires HEADER + length <= |buffer| && Length(buffer[4], buffer[5]) == length && buffer[6] == code
      requires checked ==> Crc32c.Unmask(Unfixed(buffer[..4])) == Crc32c.Value(buffer[6..HEADER + length])
      ensures Stands(buffer + unread, checked, Part(0, code, buffer[HEADER..HEADER + length]))
      ensures buffer[HEADER + length..] + unread == (buffer + unread)[HEADER + length..]
      ensures Suffix(buffer + unread, buffer[HEADER + length..] + unread)
    {
      hide Length, Unfixed, Crc32c.Unmask, Crc32c.Value;
      var file := buffer + unread;
      assert file[0..4] == buffer[..4] && file[6..HEADER + length] == buffer[6..HEADER + length];
      assert file[HEADER..HEADER + length] == buffer[HEADER..HEADER + length];
    }

    /** What one physical record does to the record being put together: the switch in
        ReadRecord. */
    method Assemble(code: nat, fragment: Bytes, inFragmented: bool, scratch: Bytes)
      returns (whole: bool, record: Bytes, inFragmented': bool, scratch': Bytes)
      modifies `drops
      ensures Valid() == old(Valid()) && Remaining() == old(Remaining()) && Pending() == old(Pending())
      ensures whole <==> code == 1 || (code == 4 && inFragmented)
      ensures whole ==> record == (if code == 1 then fragment else scratch + fragment)
      ensures inFragmented' <==> code == 2 || (inFragmented && code == 3)
      ensures inFragmented' ==> scratch' == if code == 2 then fragment else scratch + fragment
      ensures drops == old(drops) + Apply(Piece(code, fragment), Open(inFragmented, scratch)).drops
    {
      whole, record, inFragmented', scratch' := false, [], inFragmented, scratch;
      if code == 1 {
        if inFragmented && scratch != [] {
          ReportCorruption(|scratch|, "partial record without end(1)");
        }
        whole, record, inFragmented' := true, fragment, false;
      } else if code == 2 {
        if inFragmented && scratch != [] {
          ReportCorruption(|scratch|, "partial record without end(2)");
        }
        scratch', inFragmented' := fragment, true;
      } else if code == 3 {
        if !inFragmented {
          ReportCorruption(|fragment|, "missing start of fragmented record(1)");
        } else {
          scratch' := scratch + fragment;
        }
      } else if code == 4 {
        if !inFragmented {
          ReportCorruption(|fragment|, "missing start of fragmented record(2)");
        } else {
          whole, record, inFragmented' := true, scratch + fragment, false;
        }
      } else {
        ReportCorruption(|fragment| + if inFragmented then |scratch| else 0, "unknown record type");
        inFragmented', scratch' := false, [];
      }
    }

    static function Open(inFragmented: bool, scratch: Bytes): Option<Bytes> {
      if inFragmented then Some(scratch) else None
    }

    /** The next record that the items give, whatever the file holds; no record only when
        nothing is left. */
    method ReadRecord() returns (ok: bool, record: Bytes)
      requires Valid()
      modifies this
      ensures Valid() && Suffix(old(Remaining()), Remaining())
      ensures ok ==> Stitched(old(Remaining()), checksum, record) && |Pending()| < old(|Pending()|)
      ensures !ok ==> Remaining() == [] && Pending() == []
      ensures old(Read(Pending(), None).records) == (if ok then [record] else []) + Read(Pending(), None).records
      ensures old(drops + Read(Pending(), None).drops) == drops + Read(Pending(), None).drops
    {
      hide *;
      ghost var file, parts: seq<Part>, all := Remaining(), [], Read(Pending(), None);
      WholeSuffix(file);
      var scratch: Bytes, inFragmentedRecord := [], false;
      OpenIs(inFragmentedRecord, scratch);
      while true
        invariant Valid() && |Pending()| <= old(|Pending()|) && Suffix(file, Remaining())
        invariant inFragmentedRecord ==> Gathered(file, checksum, parts, scratch, Remaining())
        invariant all.records == Read(Pending(), Open(inFragmentedRecord, scratch)).records
        invariant old(drops) + all.drops == drops + Read(Pending(), Open(inFragmentedRecord, scratch)).drops
        decreases |Pending()|
      {
        ghost var before, items, open := Remaining(), Pending(), Open(inFragmentedRecord, scratch);
        OpenIs(inFragmentedRecord, scratch);
        var physical := ReadPhysicalRecord();
        SuffixOfSuffix(file, before, Remaining());
        if items != [] {
          ReadFirst(items[0], items[1..], open);
          assert [items[0]] + items[1..] == items;
          ItemIsNoEnd(items[0]);
        }
        match physical
        case Eof =>
          NoneRead(open);
          NoneRead(None);
          return false, [];
        case BadRecord =>
          DamageApplied(items[0], open);
          if inFragmentedRecord {
            ReportCorruption(|scratch|, "error in middle of record");
            inFragmentedRecord := false;
            scratch := [];
          }
          OpenIs(inFragmentedRecord, scratch);
        case Record(code, fragment) =>
          parts := Gather(file, before, Remaining(), checksum, code, fragment, inFragmentedRecord, parts, scratch);
          ResultIsPiece(items[0], code, fragment);
          PieceApplied(code, fragment, inFragmentedRecord, scratch);
          ok, record, inFragmentedRecord, scratch := Assemble(code, fragment, inFragmentedRecord, scratch);
          if ok {
            return;
          }
          OpenIs(inFragmentedRecord, scratch);
      }
    }

    static lemma {:induction false} OpenIs(inFragmented: bool, scratch: Bytes)
      ensures Open(inFragmented, scratch) == if inFragmented then Some(scratch) else None
    {
    }

    static lemma {:induction false} DamageApplied(item: Item, open: Option<Bytes>)
      requires ResultOf(item) == BadRecord
      ensures var e := Apply(item, open);
              && e.record == None && e.open == None
              && e.drops == item.Reports() + if open.Some? then [Drop(|open.value|, "error in middle of record")]
                 else []
    {
    }

    static lemma {:induction false} ItemIsNoEnd(item: Item)
      ensures ResultOf(item) != Eof
    {
    }

    static lemma {:induction false} ResultIsPiece(item: Item, code: nat, fragment: Bytes)
      requires ResultOf(item) == Record(code, fragment)
      ensures item == Piece(code, fragment)
    {
    }

    static lemma {:induction false} PieceApplied(code: nat, fragment: Bytes, inFragmented: bool, scratch: Bytes)
      ensures var e := Apply(Piece(code, fragment), Open(inFragmented, scratch));
              && (e.record.Some? <==> code == 1 || (code == 4 && inFragmented))
              && (e.record.Some? ==>
                    e.record.value == (if code == 1 then fragment else scratch + fragment) && e.open == None)
              && (e.open.Some? <==> code == 2 || (inFragmented && code == 3))
              && (e.open.Some? ==> e.open.value == if code == 2 then fragment else scratch + fragment)
              && Piece(code, fragment).Reports() == []
    {
    }
  }

  /** Read records until there are none: all that the file holds, and all reports. */
  method ReadAll(file: Bytes, checksum: bool) returns (records: seq<Bytes>, drops: seq<Drop>)
    ensures Reading(records, drops) == ReadFile(file, checksum)
    ensures forall record <- records :: Stitched(file, checksum, record)
  {
    hide *;
    ReadFileIs(file, checksum);
    var reader := new Reader(file, checksum);
    WholeSuffix(file);
    records := [];
    var ok := true;
    while ok
      invariant reader.Valid() && fresh(reader) && reader.checksum == checksum && Suffix(file, reader.Remaining())
      invariant forall record <- records :: Stitched(file, checksum, record)
      invariant ReadFile(file, checksum).records == records + Read(reader.Pending(), None).records
      invariant ReadFile(file, checksum).drops == reader.drops + Read(reader.Pending(), None).drops
      invariant !ok ==> reader.Pending() == []
      decreases |reader.Pending()|, ok
    {
      var record;
      ghost var before := reader.Remaining();
      ok, record := reader.ReadRecord();
      SuffixOfSuffix(file, before, reader.Remaining());
      if ok {
        StitchedLater(file, before, checksum, record);
        records := records + [record];
      }
    }
    NoneRead(None);
    drops := reader.drops;
  }

  lemma {:induction false} ReadFileIs(file: Bytes, checked: bool)
    ensures ReadFile(file, checked) == Read(Items(file, checked), None)
  {
  }

  /** Every byte prefix of a log gives exactly the records wholly in it, and no report. */
  lemma {:induction false} ReadsPrefix(file: Bytes, written: seq<Bytes>, checked: bool)
    requires file <= Log(0, written)
    ensures ReadFile(file, checked) == Reading(written[..Complete(0, written, |file|)], [])
  {
    hide Log, Complete, Items, Read;
    FromBlockBoundary(file, checked);
    ReadLog(0, file, written, checked);
  }

  /** Write a log, crash at any byte, resume or not, and read it back: the records whose
      bytes all reached the file come back in order, and nothing is reported as damaged. */
  method WriteCrashRead(before: seq<Bytes>, after: seq<Bytes>, cut: nat, checksum: bool)
    returns (records: seq<Bytes>, drops: seq<Drop>)
    ensures drops == [] && records <= before + after
    ensures |Log(0, records)| <= cut
    ensures |records| < |before + after| ==> |Log(0, (before + after)[..|records| + 1])| > cut
    ensures |Log(0, before + after)| <= cut ==> records == before + after
  {
    hide Log, Complete;
    var first := new LogWriters.Writer();
    WriteAll(first, before);
    assert first.records == before;
    var second := new LogWriters.Writer.Resume(first.dest, |first.dest|, before);
    WriteAll(second, after);
    ghost var written := before + after;
    var file := if cut < |second.dest| then second.dest[..cut] else second.dest;
    assert file <= Log(0, written);
    records, drops := ReadAll(file, checksum);
    ReadsPrefix(file, written, checksum);
    CompleteIsExact(0, written, |file|);
    CompleteWholeFile(0, written);
  }

  method WriteAll(writer: LogWriters.Writer, records: seq<Bytes>)
    requires writer.Valid()
    modifies writer
    ensures writer.Valid() && writer.records == old(writer.records) + records
  {
    hide Log, Emit;
    for i := 0 to |records|
      invariant writer.Valid() && writer.records == old(writer.records) + records[..i]
    {
      writer.AddRecord(records[i]);
    }
  }
}

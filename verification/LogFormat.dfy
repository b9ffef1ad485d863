/** The log file format (db/log_format.h): records cut into fragments that never cross a
    32 KB block, each behind a header of checksum, length and type. */
module LogFormat {
  import opened Coding
  import Crc32c

  const BLOCK: nat := 32768
  const HEADER: nat := 7

  datatype RecordType = Full | First | Middle | Last {
    function Code(): byte {
      match this
      case Full => 1
      case First => 2
      case Middle => 3
      case Last => 4
    }
  }

  function TypeOf(begin: bool, end: bool): RecordType {
    if begin && end then Full else if begin then First else if end then Last else Middle
  }

  /** One physical record. */
  function Physical(kind: RecordType, payload: Bytes): (r: Bytes)
    ensures |r| == HEADER + |payload|
  {
    Fixed(Crc32c.Mask(Crc32c.Value([kind.Code()] + payload)), 4) + Fixed(|payload|, 2) + [kind.Code()] + payload
  }

  /** Where the next header goes: in the current block, or at the start of the next one
      when fewer than HEADER bytes are left. */
  function Start(off: nat): (r: nat)
    requires off <= BLOCK
    ensures r + HEADER <= BLOCK
  {
    if BLOCK - off < HEADER then 0 else off
  }

  function Padding(off: nat): Bytes
    requires off <= BLOCK
  {
    if BLOCK - off < HEADER then seq(BLOCK - off, _ => 0) else []
  }

  /** How many of n payload bytes the next physical record takes. */
  function Fragment(off: nat, n: nat): (r: nat)
    requires off <= BLOCK
    ensures r <= n && Start(off) + HEADER + r <= BLOCK
    ensures r < n ==> Start(off) + HEADER + r == BLOCK
  {
    var avail := BLOCK - Start(off) - HEADER;
    if n < avail then n else avail
  }

  /** An empty fragment at the very end of a block is followed by a block with room. */
  function Room(off: nat): nat {
    if off == BLOCK - HEADER then 1 else 0
  }

  lemma {:induction false} EmptyFragment(off: nat, n: nat)
    requires off <= BLOCK && Fragment(off, n) == 0 < n
    ensures Room(off) == 1 && Room(Start(off) + HEADER) == 0
  {
  }

  /** What a record becomes when the writer stands at offset off of a block. */
  function Emit(off: nat, rest: Bytes, begin: bool): (r: Bytes)
    requires off <= BLOCK
    decreases |rest|, Room(off)
  {
    var n := Fragment(off, |rest|);
    var piece := Padding(off) + Physical(TypeOf(begin, n == |rest|), rest[..n]);
    if n == |rest| then piece else piece + Emit(Start(off) + HEADER + n, rest[n..], false)
  }

  /** The offset in its block after a record of n bytes. */
  function EmitEnd(off: nat, n: nat): (r: nat)
    requires off <= BLOCK
    ensures r <= BLOCK
    decreases n, Room(off)
  {
    var k := Fragment(off, n);
    if k == n then Start(off) + HEADER + k else EmitEnd(Start(off) + HEADER + k, n - k)
  }

  /** The whole log. */
  function Log(off: nat, records: seq<Bytes>): Bytes
    requires off <= BLOCK
    decreases |records|
  {
    if records == [] then []
    else Emit(off, records[0], true) + Log(EmitEnd(off, |records[0]|), records[1..])
  }

  function LogEnd(off: nat, records: seq<Bytes>): (r: nat)
    requires off <= BLOCK
    ensures r <= BLOCK
    decreases |records|
  {
    if records == [] then off else LogEnd(EmitEnd(off, |records[0]|), records[1..])
  }

  lemma {:induction false} LogConcat(off: nat, a: seq<Bytes>, b: seq<Bytes>)
    requires off <= BLOCK
    ensures Log(off, a + b) == Log(off, a) + Log(LogEnd(off, a), b)
    ensures LogEnd(off, a + b) == LogEnd(LogEnd(off, a), b)
    decreases |a|
  {
    if a == [] {
      assert a + b == b;
    } else {
      assert (a + b)[1..] == a[1..] + b;
      LogConcat(EmitEnd(off, |a[0]|), a[1..], b);
    }
  }

  lemma {:induction false} LogOne(off: nat, record: Bytes)
    requires off <= BLOCK
    ensures Log(off, [record]) == Emit(off, record, true)
    ensures LogEnd(off, [record]) == EmitEnd(off, |record|)
  {
    assert [record][1..] == [];
  }

  /** The end of one block is the start of the next. */
  predicate SameOffset(a: nat, b: nat) {
    a == b || (a == 0 && b == BLOCK) || (a == BLOCK && b == 0)
  }

  lemma {:induction false} BlockBoundary(a: nat, b: nat, record: Bytes)
    requires a <= BLOCK && b <= BLOCK && SameOffset(a, b)
    ensures Emit(a, record, true) == Emit(b, record, true) && EmitEnd(a, |record|) == EmitEnd(b, |record|)
  {
    hide Physical;
    if a != b {
      assert Padding(0) == [] && Padding(BLOCK) == [];
      assert Start(a) == 0 && Start(b) == 0;
    }
  }

  lemma {:induction false} LogBlockBoundary(a: nat, b: nat, records: seq<Bytes>)
    requires a <= BLOCK && b <= BLOCK && SameOffset(a, b)
    ensures Log(a, records) == Log(b, records)
  {
    if records != [] {
      BlockBoundary(a, b, records[0]);
    }
  }

  // ---------- offsets are file positions ----------

  lemma {:induction false} EmitPosition(off: nat, rest: Bytes, begin: bool, pos: nat)
    requires off <= BLOCK && pos % BLOCK == off % BLOCK
    ensures (pos + |Emit(off, rest, begin)|) % BLOCK == EmitEnd(off, |rest|) % BLOCK
    decreases |rest|, Room(off)
  {
    hide Physical, Padding, Fragment, Start;
    var n := Fragment(off, |rest|);
    var next := Start(off) + HEADER + n;
    var pos' := pos + |Padding(off)| + HEADER + n;
    PositionStep(off, n, pos);
    if n < |rest| {
      if n == 0 {
        EmptyFragment(off, |rest|);
      }
      EmitPosition(next, rest[n..], false, pos');
    }
  }

  lemma {:induction false} PositionStep(off: nat, n: nat, pos: nat)
    requires off <= BLOCK && pos % BLOCK == off % BLOCK && Start(off) + HEADER + n <= BLOCK
    ensures (pos + |Padding(off)| + HEADER + n) % BLOCK == (Start(off) + HEADER + n) % BLOCK
  {
    SameModulo(pos, off, |Padding(off)| + HEADER + n);
    if off + |Padding(off)| != Start(off) {
      assert off + |Padding(off)| == BLOCK && Start(off) == 0;
      SameModulo(BLOCK, 0, HEADER + n);
    }
  }

  lemma {:induction false} SameModulo(a: nat, b: nat, k: nat)
    requires a % BLOCK == b % BLOCK
    ensures (a + k) % BLOCK == (b + k) % BLOCK
  {
    var q, r, m := a / BLOCK, b / BLOCK, a % BLOCK;
    assert a + k == (m + k) + q * BLOCK && b + k == (m + k) + r * BLOCK;
  }

  /** A well-formed log ends at the block offset its writer has, so a writer that
      resumes at the file's length resumes at the right place. */
  lemma {:induction false} LogPosition(off: nat, records: seq<Bytes>, pos: nat)
    requires off <= BLOCK && pos % BLOCK == off % BLOCK
    ensures (pos + |Log(off, records)|) % BLOCK == LogEnd(off, records) % BLOCK
    decreases |records|
  {
    hide Emit, EmitEnd;
    if records != [] {
      EmitPosition(off, records[0], true, pos);
      LogPosition(EmitEnd(off, |records[0]|), records[1..], pos + |Emit(off, records[0], true)|);
    }
  }

  lemma {:induction false} ResumeOffset(records: seq<Bytes>)
    ensures |Log(0, records)| % BLOCK <= BLOCK
    ensures SameOffset(|Log(0, records)| % BLOCK, LogEnd(0, records))
  {
    LogPosition(0, records, 0);
    ModOfOffset(LogEnd(0, records));
  }

  lemma {:induction false} ModOfOffset(off: nat)
    requires off <= BLOCK
    ensures off % BLOCK == if off == BLOCK then 0 else off
  {
  }

  // ---------- records wholly inside a prefix of the file ----------

  /** How many leading records lie wholly within the first n bytes. */
  function Complete(off: nat, records: seq<Bytes>, n: nat): (k: nat)
    requires off <= BLOCK
    ensures k <= |records|
    decreases |records|
  {
    if records == [] || |Emit(off, records[0], true)| > n then 0
    else 1 + Complete(EmitEnd(off, |records[0]|), records[1..], n - |Emit(off, records[0], true)|)
  }

  lemma {:induction false} LogFirst(off: nat, records: seq<Bytes>, k: nat)
    requires off <= BLOCK && k < |records|
    ensures |Log(off, records[..k + 1])| ==
            |Emit(off, records[0], true)| + |Log(EmitEnd(off, |records[0]|), records[1..][..k])|
  {
    var first := records[..k + 1];
    assert first[1..] == records[1..][..k];
    assert Log(off, first) == Emit(off, first[0], true) + Log(EmitEnd(off, |first[0]|), first[1..]);
  }

  lemma {:induction false} CompleteIsExact(off: nat, records: seq<Bytes>, n: nat)
    requires off <= BLOCK
    ensures |Log(off, records[..Complete(off, records, n)])| <= n
    ensures Complete(off, records, n) < |records| ==> |Log(off, records[..Complete(off, records, n) + 1])| > n
    decreases |records|
  {
    if records != [] {
      var k, size := Complete(off, records, n), |Emit(off, records[0], true)|;
      if k < |records| {
        LogFirst(off, records, k);
      }
      if size <= n {
        CompleteIsExact(EmitEnd(off, |records[0]|), records[1..], n - size);
        LogFirst(off, records, k - 1);
      }
    }
  }

  lemma {:induction false} CompleteWholeFile(off: nat, records: seq<Bytes>)
    requires off <= BLOCK
    ensures Complete(off, records, |Log(off, records)|) == |records|
    decreases |records|
  {
    if records != [] {
      CompleteWholeFile(EmitEnd(off, |records[0]|), records[1..]);
    }
  }
}

/** Recovery of a log (RecoverLogFile in db/db_impl.cc), and what it rebuilds after a
    crash at any byte of the file that the write queue produced. */
module LogRecoveries {
  import opened Coding
  import opened WriteBatches
  import opened GroupCommits
  import opened Wrappers
  import opened LogScans
  import LogFormat
  import LogReaders

  /** The entries that replaying some records adds, in order. */
  function Replayed(records: seq<Bytes>): seq<MemEntry> {
    if records == [] then []
    else Replayed(records[..|records| - 1]) + ReplayedRecord(records[|records| - 1])
  }

  function ReplayedRecord(record: Bytes): seq<MemEntry> {
    if |record| < WriteBatches.HEADER then [] else Numbered(Iterated(record).0, Sequence(record))
  }

  /** The largest sequence number seen, at least `initial`. */
  function MaxSequence(records: seq<Bytes>, initial: int): int {
    if records == [] then initial
    else
      var front, last := MaxSequence(records[..|records| - 1], initial), records[|records| - 1];
      if |last| < WriteBatches.HEADER then front
      else if Sequence(last) + Count(last) - 1 > front then Sequence(last) + Count(last) - 1
      else front
  }

  /** Every record is a whole batch. */
  ghost predicate AllBatches(records: seq<Bytes>) {
    forall r :: r in records ==> |r| >= WriteBatches.HEADER && Iterated(r).1 == Ok
  }

  /** Read the records of a log file and add them to a memtable.  Damage that the reader
      reports, and records that are no batches, stop a paranoid recovery and no other. */
  method RecoverLogFile(file: Bytes, paranoid: bool, initial: int)
    returns (mem: seq<MemEntry>, maxSequence: int, status: Status, ghost used: seq<Bytes>)
    ensures used <= ReadFile(file, true).records && mem == Replayed(used)
    ensures forall record <- used :: LogReaders.Stitched(file, true, record)
    ensures status == Ok ==>
            && mem == Replayed(ReadFile(file, true).records)
            && maxSequence == MaxSequence(ReadFile(file, true).records, initial)
    ensures status == Ok <==> !paranoid || (ReadFile(file, true).drops == []
                                            && AllBatches(ReadFile(file, true).records))
  {
    hide *;
    LogReaders.ReadFileIs(file, true);
    ReplayNothing(initial);
    BatchesNext([], []);
    NoneRead(None);
    var reader := new LogReaders.Reader(file, true);
    ghost var all := ReadFile(file, true);
    LogReaders.WholeSuffix(file);
    mem, maxSequence, status, used := [], initial, Ok, [];
    while true
      invariant reader.Valid() && fresh(reader) && reader.checksum && LogReaders.Suffix(file, reader.Remaining())
      invariant forall record <- used :: LogReaders.Stitched(file, true, record)
      invariant all.records == used + Read(reader.Pending(), None).records
      invariant all.drops == reader.drops + Read(reader.Pending(), None).drops
      invariant mem == Replayed(used) && maxSequence == MaxSequence(used, initial)
      invariant if status == Ok then paranoid ==>
                reader.drops == [] && AllBatches(used) else paranoid && !AllBatches(used)
      decreases |reader.Pending()|
    {
      ghost var before := reader.Remaining();
      var ok, record := reader.ReadRecord();
      LogReaders.SuffixOfSuffix(file, before, reader.Remaining());
      if reader.drops != [] && paranoid && status == Ok {
        status := Corruption(reader.drops[0].reason);
      }
      if !ok || status != Ok {
        assert !ok ==> all.records == used && all.drops == reader.drops;
        break;
      }
      LogReaders.StitchedLater(file, before, true, record);
      BatchesNext(used, [record]);
      mem, maxSequence, status := ReplayRecord(record, paranoid, mem, maxSequence, used, initial);
      used := used + [record];
      if status != Ok && |record| >= WriteBatches.HEADER {
        break;
      }
    }
    BatchesOfFront(used, all.records);
  }

  lemma {:induction false} BatchesNext(used: seq<Bytes>, more: seq<Bytes>)
    requires |more| <= 1
    ensures AllBatches([])
    ensures AllBatches(used + more) <==>
            AllBatches(used) && (more != [] ==> |more[0]| >= WriteBatches.HEADER && Iterated(more[0]).1 == Ok)
  {
    hide Iterated;
    assert forall r :: r in used ==> r in used + more;
    assert more != [] ==> more[0] in used + more;
  }

  lemma {:induction false} BatchesOfFront(front: seq<Bytes>, all: seq<Bytes>)
    requires front <= all
    ensures AllBatches(all) ==> AllBatches(front)
  {
    hide Iterated;
    assert forall r :: r in front ==> r in all;
  }

  /** One record goes into the memtable, as far as it can be read. */
  method ReplayRecord(record: Bytes, paranoid: bool, mem: seq<MemEntry>, maxSequence: int,
                      ghost used: seq<Bytes>, ghost initial: int)
    returns (mem': seq<MemEntry>, maxSequence': int, status: Status)
    requires mem == Replayed(used) && maxSequence == MaxSequence(used, initial)
    ensures mem' == Replayed(used + [record])
    ensures status == Ok || |record| < WriteBatches.HEADER ==> maxSequence' == MaxSequence(used + [record], initial)
    ensures status == Ok <==> !paranoid || (|record| >= WriteBatches.HEADER && Iterated(record).1 == Ok)
  {
    hide Iterated, Replayed, MaxSequence, Numbered, Sequence, Count;
    ReplayNext(used, record, initial);
    mem', maxSequence', status := mem, maxSequence, Ok;
    if |record| < WriteBatches.HEADER {
      if paranoid {
        status := Corruption("log record too small");
      }
      return;
    }
    var inserted;
    mem', inserted := InsertInto(record, mem);
    if inserted != Ok && paranoid {
      status := inserted;
      return;
    }
    var lastSeq := Sequence(record) + Count(record) - 1;
    if lastSeq > maxSequence {
      maxSequence' := lastSeq;
    }
  }

  lemma {:induction false} ReplayNothing(initial: int)
    ensures Replayed([]) == [] && MaxSequence([], initial) == initial
  {
  }

  lemma {:induction false} ReplayNext(used: seq<Bytes>, record: Bytes, initial: int)
    ensures Replayed(used + [record]) ==
            if |record| < WriteBatches.HEADER then Replayed(used)
            else Replayed(used) + Numbered(Iterated(record).0, Sequence(record))
    ensures MaxSequence(used + [record], initial) ==
            var front := MaxSequence(used, initial);
            if |record| < WriteBatches.HEADER then front
            else
              var last := Sequence(record) + Count(record) - 1;
              if last > front then last else front
  {
    hide Iterated, Numbered, Sequence, Count;
    assert (used + [record])[..|used|] == used;
  }

  lemma {:induction false} ReplayedConcat(a: seq<Bytes>, b: seq<Bytes>)
    ensures Replayed(a + b) == Replayed(a) + Replayed(b)
  {
    hide ReplayedRecord;
    if b == [] {
      assert a + b == a;
    } else {
      assert (a + b)[..|a + b| - 1] == a + b[..|b| - 1];
      ReplayedConcat(a, b[..|b| - 1]);
    }
  }

  /** Damaged blocks in front of a log cost only what was in them: a recovery that is not
      paranoid then replays every record of the log. */
  lemma {:induction false} DamageCostsItsBlocks(blocks: Bytes, file: Bytes, written: seq<Bytes>)
    returns (before: seq<Bytes>)
    requires |blocks| % LogFormat.BLOCK == 0 && file <= LogFormat.Log(0, written)
    ensures Replayed(ReadFile(blocks + file, true).records) ==
            Replayed(before) + Replayed(written[..LogFormat.Complete(0, written, |file|)])
  {
    hide ReadFile, Replayed, LogFormat.Log, LogFormat.Complete;
    before := Resync(blocks, file, written, true);
    ReplayedConcat(before, written[..LogFormat.Complete(0, written, |file|)]);
  }

  // ---------- what the write queue's records replay to ----------

  /** No step failed: every group returned success to its members. */
  ghost predicate ErrorFree(groups: seq<Group>) {
    forall g :: g in groups ==> g.Valid() && g.ok
  }

  lemma {:induction false} GroupRecord(g: Group, first: nat)
    requires g.Valid() && first < TWO64
    ensures AllBatches(NewRecords(g, first))
  {
    hide Iterated, Rep;
    BatchRoundTrip(first, g.ops);
  }

  lemma {:induction false} BatchesTogether(a: seq<Bytes>, b: seq<Bytes>)
    ensures AllBatches([]) && (AllBatches(a) && AllBatches(b) ==> AllBatches(a + b))
  {
    hide Iterated;
  }

  lemma {:induction false} RecordsAreBatches(groups: seq<Group>, base: nat)
    requires (forall g :: g in groups ==> g.Valid()) && base + Total(groups) + 1 < TWO64
    ensures AllBatches(Records(groups, base))
  {
    hide Iterated, Rep, Sequence, Count, Numbered, Group.Valid, AllBatches, NewRecords;
    BatchesTogether([], []);
    if groups != [] {
      var front, last := groups[..|groups| - 1], groups[|groups| - 1];
      assert last in groups && forall g :: g in front ==> g in groups;
      RecordsAreBatches(front, base);
      GroupRecord(last, base + Total(front) + 1);
      BatchesTogether(Records(front, base), NewRecords(last, base + Total(front) + 1));
    }
  }

  /** In an error-free run the memtable holds the batches of all writers that returned, in
      queue order and with consecutive sequence numbers; replaying the log rebuilds
      exactly that, and the last sequence number. */
  lemma {:induction false} ReplayRebuilds(groups: seq<Group>, base: nat)
    requires ErrorFree(groups) && base + Total(groups) + 1 < TWO64
    ensures Entries(groups, base) == Numbered(AllUpdates(Members(groups)), base + 1)
    ensures Total(groups) == |AllUpdates(Members(groups))|
    ensures Replayed(Records(groups, base)) == Entries(groups, base)
    ensures MaxSequence(Records(groups, base), base) == base + Total(groups)
  {
    hide Numbered, Rep, Iterated, Sequence, Count, AllUpdates;
    if groups == [] {
      NothingNumbered(base + 1);
    } else {
      var front, last := groups[..|groups| - 1], groups[|groups| - 1];
      assert last in groups && forall g :: g in front ==> g in groups;
      var first := base + Total(front) + 1;
      ReplayRebuilds(front, base);
      AllUpdatesConcat(Members(front), last.members);
      NumberedConcat(AllUpdates(Members(front)), AllUpdates(last.members), base + 1);
      OneGroup(last, first, Records(front, base));
    }
  }

  lemma {:induction false} NothingNumbered(first: nat)
    ensures Numbered([], first) == [] && AllUpdates([]) == []
  {
  }

  lemma {:induction false} OneGroup(g: Group, first: nat, records: seq<Bytes>)
    requires g.Valid() && g.ok && first + |g.ops| < TWO64 && first > 0
    ensures g.ops == AllUpdates(g.members)
    ensures NewEntries(g, first) == Numbered(g.ops, first)
    ensures Replayed(records + NewRecords(g, first)) == Replayed(records) + Numbered(g.ops, first)
    ensures forall initial :: MaxSequence(records, initial) == first - 1 ==>
              MaxSequence(records + NewRecords(g, first), initial) == first - 1 + |g.ops|
  {
    hide Numbered, Rep, Iterated, Sequence, Count;
    if g.written {
      BatchRoundTrip(first, g.ops);
      assert (records + [Rep(first, g.ops)])[..|records|] == records;
    } else {
      assert g.members[..0] == [];
      NothingNumbered(first);
      assert records + [] == records;
    }
  }

  /** A prefix of the records is what a prefix of the groups wrote. */
  lemma {:induction false} RecordsPrefix(groups: seq<Group>, base: nat, k: nat) returns (m: nat)
    requires k <= |Records(groups, base)|
    ensures m <= |groups| && Records(groups[..m], base) == Records(groups, base)[..k]
    ensures forall j :: m < j <= |groups| ==> |Records(groups[..j], base)| > k
  {
    hide Rep;
    if groups == [] || k == |Records(groups, base)| {
      m := |groups|;
      assert groups[..m] == groups;
    } else {
      var front := groups[..|groups| - 1];
      if k <= |Records(front, base)| {
        m := RecordsPrefix(front, base, k);
        assert front[..m] == groups[..m];
        forall j | m < j <= |groups| ensures |Records(groups[..j], base)| > k {
          if j < |groups| {
            assert front[..j] == groups[..j];
          } else {
            assert groups[..j] == groups;
          }
        }
      }
    }
  }

  lemma {:induction false} TotalPrefix(groups: seq<Group>, m: nat)
    requires m <= |groups|
    ensures Total(groups[..m]) <= Total(groups)
    ensures Members(groups[..m]) <= Members(groups)
  {
    if m < |groups| {
      var front := groups[..|groups| - 1];
      assert front[..m] == groups[..m];
      TotalPrefix(front, m);
    } else {
      assert groups[..m] == groups;
    }
  }

  /** The first m groups are those whose records lie wholly in the first `cut` bytes of the log. */
  ghost predicate WholeGroups(groups: seq<Group>, base: nat, cut: nat, m: nat) {
    && m <= |groups|
    && forall j :: 0 <= j <= |groups| ==> (|LogFormat.Log(0, Records(groups[..j], base))| <= cut <==> j <= m)
  }

  lemma {:induction false} CutGroups(groups: seq<Group>, base: nat, cut: nat, n: nat, k: nat, m: nat)
    requires m <= |groups| && k <= |Records(groups, base)| && Records(groups[..m], base) == Records(groups, base)[..k]
    requires forall j :: m < j <= |groups| ==> |Records(groups[..j], base)| > k
    requires var records := Records(groups, base);
             k == LogFormat.Complete(0, records, n) && (n == cut
                                                        || (n == |LogFormat.Log(0, records)| <= cut && k == |records|))
    ensures WholeGroups(groups, base, cut, m)
  {
    hide LogFormat.Log, LogFormat.Complete, Records;
    var records := Records(groups, base);
    LogFormat.CompleteIsExact(0, records, n);
    forall j | 0 <= j <= |groups| ensures |LogFormat.Log(0, Records(groups[..j], base))| <= cut <==> j <= m {
      RecordsOfFront(groups, base, j);
      var i := |Records(groups[..j], base)|;
      assert Records(groups[..j], base) == records[..i];
      if j <= m {
        RecordsOfFront(groups[..m], base, j);
        assert groups[..m][..j] == groups[..j];
        LogGrows(records, i, k);
      } else {
        LogGrows(records, k + 1, i);
      }
    }
  }

  lemma {:induction false} RecordsOfFront(groups: seq<Group>, base: nat, j: nat)
    requires j <= |groups|
    ensures Records(groups[..j], base) <= Records(groups, base)
  {
    hide Rep;
    if j < |groups| {
      var front := groups[..|groups| - 1];
      assert front[..j] == groups[..j];
      RecordsOfFront(front, base, j);
    } else {
      assert groups[..j] == groups;
    }
  }

  lemma {:induction false} LogGrows(records: seq<Bytes>, i: nat, j: nat)
    requires i <= j <= |records|
    ensures |LogFormat.Log(0, records[..i])| <= |LogFormat.Log(0, records[..j])|
  {
    hide LogFormat.Log;
    assert records[..j] == records[..i] + records[i..j];
    LogFormat.LogConcat(0, records[..i], records[i..j]);
  }

  /** Crash recovery.  Cut the log of an error-free run off at any byte: recovery succeeds and
      rebuilds exactly the batches of the groups whose records lie wholly in what is left,
      numbered as they were; with the whole file, all of them. */
  method RecoverAfterCrash(queue: WriteQueue, cut: nat, paranoid: bool, manifestSequence: nat)
    returns (mem: seq<MemEntry>, maxSequence: int, status: Status, ghost survivors: seq<Writer>, ghost m: nat)
    requires queue.Valid() && ErrorFree(queue.groups) && queue.lastSequence + 1 < TWO64
    requires manifestSequence == queue.base
    ensures status == Ok && survivors <= queue.arrivals
    ensures WholeGroups(queue.groups, queue.base, cut, m) && survivors == Members(queue.groups[..m])
    ensures mem == Numbered(AllUpdates(survivors), queue.base + 1)
    ensures maxSequence == queue.base + |AllUpdates(survivors)|
    ensures cut >= |queue.log.dest| ==> mem == queue.mem && maxSequence == queue.lastSequence
  {
    hide LogFormat.Log, LogFormat.Complete, Numbered, Rep, AllUpdates, AllBatches, Replayed, MaxSequence, Group.Valid,
         Completions, Records, Entries;
    ghost var written := Records(queue.groups, queue.base);
    var file := if cut < |queue.log.dest| then queue.log.dest[..cut] else queue.log.dest;
    RecordsAreBatches(queue.groups, queue.base);
    ghost var used;
    mem, maxSequence, status, used := RecoverLogFile(file, paranoid, manifestSequence);
    LogReaders.ReadsPrefix(file, written, true);
    BatchesOfFront(written[..LogFormat.Complete(0, written, |file|)], written);
    LogFormat.CompleteWholeFile(0, written);
    ghost var k := LogFormat.Complete(0, written, |file|);
    survivors, m := Survivors(queue.groups, queue.base, k);
    CutGroups(queue.groups, queue.base, cut, |file|, k, m);
    assert queue.arrivals == Members(queue.groups) + queue.writers;
  }

  lemma {:induction false} Survivors(groups: seq<Group>, base: nat, k: nat) returns (survivors: seq<Writer>, m: nat)
    requires ErrorFree(groups) && base + Total(groups) + 1 < TWO64 && k <= |Records(groups, base)|
    ensures survivors <= Members(groups) && m <= |groups| && survivors == Members(groups[..m])
    ensures Records(groups[..m], base) == Records(groups, base)[..k]
    ensures forall j :: m < j <= |groups| ==> |Records(groups[..j], base)| > k
    ensures Replayed(Records(groups, base)[..k]) == Numbered(AllUpdates(survivors), base + 1)
    ensures MaxSequence(Records(groups, base)[..k], base) == base + |AllUpdates(survivors)|
    ensures k == |Records(groups, base)| ==>
              && Replayed(Records(groups, base)[..k]) == Entries(groups, base)
              && MaxSequence(Records(groups, base)[..k], base) == base + Total(groups)
  {
    hide Numbered, Replayed, MaxSequence, AllUpdates, Records, Entries;
    m := RecordsPrefix(groups, base, k);
    TotalPrefix(groups, m);
    assert forall g :: g in groups[..m] ==> g in groups;
    survivors := Members(groups[..m]);
    ReplayRebuilds(groups[..m], base);
    ReplayRebuilds(groups, base);
    assert Records(groups, base)[..|Records(groups, base)|] == Records(groups, base);
  }
}

/** The write queue of the database (db/db_impl.cc): writers line up, the one in front
    writes for a group of them, and the log replays to what was written.

    The mutex makes three steps atomic: a writer joins the queue, the front writer forms
    its group, and the front writer finishes.  Other writers may join while the front
    writer logs, so the three may interleave in any order that the queue allows. */
module GroupCommits {
  import opened Wrappers
  import opened Coding
  import opened WriteBatches
  import InternalKeys
  import LogFormat
  import LogWriters

  /** A blocked caller: its batch (None asks for a memtable switch), given by its operations. */
  datatype Writer = Writer(id: nat, ops: Option<seq<Op>>, sync: bool) {
    ghost predicate Fits() {
      ops.Some? ==> AllFit(ops.value) && |ops.value| < 0x8000_0000
    }

    function Updates(): seq<Op> {
      if ops.Some? then ops.value else []
    }

    function ByteSize(): nat
      requires ops.Some?
    {
      WriteBatches.HEADER + |EncodeOps(ops.value)|
    }
  }

  datatype MemEntry = MemEntry(key: Bytes, sequence: nat, kind: InternalKeys.ValueType, value: Bytes)

  /** What MemTableInserter adds for an operation. */
  function EntryFor(op: Op, sequence: nat): MemEntry {
    match op
    case Put(key, value) => MemEntry(key, sequence, InternalKeys.Value, value)
    case Delete(key) => MemEntry(key, sequence, InternalKeys.Deletion, [])
  }

  /** Operations with consecutive sequence numbers. */
  function Numbered(ops: seq<Op>, first: nat): seq<MemEntry> {
    if ops == [] then [] else [EntryFor(ops[0], first)] + Numbered(ops[1..], first + 1)
  }

  lemma {:induction false} NumberedConcat(a: seq<Op>, b: seq<Op>, first: nat)
    ensures Numbered(a + b, first) == Numbered(a, first) + Numbered(b, first + |a|)
    decreases |a|
  {
    if a == [] {
      assert a + b == b;
    } else {
      assert (a + b)[1..] == a[1..] + b;
      NumberedConcat(a[1..], b, first + 1);
    }
  }

  lemma {:induction false} NumberedAt(ops: seq<Op>, first: nat, i: nat)
    requires i < |ops|
    ensures |Numbered(ops, first)| == |ops| && Numbered(ops, first)[i] == EntryFor(ops[i], first + i)
    decreases |ops|
  {
    if i > 0 {
      NumberedAt(ops[1..], first + 1, i - 1);
    } else if |ops| > 1 {
      NumberedAt(ops[1..], first + 1, 0);
    }
  }

  /** The operations of some writers, in queue order; a null batch has none. */
  function AllUpdates(ws: seq<Writer>): seq<Op> {
    if ws == [] then [] else AllUpdates(ws[..|ws| - 1]) + ws[|ws| - 1].Updates()
  }

  lemma {:induction false} AllUpdatesConcat(a: seq<Writer>, b: seq<Writer>)
    ensures AllUpdates(a + b) == AllUpdates(a) + AllUpdates(b)
  {
    if b == [] {
      assert a + b == a;
    } else {
      assert (a + b)[..|a + b| - 1] == a + b[..|b| - 1];
      AllUpdatesConcat(a, b[..|b| - 1]);
    }
  }

  // ---------- forming a group ----------

  const MAX_GROUP: nat := 0x10_0000
  const SMALL_WRITE: nat := 0x2_0000

  function MaxSize(first: nat): nat {
    if first <= SMALL_WRITE then first + SMALL_WRITE else MAX_GROUP
  }

  /** BuildBatchGroup: the length of the group at the front of the queue, and its one batch. */
  method BuildBatchGroup(writers: seq<Writer>) returns (n: nat, updates: WriteBatch)
    requires writers != [] && writers[0].ops.Some? && forall w :: w in writers ==> w.Fits()
    ensures 1 <= n <= |writers|
    ensures !writers[0].sync ==> forall i :: 0 <= i < n ==> !writers[i].sync
    ensures fresh(updates) && updates.Valid() && updates.ops == AllUpdates(writers[..n])
    ensures |updates.ops| < 0x8000_0000
    ensures LongestGroup(writers, n)
  {
    hide EncodeOps, Rep, AllUpdates, WriteBatch.Valid;
    var first := writers[0];
    var size := first.ByteSize();
    var maxSize := MAX_GROUP;
    if size <= SMALL_WRITE {
      maxSize := size + SMALL_WRITE;
    }
    assert first in writers && first.Fits();
    updates := new WriteBatch();
    assert updates.ops + first.ops.value == first.ops.value;
    updates.Append(Rep(0, first.ops.value), 0, first.ops.value);
    EncodeOpsLength(first.ops.value);
    n := 1;
    FirstOnly(writers);
    while n < |writers|
      invariant 1 <= n <= |writers| && fresh(updates) && updates.Valid()
      invariant updates.ops == AllUpdates(writers[..n]) && size == GroupSize(writers, n)
      invariant |updates.ops| <= size && |updates.ops| < 0x8000_0000
      invariant !first.sync ==> forall i :: 0 <= i < n ==> !writers[i].sync
      invariant forall i :: 1 <= i < n ==> !CannotJoin(writers, i)
    {
      var w := writers[n];
      assert w in writers && w.Fits() && writers[..n + 1][..n] == writers[..n];
      if w.sync && !first.sync {
        break;
      }
      if w.ops.Some? {
        size := size + w.ByteSize();
        if size > maxSize {
          break;
        }
        EncodeOpsLength(w.ops.value);
        updates.Append(Rep(0, w.ops.value), 0, w.ops.value);
      }
      MoreUpdates(writers, n);
      n := n + 1;
    }
  }

  /** The first n writers may join, and the next one may not. */
  ghost predicate LongestGroup(writers: seq<Writer>, n: nat)
    requires writers != [] && writers[0].ops.Some?
  {
    && 1 <= n <= |writers|
    && (forall i :: 1 <= i < n ==> !CannotJoin(writers, i))
    && (n < |writers| ==> CannotJoin(writers, n))
  }

  lemma {:induction false} MoreUpdates(writers: seq<Writer>, n: nat)
    requires n < |writers|
    ensures AllUpdates(writers[..n + 1]) ==
            AllUpdates(writers[..n]) + if writers[n].ops.Some? then writers[n].ops.value else []
  {
    assert writers[..n + 1][..n] == writers[..n];
  }

  lemma {:induction false} FirstOnly(writers: seq<Writer>)
    requires writers != []
    ensures AllUpdates(writers[..1]) == writers[0].Updates()
    ensures GroupSize(writers, 1) == if writers[0].ops.Some? then writers[0].ByteSize() else 0
  {
    assert writers[..1][..0] == [];
    assert GroupSize(writers, 0) == 0;
  }

  /** Writer i must wait: it is synchronous and the leader is not, or the group would be too big. */
  ghost predicate CannotJoin(writers: seq<Writer>, i: nat)
    requires 0 < i < |writers| && writers[0].ops.Some?
  {
    || (writers[i].sync && !writers[0].sync)
    || (writers[i].ops.Some? && GroupSize(writers, i + 1) > MaxSize(writers[0].ByteSize()))
  }

  /** The bytes of the batches of the first n writers. */
  function GroupSize(writers: seq<Writer>, n: nat): nat
    requires n <= |writers|
  {
    if n == 0 then 0
    else GroupSize(writers, n - 1) + if writers[n - 1].ops.Some? then writers[n - 1].ByteSize() else 0
  }

  // ---------- what the groups wrote ----------

  /** A finished group: its members, and how far it came.  `written` groups took sequence
      numbers; `ok` is the status every member was given. */
  datatype Group = Group(members: seq<Writer>, ops: seq<Op>, written: bool, logged: bool, ok: bool) {
    ghost predicate Valid() {
      && members != [] && AllFit(ops) && |ops| < 0x8000_0000
      && (!members[0].sync ==> forall i :: 0 <= i < |members| ==> !members[i].sync)
      && (written ==> members[0].ops.Some? && ops == AllUpdates(members))
      && (!written ==> |members| == 1 && ops == [] && !logged)
      && (written && ok ==> logged)
      && (ok && !written ==> members[0].ops == None)
    }

    predicate Applied() {
      written && ok
    }

    /** The record was appended, but could not be synced. */
    predicate SyncFailed() {
      logged && !ok
    }
  }

  /** A failed sync is remembered, and nothing is written after it. */
  ghost predicate FailStop(groups: seq<Group>, bgError: bool) {
    && (bgError <==> exists g :: g in groups && g.SyncFailed())
    && (forall i, j :: 0 <= i < j < |groups| && groups[i].SyncFailed() ==> !groups[j].written && !groups[j].ok)
  }

  lemma {:induction false} FailStopNext(groups: seq<Group>, bgError: bool, g: Group)
    requires FailStop(groups, bgError) && (bgError ==> !g.written && !g.ok)
    ensures FailStop(groups + [g], bgError || g.SyncFailed())
  {
    var all := groups + [g];
    assert bgError ==> exists x :: x in all && x.SyncFailed() by {
      if bgError {
        var x :| x in groups && x.SyncFailed();
        assert x in all;
      }
    }
    forall i, j | 0 <= i < j < |all| && all[i].SyncFailed() ensures !all[j].written && !all[j].ok {
      assert groups[i] in groups;
    }
  }

  /** The sequence numbers taken by the groups. */
  function Total(groups: seq<Group>): nat {
    if groups == [] then 0 else Total(groups[..|groups| - 1]) + |groups[|groups| - 1].ops|
  }

  function Members(groups: seq<Group>): seq<Writer> {
    if groups == [] then [] else Members(groups[..|groups| - 1]) + groups[|groups| - 1].members
  }

  /** The log records: one for each logged group, numbered from base + 1. */
  function Records(groups: seq<Group>, base: nat): seq<Bytes> {
    if groups == [] then []
    else
      var front, last := groups[..|groups| - 1], groups[|groups| - 1];
      Records(front, base) + NewRecords(last, base + Total(front) + 1)
  }

  /** The memtable entries: those of each applied group. */
  function Entries(groups: seq<Group>, base: nat): seq<MemEntry> {
    if groups == [] then []
    else
      var front, last := groups[..|groups| - 1], groups[|groups| - 1];
      Entries(front, base) + NewEntries(last, base + Total(front) + 1)
  }

  /** Each writer with the status it was given. */
  function Completions(groups: seq<Group>): seq<(Writer, bool)> {
    if groups == [] then []
    else
      var front, last := groups[..|groups| - 1], groups[|groups| - 1];
      Completions(front) + WithStatus(last.members, last.ok)
  }

  function WithStatus(ws: seq<Writer>, ok: bool): seq<(Writer, bool)> {
    seq(|ws|, i requires 0 <= i < |ws| => (ws[i], ok))
  }

  /** What the queue's fields say about the groups that have finished: every writer that
      arrived is in one group or still waits, in order; sequence numbers, log records and
      memtable entries are those of the groups. */
  ghost predicate Consistent(writers: seq<Writer>, arrivals: seq<Writer>, groups: seq<Group>, done: seq<(Writer, bool)>,
                             lastSequence: nat, records: seq<Bytes>, mem: seq<MemEntry>, base: nat)
  {
    && (forall w :: w in writers ==> w.Fits())
    && (forall g :: g in groups ==> g.Valid())
    && arrivals == Members(groups) + writers
    && done == Completions(groups)
    && lastSequence == base + Total(groups)
    && records == Records(groups, base)
    && mem == Entries(groups, base)
  }

  function NewRecords(g: Group, first: nat): seq<Bytes> {
    if g.logged then [Rep(first, g.ops)] else []
  }

  function NewEntries(g: Group, first: nat): seq<MemEntry> {
    if g.Applied() then Numbered(g.ops, first) else []
  }

  lemma {:induction false} NothingWritten(g: Group, records: seq<Bytes>, mem: seq<MemEntry>, first: nat)
    ensures !g.logged ==> records + NewRecords(g, first) == records
    ensures !g.Applied() ==> mem + NewEntries(g, first) == mem
  {
  }

  lemma {:induction false} GroupFinished(writers: seq<Writer>, arrivals: seq<Writer>, groups: seq<Group>,
                                         done: seq<(Writer, bool)>,
                                         lastSequence: nat, records: seq<Bytes>, mem: seq<MemEntry>, base: nat,
                                         g: Group)
    requires Consistent(writers, arrivals, groups, done, lastSequence, records, mem, base)
    requires g.Valid() && g.members <= writers
    ensures Consistent(writers[|g.members|..], arrivals, groups + [g], done + WithStatus(g.members, g.ok),
                       lastSequence + |g.ops|, records + NewRecords(g, lastSequence + 1),
                       mem + NewEntries(g, lastSequence + 1), base)
  {
    hide Numbered, Rep, Group.Valid, Writer.Fits, NewRecords, NewEntries, WithStatus;
    var all := groups + [g];
    assert all[..|groups|] == groups;
    assert writers == g.members + writers[|g.members|..];
    assert Members(all) + writers[|g.members|..] == Members(groups) + writers;
  }

  lemma {:induction false} FrontOfAll(groups: seq<Group>, n: nat, base: nat)
    requires n <= |groups|
    ensures Entries(groups[..n], base) <= Entries(groups, base)
    ensures Completions(groups[..n]) <= Completions(groups)
  {
    hide NewEntries, WithStatus;
    if n < |groups| {
      var front := groups[..|groups| - 1];
      FrontOfAll(front, n, base);
      assert front[..n] == groups[..n];
    } else {
      assert groups[..n] == groups;
    }
  }

  lemma {:induction false} LoggedIsApplied(groups: seq<Group>, i: nat, base: nat)
    requires i < |groups| && groups[i].logged && forall g :: g in groups ==> g.Valid() && !g.SyncFailed()
    ensures groups[i].Applied()
    ensures Entries(groups[..i], base) + Numbered(groups[i].ops, base + Total(groups[..i]) + 1) <= Entries(groups, base)
    ensures forall w :: w in groups[i].members ==> (w, true) in Completions(groups)
  {
    hide Numbered;
    assert groups[i] in groups && groups[i].Valid() && groups[i].Applied();
    assert groups[..i + 1][..i] == groups[..i];
    FrontOfAll(groups, i + 1, base);
    hide Group.Valid, Total;
    forall w | w in groups[i].members ensures (w, true) in Completions(groups) {
      var k :| 0 <= k < |groups[i].members| && groups[i].members[k] == w;
      assert WithStatus(groups[i].members, true)[k] == (w, true);
      assert (w, true) in Completions(groups[..i + 1]);
    }
  }

  lemma {:induction false} NoEntriesAfter(groups: seq<Group>, i: nat, n: nat, base: nat)
    requires i < n <= |groups| && groups[i].SyncFailed()
    requires forall j :: i < j < |groups| ==> !groups[j].written
    ensures Entries(groups[..n], base) == Entries(groups[..i], base)
  {
    var front, last := groups[..n - 1], groups[n - 1];
    assert groups[..n][..n - 1] == front;
    if i < n - 1 {
      NoEntriesAfter(groups, i, n - 1, base);
    }
    assert !last.Applied();
  }

  // ---------- the queue ----------

  class WriteQueue {
    var writers: seq<Writer>
    var lastSequence: nat
    var mem: seq<MemEntry>
    const log: LogWriters.Writer
    /** A failed sync makes all future writes fail. */
    var bgError: bool
    /** The front writer has released the mutex and is writing for `groupSize` writers. */
    var leading: bool
    var groupSize: nat
    var updates: WriteBatch
    /** Callers that have returned, with their status. */
    var done: seq<(Writer, bool)>

    ghost const base: nat
    ghost var groups: seq<Group>
    ghost var arrivals: seq<Writer>

    ghost predicate Valid()
      reads this, log, updates
    {
      && log.Valid()
      && Consistent(writers, arrivals, groups, done, lastSequence, log.records, mem, base)
      && FailStop(groups, bgError) && (leading ==> Pending())
    }

    /** The group being written: its batch carries the next sequence numbers. */
    ghost predicate Pending()
      reads this, updates
    {
      && 1 <= groupSize <= |writers| && updates.Valid() && !bgError
      && writers[0].ops.Some?
      && updates.ops == AllUpdates(writers[..groupSize]) && |updates.ops| < 0x8000_0000
      && updates.sequence == lastSequence + 1
      && (!writers[0].sync ==> forall i :: 0 <= i < groupSize ==> !writers[i].sync)
    }

    constructor (lastSequence: nat)
      ensures Valid() && writers == [] && groups == [] && arrivals == [] && base == lastSequence && !leading
    {
      writers := [];
      this.lastSequence := lastSequence;
      mem := [];
      log := new LogWriters.Writer();
      bgError := false;
      leading := false;
      groupSize := 0;
      updates := new WriteBatch();
      done := [];
      base := lastSequence;
      groups, arrivals := [], [];
    }

    /** A caller joins the queue; it may do so while the front writer is logging. */
    method Enqueue(w: Writer)
      requires Valid() && w.Fits()
      modifies `writers, `arrivals
      ensures Valid() && writers == old(writers) + [w] && arrivals == old(arrivals) + [w]
    {
      hide FailStop, LogFormat.Log, LogFormat.LogEnd, Rep, AllUpdates, LogWriters.Writer.Valid, WriteBatch.Valid,
           Members,
           Consistent;
      JoinConsistent(w);
      writers := writers + [w];
      arrivals := arrivals + [w];
      assert leading ==> writers[..groupSize] == old(writers)[..groupSize];
    }

    lemma {:induction false} JoinConsistent(w: Writer)
      requires w.Fits() && Consistent(writers, arrivals, groups, done, lastSequence, log.records, mem, base)
      ensures Consistent(writers + [w], arrivals + [w], groups, done, lastSequence, log.records, mem, base)
    {
      hide Members;
    }

    /** The front writer has made room, or failed to, and forms its group. */
    method Lead(roomOk: bool)
      requires Valid() && !leading && writers != [] && (bgError ==> !roomOk)
      requires lastSequence + 1 < TWO64
      modifies this
      ensures Valid() && arrivals == old(arrivals)
      ensures leading <==> roomOk && old(writers)[0].ops.Some?
      ensures bgError == old(bgError)
      ensures leading ==> groups == old(groups) && writers == old(writers) && LongestGroup(writers, groupSize)
      ensures !leading ==> groups == old(groups) + [Group(old(writers)[..1], [], false, false, roomOk)]
    {
      hide Numbered, Rep, AllUpdates, CannotJoin, Consistent, WithStatus, NewRecords, NewEntries,
           LogWriters.Writer.Valid, Group.Valid, FailStop, LongestGroup;
      FrontFits();
      if roomOk && writers[0].ops.Some? {
        groupSize, updates := BuildBatchGroup(writers);
        updates.SetSequence(lastSequence + 1);
        leading := true;
      } else {
        ghost var g := Group(writers[..1], [], false, false, roomOk);
        EmptyGroup(g);
        FailStopNext(groups, bgError, g);
        GroupFinished(writers, arrivals, groups, done, lastSequence, log.records, mem, base, g);
        NothingWritten(g, log.records, mem, lastSequence + 1);
        PopGroup(1, roomOk);
        groups := groups + [g];
      }
    }

    /** The group's record is appended, synced if asked, and applied; then its members return. */
    method Commit(logOk: bool, syncOk: bool)
      requires Valid() && leading
      modifies this, log
      ensures Valid() && !leading && arrivals == old(arrivals) && groupSize == old(groupSize)
      ensures groups == old(groups) + [old(LeaderGroup(logOk, syncOk))]
      ensures bgError <==> old(bgError) || (logOk && old(writers[0].sync) && !syncOk)
    {
      hide *;
      LeaderFacts();
      ghost var g := LeaderGroup(logOk, syncOk);
      LeaderFinished(g, logOk, syncOk);
      var sync := writers[0].sync;
      var status := WriteRecord(logOk, sync, syncOk, g);
      lastSequence := lastSequence + Count(updates.rep);
      leading := false;
      PopGroup(groupSize, status);
      groups := groups + [g];
      IdleIsValid();
    }

    /** The group that the leader is writing, with the outcome of its log write and sync. */
    ghost function LeaderGroup(logOk: bool, syncOk: bool): Group
      requires writers != [] && groupSize <= |writers|
      reads this
    {
      Group(writers[..groupSize], AllUpdates(writers[..groupSize]), true, logOk, logOk && (writers[0].sync ==> syncOk))
    }

    lemma {:induction false} LeaderFinished(g: Group, logOk: bool, syncOk: bool)
      requires Valid() && leading && writers != [] && groupSize <= |writers| && g == LeaderGroup(logOk, syncOk)
      ensures Count(updates.rep) == |updates.ops| && g.ops == updates.ops
      ensures g.written && g.logged == logOk && g.ok == (logOk && (writers[0].sync ==> syncOk))
      ensures FailStop(groups + [g], bgError || (logOk && writers[0].sync && !syncOk))
      ensures Consistent(writers[groupSize..], arrivals, groups + [g], done + WithStatus(writers[..groupSize], g.ok),
                         lastSequence + |updates.ops|, log.records + NewRecords(g, updates.sequence),
                         mem + NewEntries(g, updates.sequence), base)
    {
      hide Consistent, Numbered, Rep, AllUpdates, AllFit, WithStatus, NewRecords, NewEntries;
      hide FailStop;
      LeaderFacts();
      FailStopNext(groups, bgError, g);
      WrittenGroup(g, writers);
      GroupFinished(writers, arrivals, groups, done, lastSequence, log.records, mem, base, g);
      BatchRoundTrip(updates.sequence, updates.ops);
    }

    /** What a leader knows about its queue and its batch. */
    lemma {:induction false} LeaderFacts()
      requires Valid() && leading
      ensures log.Valid() && updates.Valid()
      ensures Consistent(writers, arrivals, groups, done, lastSequence, log.records, mem, base)
      ensures 1 <= groupSize <= |writers| && writers[0].ops.Some? && (forall w :: w in writers ==> w.Fits())
      ensures updates.ops == AllUpdates(writers[..groupSize]) && |updates.ops| < 0x8000_0000 && AllFit(updates.ops)
      ensures updates.sequence == lastSequence + 1 < TWO64 && updates.rep == Rep(updates.sequence, updates.ops)
      ensures !writers[0].sync ==> forall i :: 0 <= i < groupSize ==> !writers[i].sync
      ensures FailStop(groups, bgError) && !bgError
    {
      hide Consistent, Numbered, Rep, AllUpdates, AllFit, FailStop;
      FrontFits();
    }

    lemma {:induction false} IdleIsValid()
      requires !leading && log.Valid()
      requires Consistent(writers, arrivals, groups, done, lastSequence, log.records, mem, base)
      requires FailStop(groups, bgError)
      ensures Valid()
    {
    }

    /** As long as no sync has failed there is no error; every group whose record was appended
        has been applied, and all of its members were told so. */
    lemma {:induction false} AppliedUnlessSyncFailed(i: nat)
      requires Valid() && i < |groups| && groups[i].logged && forall g :: g in groups ==> !g.SyncFailed()
      ensures !bgError && groups[i].Applied()
      ensures Entries(groups[..i], base) + Numbered(groups[i].ops, base + Total(groups[..i]) + 1) <= mem
      ensures forall w :: w in groups[i].members ==> (w, true) in done
    {
      hide *;
      QueueFacts();
      LoggedIsApplied(groups, i, base);
    }

    lemma {:induction false} QueueFacts()
      requires Valid()
      ensures mem == Entries(groups, base) && done == Completions(groups) && forall g :: g in groups ==> g.Valid()
      ensures (forall g :: g in groups ==> !g.SyncFailed()) ==> !bgError
    {
      hide Entries, Completions, Group.Valid, Group.SyncFailed, Pending, Total, Records, Members;
    }

    /** After a failed sync nothing more is written, and nobody is told that it was. */
    lemma {:induction false} NothingAfterError(i: nat, j: nat)
      requires Valid() && i < j < |groups| && groups[i].SyncFailed()
      ensures bgError && !leading && !groups[j].logged && !groups[j].ok
      ensures Entries(groups, base) == Entries(groups[..i], base)
    {
      assert groups[i] in groups && groups[j] in groups;
      NoEntriesAfter(groups, i, |groups|, base);
      assert groups[..|groups|] == groups;
    }

    static lemma {:induction false} WrittenGroup(g: Group, writers: seq<Writer>)
      requires g.members != [] && g.members <= writers && g.written && AllFit(g.ops) && |g.ops| < 0x8000_0000
      requires g.members[0].ops.Some? && g.ops == AllUpdates(g.members) && (g.ok ==> g.logged)
      requires !g.members[0].sync ==> forall i :: 0 <= i < |g.members| ==> !g.members[i].sync
      ensures g.Valid()
    {
      hide AllFit, AllUpdates;
    }

    /** Log, sync and apply the group's batch, stopping at the first failure. */
    method WriteRecord(logOk: bool, sync: bool, syncOk: bool, ghost g: Group) returns (status: bool)
      requires log.Valid() && updates.Valid() && g.written && g.ops == updates.ops
      requires g.logged == logOk && g.ok == (logOk && (sync ==> syncOk))
      modifies `mem, `bgError, log
      ensures log.Valid() && log.records == old(log.records) + NewRecords(g, updates.sequence)
      ensures mem == old(mem) + NewEntries(g, updates.sequence)
      ensures status == g.ok && (bgError <==> old(bgError) || (logOk && sync && !syncOk))
    {
      hide Numbered, Rep, Iterated, Count, Sequence;
      NothingWritten(g, log.records, mem, updates.sequence);
      BatchRoundTrip(updates.sequence, updates.ops);
      var syncError := false;
      status := logOk;
      if status {
        log.AddRecord(updates.rep);
      }
      if status && sync {
        status := syncOk;
        syncError := !status;
      }
      if status {
        var inserted;
        mem, inserted := InsertInto(updates.rep, mem);
        status := inserted == Ok;
      }
      if syncError {
        bgError := true;
      }
    }

    /** A group of one whose batch is null, or for which there was no room. */
    static lemma {:induction false} EmptyGroup(g: Group)
      requires |g.members| == 1 && g.ops == [] && !g.written && !g.logged && (g.ok ==> g.members[0].ops == None)
      ensures g.Valid()
    {
    }

    lemma {:induction false} FrontFits()
      requires Valid() && writers != []
      ensures forall w :: w in writers ==> w.Fits()
    {
    }

    static lemma {:induction false} NoStatus(status: bool)
      ensures WithStatus([], status) == []
    {
    }

    static lemma {:induction false} StatusNext(writers: seq<Writer>, n: nat, status: bool)
      requires n < |writers|
      ensures WithStatus(writers[..n + 1], status) == WithStatus(writers[..n], status) + [(writers[n], status)]
    {
      var all := writers[..n + 1];
      assert all[..n] == writers[..n] && all[|all| - 1] == writers[n];
    }

    /** The members of the group leave the queue with its status. */
    method PopGroup(n: nat, status: bool)
      requires 1 <= n <= |writers|
      modifies `writers, `done
      ensures writers == old(writers)[n..]
      ensures done == old(done) + WithStatus(old(writers)[..n], status)
    {
      hide WithStatus;
      NoStatus(status);
      assert writers[0..] == writers;
      var popped := 0;
      while popped < n
        invariant popped <= n && writers == old(writers)[popped..]
        invariant done == old(done) + WithStatus(old(writers)[..popped], status)
      {
        StatusNext(old(writers), popped, status);
        var ready := writers[0];
        writers := writers[1..];
        done := done + [(ready, status)];
        popped := popped + 1;
      }
    }
  }

  /** WriteBatchInternal::InsertInto: the handler numbers the operations it is given. */
  method InsertInto(rep: Bytes, mem: seq<MemEntry>) returns (mem': seq<MemEntry>, status: Status)
    ensures status == Iterated(rep).1
    ensures |rep| >= WriteBatches.HEADER ==> mem' == mem + Numbered(Iterated(rep).0, Sequence(rep))
    ensures |rep| < WriteBatches.HEADER ==> mem' == mem
  {
    hide Iterated;
    var calls;
    calls, status := Iterate(rep);
    mem' := mem;
    if |rep| < WriteBatches.HEADER {
      return mem, Iterated(rep).1;
    }
    var sequence := Sequence(rep);
    for i := 0 to |calls|
      invariant sequence == Sequence(rep) + i && mem' == mem + Numbered(calls[..i], Sequence(rep))
    {
      NumberedConcat(calls[..i], [calls[i]], Sequence(rep));
      assert calls[..i + 1] == calls[..i] + [calls[i]];
      assert [calls[i]][1..] == [];
      mem' := mem' + [EntryFor(calls[i], sequence)];
      sequence := sequence + 1;
    }
    assert calls[..|calls|] == calls;
  }
}

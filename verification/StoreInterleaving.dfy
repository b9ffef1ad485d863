/** Compactions that take time: while the loop runs, writes, snapshots and flushes of the
    memtable go on, and the outputs are installed in whatever version there is by then
    (db/db_impl.cc). */
module StoreInterleavings {
  import opened Wrappers
  import opened InternalKeys
  import opened Versions
  import opened VersionBuilders
  import opened CompactionPickers
  import opened CompactionGaps
  import opened Compactions
  import opened Stores
  import opened SortedLists
  import opened StoreSteps
  import opened StoreFlushes
  import opened StoreCompactions
  import opened StoreRuns

  /** A compaction under way: what was picked, the merged input, and what the loop makes of it. */
  datatype Job = Job(pick: Pick, input: seq<Entry>, outputs: Files)

  /** The loop starts, with the version and the snapshots of that moment.  The numbers of its
      outputs are set aside. */
  ghost predicate Begins(st: Store, st': Store, job: Job) {
    && st' == st.(nextFileNumber := st'.nextFileNumber)
    && WhatIsKept(st, job.pick, job.input, job.outputs)
    && exists version :: Replaces(st, version, st'.nextFileNumber, job)
  }

  ghost predicate Replaces(st: Store, version: Version, nextFileNumber: nat, job: Job) {
    ReplaceInputs(st, st.(version := version, nextFileNumber := nextFileNumber), job.pick, job.input, job.outputs)
    && forall f :: f in job.outputs ==> st.nextFileNumber <= f.number
  }

  /** The outputs take the place of the inputs. */
  ghost predicate Installed(st: Store, st': Store, job: Job) {
    && FilesReplaced(st.version, st'.version, job.pick, job.outputs)
    && st' == st.(version := st'.version)
  }

  /** The inputs are still there, and the outputs are new and hold entries of the inputs. */
  ghost predicate Held(st: Store, job: Job) {
    && |st.version.levels| == NUM_LEVELS && job.pick.level + 1 < NUM_LEVELS
    && Subset(job.pick.inputs, st.version.levels[job.pick.level])
    && Subset(job.pick.parentInputs, st.version.levels[job.pick.level + 1])
    && (forall o, e :: o in job.outputs && e in o.entries ==> InputEntry(job.pick, e))
    && (forall o :: o in job.outputs ==> o.Valid() && o.number < st.nextFileNumber)
    && (forall l, g, o :: 0 <= l < NUM_LEVELS && g in st.version.levels[l] && o in job.outputs ==> g.number != o.number)
  }

  /** No file of the output level that stays meets the range of an output. */
  ghost predicate Clear(st: Store, job: Job) {
    job.pick.level + 1 < |st.version.levels| &&
    forall g, o :: g in st.version.levels[job.pick.level + 1] && g !in job.pick.parentInputs && o in job.outputs ==>
      Separate(g, o)
  }

  /** What holds while the loop runs: as long as the way is clear, the store with the outputs in
      place of the inputs would have the invariant too. */
  ghost predicate UnderWay(st: Store, job: Job) {
    Held(st, job) && exists ahead :: Installed(st, ahead, job) && (Clear(st, job) ==> ahead.Inv())
  }

  lemma {:induction false} BeginKeepsInv(st: Store, st': Store, job: Job)
    requires st.Inv() && Begins(st, st', job) && MergeIsSafe(st, job.pick)
    ensures st'.Inv() && UnderWay(st', job) && Clear(st', job)
  {
    hide WhatIsKept, MergeIsSafe, Store.FilesOk, Store.MemOk, Store.Covered, Store.HistoryOk, ReplaceInputs;
    var version :| Replaces(st, version, st'.nextFileNumber, job);
    var ahead := st.(version := version, nextFileNumber := st'.nextFileNumber);
    assert Compacted(st, ahead, job.pick);
    MergeKeepsInvIff(st, ahead, job.pick);
    BeginHolds(st, st', ahead, job);
    LaterNumbers(st, st');
    InstallKeepsInvIff(st', ahead, job);
  }

  lemma {:induction false} BeginHolds(st: Store, st': Store, ahead: Store, job: Job)
    requires st.Inv() && ReplaceInputs(st, ahead, job.pick, job.input, job.outputs)
    requires st' == st.(nextFileNumber := ahead.nextFileNumber)
    requires forall f :: f in job.outputs ==> st.nextFileNumber <= f.number
    ensures Held(st', job) && Installed(st', ahead, job) && st.nextFileNumber <= st'.nextFileNumber
  {
    hide Store.MemOk, Store.HistoryOk, Store.Covered, PreservesReads, Version.Valid, Version.LayersOrdered, Spans;
    forall o, e | o in job.outputs && e in o.entries ensures InputEntry(job.pick, e) {
      var g := OutputEntryIsInput(st, ahead, job.pick, job.input, job.outputs, o, e);
    }
    forall o | o in job.outputs ensures o.Valid() {
      var i :| 0 <= i < |job.outputs| && job.outputs[i] == o;
    }
    forall o | o in job.outputs ensures o.number < st'.nextFileNumber {
      assert o in job.pick.inputs ==> o in st.version.levels[job.pick.level];
    }
  }

  lemma {:induction false} LaterNumbers(st: Store, st': Store)
    requires st.Inv() && st' == st.(nextFileNumber := st'.nextFileNumber) && st.nextFileNumber <= st'.nextFileNumber
    ensures st'.Inv()
  {
    assert forall e :: st.Holds(e) <==> st'.Holds(e);
    assert forall e :: st.Holds(e) ==> st'.Genuine(e);
    SameContentsKeepCovered(st, st');
  }

  // ---------- steps while the loop runs ----------

  /** A step that leaves the files alone. */
  ghost predicate FreeStep(st: Store, st': Store) {
    || WriteStep(st, st') || st' == Publish(st) || SnapshotStep(st, st')
    || (st.imm.None? && st' == SwitchMemTable(st)) || (st.imm == Some([]) && st' == DropEmptyImm(st))
  }

  lemma {:induction false} FreeStepAhead(st: Store, st': Store, ahead: Store)
    requires FreeStep(st, st') && ahead == st.(version := ahead.version)
    ensures st'.version == st.version && st'.nextFileNumber >= st.nextFileNumber
    ensures FreeStep(ahead, st'.(version := ahead.version))
  {
    hide WriteStep, SnapshotStep;
    var ahead' := st'.(version := ahead.version);
    if WriteStep(st, st') {
      WriteStepAhead(st, st', ahead);
    }
    if SnapshotStep(st, st') {
      SnapshotStepAhead(st, st', ahead);
    }
  }

  lemma {:induction false} WriteStepAhead(st: Store, st': Store, ahead: Store)
    requires WriteStep(st, st') && ahead == st.(version := ahead.version)
    ensures st'.version == st.version && st'.nextFileNumber == st.nextFileNumber
    ensures WriteStep(ahead, st'.(version := ahead.version))
  {
    hide Insert;
    if st' != LoseSequence(st) {
      var k, kind, value :| st' == AddEntry(st, k, kind, value);
      assert st'.(version := ahead.version) == AddEntry(ahead, k, kind, value);
    }
  }

  lemma {:induction false} SnapshotStepAhead(st: Store, st': Store, ahead: Store)
    requires SnapshotStep(st, st') && ahead == st.(version := ahead.version)
    ensures st'.version == st.version && st'.nextFileNumber == st.nextFileNumber
    ensures SnapshotStep(ahead, st'.(version := ahead.version))
  {
    if st' != TakeSnapshot(st) {
      var i :| 0 <= i < |st.snapshots| && st' == ReleaseSnapshot(st, i);
      assert st'.(version := ahead.version) == ReleaseSnapshot(ahead, i);
    }
  }

  lemma {:induction false} FreeStepKeepsUnderWay(st: Store, st': Store, job: Job)
    requires UnderWay(st, job) && FreeStep(st, st')
    ensures UnderWay(st', job)
  {
    hide Held, Clear, FilesReplaced, Store.Inv, FreeStep;
    var ahead :| Installed(st, ahead, job) && (Clear(st, job) ==> ahead.Inv());
    FreeStepAhead(st, st', ahead);
    HeldStill(st, st', job);
    var ahead' := st'.(version := ahead.version);
    if ahead.Inv() {
      FreeStepIsStep(ahead, ahead');
      StepKeepsInv(ahead, ahead');
    }
    assert Installed(st', ahead', job);
  }

  lemma {:induction false} FreeStepIsStep(st: Store, st': Store)
    requires FreeStep(st, st')
    ensures Step(st, st')
  {
  }

  lemma {:induction false} HeldStill(st: Store, st': Store, job: Job)
    requires Held(st, job) && st'.version == st.version && st'.nextFileNumber >= st.nextFileNumber
    ensures Held(st', job) && (Clear(st', job) <==> Clear(st, job))
  {
  }

  /** The version with one more file in a level. */
  function WithFile(v: Version, level: nat, f: FileMeta): (r: Version)
    requires level < |v.levels| == NUM_LEVELS
    ensures |r.levels| == NUM_LEVELS
  {
    Version(v.levels[level := InsertFile(v.levels[level], f)])
  }

  lemma {:induction false} WithFileAdds(v: Version, level: nat, f: FileMeta)
    requires level < |v.levels| == NUM_LEVELS && forall l :: 0 <= l < NUM_LEVELS ==> BySmallest(v.levels[l])
    requires forall g :: g in v.levels[level] ==> g.number != f.number
    ensures FileAdded(v, WithFile(v, level, f), level, f)
  {
    hide BySmallest;
    InsertFileSorted(v.levels[level], f);
  }

  lemma {:induction false} FlushKeepsUnderWay(st: Store, st': Store, level: nat, f: FileMeta, job: Job)
    requires st.Inv() && UnderWay(st, job) && FlushTo(st, st', level, f)
    ensures UnderWay(st', job)
  {
    hide Store.MemOk, Store.HistoryOk, Store.Covered, FilesReplaced, FileAdded, WithFile, Clear, Held, NoOverlap,
         Version.Valid, Version.LayersOrdered, FileMeta.Valid;
    var ahead :| Installed(st, ahead, job) && (Clear(st, job) ==> ahead.Inv());
    FlushHeld(st, st', level, f, job);
    AheadHasNoNumber(st, ahead, level, f, job);
    WithFileAdds(ahead.version, level, f);
    var ahead' := st'.(version := WithFile(ahead.version, level, f));
    AddedToBoth(st, st', ahead, ahead', level, f, job);
    if Clear(st', job) {
      FlushSinksAhead(st, st', ahead, level, f, job);
      FlushedKeepsInv(ahead, ahead', level, f);
    }
    assert Installed(st', ahead', job);
  }

  lemma {:induction false} FlushHeld(st: Store, st': Store, level: nat, f: FileMeta, job: Job)
    requires st.FilesOk() && Held(st, job) && FlushTo(st, st', level, f)
    ensures Held(st', job) && (Clear(st', job) ==> Clear(st, job))
    ensures f !in job.pick.inputs && f !in job.pick.parentInputs && level < NUM_LEVELS && f.number == st.nextFileNumber
  {
    hide Version.Valid, Version.LayersOrdered, FileMeta.Valid, InputEntry, Separate, NoOverlap, BySmallest;
  }

  lemma {:induction false} AheadHasNoNumber(st: Store, ahead: Store, level: nat, f: FileMeta, job: Job)
    requires st.FilesOk() && Held(st, job) && Installed(st, ahead, job)
    requires level < NUM_LEVELS && f.number == st.nextFileNumber
    ensures |ahead.version.levels| == NUM_LEVELS && forall l :: 0 <= l < NUM_LEVELS ==>
            BySmallest(ahead.version.levels[l])
    ensures forall g :: g in ahead.version.levels[level] ==> g.number != f.number
  {
    hide Version.Valid, Version.LayersOrdered, FileMeta.Valid, InputEntry, BySmallest;
  }

  lemma {:induction false} AddedToBoth(st: Store, st': Store, ahead: Store, ahead': Store, level: nat, f: FileMeta,
                                       job: Job)
    requires Installed(st, ahead, job) && FileAdded(st.version, st'.version, level, f)
    requires FileAdded(ahead.version, ahead'.version, level, f) && ahead' == st'.(version := ahead'.version)
    requires f !in job.pick.inputs && f !in job.pick.parentInputs
    ensures Installed(st', ahead', job)
  {
    hide BySmallest;
  }

  /** The file goes below nothing of the outputs either, if the way is still clear. */
  lemma {:induction false} FlushSinksAhead(st: Store, st': Store, ahead: Store, level: nat, f: FileMeta, job: Job)
    requires st.FilesOk() && Held(st, job) && FlushTo(st, st', level, f) && Installed(st, ahead, job)
    requires f !in job.pick.parentInputs && Clear(st', job)
    ensures Sinks(ahead.version, level, f)
  {
    hide BySmallest, Version.LayersOrdered, Separate, NoCommonKey, InputEntry, FileMeta.Valid, NoOverlap, Overlaps;
    FlushToSinks(st, st', level, f);
    forall l, g | 0 <= l < level && g in ahead.version.levels[l] ensures NoCommonKey(g.entries, f.entries) {
      if g !in st.version.levels[l] {
        OutputsShareNoKey(st, level, f, job, g);
      }
    }
    assert level == job.pick.level + 1 ==> f in st'.version.levels[level];
    SeparateBothWays();
  }

  lemma {:induction false} SeparateBothWays()
    ensures forall f, g :: Separate(f, g) <==> Separate(g, f)
  {
  }

  lemma {:induction false} OutputsShareNoKey(st: Store, level: nat, f: FileMeta, job: Job, o: FileMeta)
    requires Held(st, job) && o in job.outputs && job.pick.level + 1 < level < NUM_LEVELS && Sinks(st.version, level, f)
    ensures NoCommonKey(o.entries, f.entries)
  {
    forall a, b | a in o.entries && b in f.entries ensures a.key.user != b.key.user {
      assert InputEntry(job.pick, a);
      var h :| IsInput(job.pick, h) && a in h.entries;
      var l := if h in job.pick.inputs then job.pick.level else job.pick.level + 1;
      assert h in st.version.levels[l] && NoCommonKey(h.entries, f.entries);
    }
  }

  // ---------- installing ----------

  lemma {:induction false} BothEmpty(a: Files, b: Files)
    requires forall f :: f in a <==> f in b
    ensures a == [] <==> b == []
  {
    assert a != [] ==> a[0] in a;
    assert b != [] ==> b[0] in b;
  }

  lemma {:induction false} FirstIsLeast(a: Files)
    requires BySmallest(a) && a != []
    ensures forall f :: f in a ==> f == a[0] || LessFile(a[0], f)
  {
  }

  lemma {:induction false} RestMembers(a: Files)
    requires BySmallest(a) && a != []
    ensures BySmallest(a[1..]) && forall f :: f in a[1..] <==> f in a && f != a[0]
  {
    LessFileTransitive();
    assert a == [a[0]] + a[1..];
    forall f | f in a[1..] ensures LessFile(a[0], f) {
      var i :| 0 <= i < |a[1..]| && a[1..][i] == f;
    }
  }

  /** A list of files in order is fixed by its members. */
  lemma {:induction false} SameFilesSameList(a: Files, b: Files)
    requires BySmallest(a) && BySmallest(b) && forall f :: f in a <==> f in b
    ensures a == b
  {
    hide BySmallest, LessFile;
    BothEmpty(a, b);
    if a != [] {
      assert a[0] in b && b[0] in a;
      LessFileTransitive();
      FirstIsLeast(a);
      FirstIsLeast(b);
      RestMembers(a);
      RestMembers(b);
      SameFilesSameList(a[1..], b[1..]);
    }
  }

  lemma {:induction false} InstalledIs(st: Store, st': Store, ahead: Store, job: Job)
    requires Installed(st, st', job) && Installed(st, ahead, job)
    ensures st' == ahead
  {
    hide BySmallest;
    forall l | 0 <= l < NUM_LEVELS ensures st'.version.levels[l] == ahead.version.levels[l] {
      SameFilesSameList(st'.version.levels[l], ahead.version.levels[l]);
    }
    assert st'.version.levels == ahead.version.levels;
  }

  /** Installing keeps the invariant exactly when no file that came to the output level in the
      meantime meets an output. */
  lemma {:induction false} InstallKeepsInvIff(st: Store, st': Store, job: Job)
    requires st.Inv() && UnderWay(st, job) && Installed(st, st', job)
    ensures st'.Inv() <==> Clear(st, job)
  {
    hide Store.MemOk, Store.HistoryOk, Store.Covered, Version.LayersOrdered, Separate, InputEntry, BySmallest;
    var ahead :| Installed(st, ahead, job) && (Clear(st, job) ==> ahead.Inv());
    InstalledIs(st, st', ahead, job);
    if st'.Inv() {
      var l := job.pick.level + 1;
      forall g, o | g in st.version.levels[l] && g !in job.pick.parentInputs && o in job.outputs
        ensures Separate(g, o)
      {
        assert g in st'.version.levels[l] && o in st'.version.levels[l] && g != o;
        DisjointFilesSeparate(st'.version.levels[l], g, o);
      }
    }
  }

  // ---------- runs ----------

  /** The store, and the compaction under way if there is one. */
  datatype Busy = Busy(store: Store, job: Option<Job>)

  /** A merge starts when it is safe, and is installed when the way is clear. */
  ghost predicate BusyStep(b: Busy, b': Busy) {
    || (b'.job == b.job && (FreeStep(b.store, b'.store) || exists level, f :: FlushTo(b.store, b'.store, level, f)))
    || (b.job.None? && b'.job.Some? && Begins(b.store, b'.store, b'.job.value)
        && MergeIsSafe(b.store, b'.job.value.pick))
    || (b.job.Some? && b'.job.None? && Installed(b.store, b'.store, b.job.value) && Clear(b.store, b.job.value))
    || (b.job.None? && b'.job.None? && CompactStep(b.store, b'.store))
  }

  /** The files that are being compacted. */
  function Compacting(job: Job): Files {
    job.pick.inputs + job.pick.parentInputs
  }

  /** The way is clear for a compaction without a gap. */
  ghost predicate BusyInv(b: Busy) {
    && b.store.Inv()
    && (b.job.Some? ==> UnderWay(b.store, b.job.value)
                        && (Gapless(Compacting(b.job.value)) ==> Clear(b.store, b.job.value)))
  }

  lemma {:induction false} BusyStepKeepsInv(b: Busy, b': Busy)
    requires BusyInv(b) && BusyStep(b, b')
    ensures BusyInv(b')
  {
    hide Store.Inv, FreeStep, FlushTo, Begins, Installed, Clear, CompactStep, UnderWay, MergeIsSafe, Gapless;
    if b'.job == b.job && FreeStep(b.store, b'.store) {
      FreeStepIsStep(b.store, b'.store);
      StepKeepsInv(b.store, b'.store);
      if b.job.Some? {
        FreeStepKeepsUnderWay(b.store, b'.store, b.job.value);
        FreeStepKeepsClear(b.store, b'.store, b.job.value);
      }
    } else if b'.job == b.job && exists level, f :: FlushTo(b.store, b'.store, level, f) {
      var level, f :| FlushTo(b.store, b'.store, level, f);
      FlushKeepsInv(b.store, b'.store, level, f);
      if b.job.Some? {
        FlushKeepsUnderWay(b.store, b'.store, level, f, b.job.value);
        FlushKeepsClear(b.store, b'.store, level, f, b.job.value);
      }
    } else if b.job.None? && b'.job.Some? {
      BeginKeepsInv(b.store, b'.store, b'.job.value);
    } else if b.job.Some? {
      InstallKeepsInvIff(b.store, b'.store, b.job.value);
    } else {
      StepKeepsInv(b.store, b'.store);
    }
  }

  lemma {:induction false} FreeStepKeepsClear(st: Store, st': Store, job: Job)
    requires FreeStep(st, st')
    ensures Clear(st', job) <==> Clear(st, job)
  {
    FreeStepAhead(st, st', st);
  }

  lemma {:induction false} FlushKeepsClear(st: Store, st': Store, level: nat, f: FileMeta, job: Job)
    requires st.Inv() && UnderWay(st, job) && FlushTo(st, st', level, f)
    ensures Gapless(Compacting(job)) && Clear(st, job) ==> Clear(st', job)
  {
    hide Store.MemOk, Store.HistoryOk, Store.Covered, Version.Valid, Version.LayersOrdered, FlushTo, Clear, Installed,
         Gapless, Held;
    if Gapless(Compacting(job)) && Clear(st, job) {
      GaplessStaysClear(st, st', level, f, job);
    }
  }

  ghost predicate BusyRun(run: seq<Busy>) {
    run != [] && Init(run[0].store) && run[0].job == None && forall i :: 0 < i < |run| ==> BusyStep(run[i - 1], run[i])
  }

  lemma {:induction false} BusyRunInv(run: seq<Busy>, n: nat)
    requires BusyRun(run) && n < |run|
    ensures BusyInv(run[n])
  {
    hide BusyStep;
    if n == 0 {
      InitInv(run[0].store);
    } else {
      BusyRunInv(run, n - 1);
      BusyStepKeepsInv(run[n - 1], run[n]);
    }
  }

  /** Also while a compaction is under way, and after it, every read at a live snapshot or at
      the latest sequence returns what the history says. */
  lemma {:induction false} InterleavedReadsMatchHistory(run: seq<Busy>, n: nat, k: UserKey, s: nat, hit: Option<Entry>)
    requires BusyRun(run) && n < |run|
    requires var st := run[n].store; (s in st.snapshots || s == st.lastSequence) && st.Decides(k, s, hit)
    ensures Outcome(hit) == SpecGet(run[n].store.history, k, s)
  {
    hide BusyRun, Store.FilesOk, Store.MemOk, Store.Covered, Store.Decides, Outcome, UnderWay;
    BusyRunInv(run, n);
    ReadMatchesHistory(run[n].store, k, s, hit);
  }

  /** A compaction without a gap may be installed whenever its loop is done, whatever was
      flushed in the meantime. */
  lemma {:induction false} GaplessInstalls(run: seq<Busy>, n: nat, job: Job, st': Store)
    requires BusyRun(run) && n < |run| && run[n].job == Some(job) && Gapless(Compacting(job))
    requires Installed(run[n].store, st', job)
    ensures st'.Inv() && BusyStep(run[n], Busy(st', None))
  {
    hide BusyRun, Store.FilesOk, Store.MemOk, Store.Covered, Store.HistoryOk, UnderWay, Clear, Installed, Gapless;
    BusyRunInv(run, n);
    InstallKeepsInvIff(run[n].store, st', job);
  }

  // ---------- compactions without a gap ----------

  /** A flush that overlaps no file of a gapless compaction overlaps no output. */
  lemma {:induction false} GaplessStaysClear(st: Store, st': Store, level: nat, f: FileMeta, job: Job)
    requires st.FilesOk() && Held(st, job) && Clear(st, job) && FlushTo(st, st', level, f)
    requires Gapless(Compacting(job))
    ensures Clear(st', job)
  {
    hide Version.LayersOrdered, Separate, BySmallest, UniqueNumbers, Gapless;
    var c := job.pick;
    forall g, o | g in st'.version.levels[c.level + 1] && g !in c.parentInputs && o in job.outputs
      ensures Separate(g, o)
    {
      if g !in st.version.levels[c.level + 1] {
        assert g == f && level == c.level + 1;
        OutputSeparate(st, st', f, job, o);
      }
    }
  }

  lemma {:induction false} OutputSeparate(st: Store, st': Store, f: FileMeta, job: Job, o: FileMeta)
    requires st.FilesOk() && Held(st, job) && FlushTo(st, st', job.pick.level + 1, f) && o in job.outputs
    requires Gapless(Compacting(job))
    ensures Separate(f, o)
  {
    hide Version.LayersOrdered, BySmallest, UniqueNumbers, Version.Valid, FileAdded, Store.NewerThanFiles;
    var files := Compacting(job);
    var first, last := o.entries[0], o.entries[|o.entries| - 1];
    assert InputEntry(job.pick, first) && InputEntry(job.pick, last);
    var g :| IsInput(job.pick, g) && first in g.entries;
    var h :| IsInput(job.pick, h) && last in h.entries;
    InputBounds(st, job, g, first);
    InputBounds(st, job, h, last);
    FileBounds(f, f.entries[0]);
    FileBounds(o, first);
    forall x | x in files ensures x.largest.user < f.smallest.user || f.largest.user < x.smallest.user {
      InputApart(st, st', f, job, x);
    }
    var k := if f.smallest.user < g.smallest.user then g.smallest.user else f.smallest.user;
    assert g.smallest.user <= k <= h.largest.user ==> Covers(files, k);
  }

  lemma {:induction false} InputBounds(st: Store, job: Job, g: FileMeta, e: Entry)
    requires st.version.Valid() && Held(st, job) && IsInput(job.pick, g) && e in g.entries
    ensures g.smallest.user <= e.key.user <= g.largest.user
  {
    var l := if g in job.pick.inputs then job.pick.level else job.pick.level + 1;
    assert AllValid(st.version.levels[l]) && g in st.version.levels[l];
    FileBounds(g, e);
  }

  lemma {:induction false} InputApart(st: Store, st': Store, f: FileMeta, job: Job, x: FileMeta)
    requires Held(st, job) && FlushTo(st, st', job.pick.level + 1, f) && IsInput(job.pick, x)
    ensures x.largest.user < f.smallest.user || f.largest.user < x.smallest.user
  {
    var l := if x in job.pick.inputs then job.pick.level else job.pick.level + 1;
    assert x in st.version.levels[l];
    var i :| 0 <= i < |st.version.levels[l]| && st.version.levels[l][i] == x;
    assert NoOverlap(st.version.levels[l], f.smallest.user, f.largest.user);
  }
}

/** A manual compaction takes two files with a gap between them; while its loop runs, a memtable
    whose key falls in the gap is flushed to the output level.  The outputs are installed over
    it, and the key is not found any more (db/db_impl.cc, db/version_set.cc). */
module FlushHazards {
  import opened Wrappers
  import opened InternalKeys
  import opened Versions
  import opened VersionBuilders
  import opened CompactionPickers
  import opened Compactions
  import opened Stores
  import opened StoreSteps
  import opened StoreFlushes
  import opened StoreCompactions
  import opened StoreRuns
  import opened StoreInterleavings
  import opened CompactionHazards

  ghost predicate BusyReachable(b: Busy) {
    exists run :: BusyRun(run) && run[|run| - 1] == b
  }

  lemma {:induction false} BusyNext(b: Busy, b': Busy)
    requires BusyReachable(b) && BusyStep(b, b')
    ensures BusyReachable(b')
  {
    hide BusyStep;
    var run :| BusyRun(run) && run[|run| - 1] == b;
    var run' := run + [b'];
    forall i | 0 < i < |run'| ensures BusyStep(run'[i - 1], run'[i]) {
      if i < |run| {
        assert BusyStep(run[i - 1], run[i]);
      }
    }
    assert BusyRun(run');
  }

  /** A run without interruptions is a run. */
  lemma {:induction false} PlainIsBusy(run: seq<Store>)
    requires Run(run)
    ensures BusyReachable(Busy(run[|run| - 1], None))
  {
    hide Step, BusyStep;
    var n := |run| - 1;
    if n == 0 {
      assert BusyRun([Busy(run[0], None)]);
    } else {
      var front := run[..n];
      forall i | 0 < i < n ensures Step(front[i - 1], front[i]) {
        assert Step(run[i - 1], run[i]);
      }
      PlainIsBusy(front);
      assert Step(run[n - 1], run[n]);
      StepIsBusyStep(run[n - 1], run[n]);
      BusyNext(Busy(run[n - 1], None), Busy(run[n], None));
    }
  }

  lemma {:induction false} StepIsBusyStep(st: Store, st': Store)
    requires Step(st, st')
    ensures BusyStep(Busy(st, None), Busy(st', None))
  {
    hide WriteStep, SnapshotStep, CompactStep, FlushTo;
  }

  // ---------- flushes of one entry ----------

  function One(k: UserKey, sequence: nat, value: Bytes): Entry
    requires sequence <= MAX_SEQUENCE_NUMBER
  {
    Entry(InternalKey(k, sequence, Value), value)
  }

  ghost predicate Small(v: Version) {
    forall l, f :: 0 <= l < |v.levels| && f in v.levels[l] ==> f.size == 1
  }

  lemma {:induction false} FewBytes(files: Files)
    requires forall f :: f in files ==> f.size == 1
    ensures TotalFileSize(files) == |files|
  {
    if files != [] {
      FewBytes(files[1..]);
    }
  }

  lemma {:induction false} NoMoreThanAll(files: Files, lo: Option<UserKey>, hi: Option<UserKey>)
    ensures |Overlapping(files, lo, hi)| <= |files|
  {
    if files != [] {
      NoMoreThanAll(files[..|files| - 1], lo, hi);
    }
  }

  /** With at most ten bytes in the level after next, only overlap keeps a file from sinking. */
  lemma {:induction false} Pushes(v: Version, level: nat, k: UserKey, max: nat)
    requires |v.levels| == NUM_LEVELS && level + 1 < NUM_LEVELS && Small(v) && max > 0
    requires level + 2 < NUM_LEVELS ==> |v.levels[level + 2]| <= 10
    ensures MayPush(v, level, k, k, max) <==> NoOverlap(v.levels[level + 1], k, k)
  {
    if level + 2 < NUM_LEVELS {
      FewBytes(Overlapping(v.levels[level + 2], Some(k), Some(k)));
      NoMoreThanAll(v.levels[level + 2], Some(k), Some(k));
    }
  }

  /** The level that the code picks for one entry when level 0 is empty. */
  lemma {:induction false} Sinking(v: Version, level: nat, k: UserKey, max: nat)
    requires |v.levels| == NUM_LEVELS && Small(v) && max > 0 && v.levels[0] == []
    requires forall l :: 0 <= l < NUM_LEVELS ==> |v.levels[l]| <= 10
    requires 1 <= level <= 2 && (forall l :: 1 <= l <= level ==> NoOverlap(v.levels[l], k, k))
    requires level == 1 ==> !NoOverlap(v.levels[2], k, k)
    ensures GoesTo(v, level, k, k, max)
  {
    hide NoOverlap, MayPush;
    assert NoOverlap(v.levels[0], k, k) by {
      NothingOverlaps(v.levels[0], k);
    }
    forall l | 0 <= l <= 2 ensures MayPush(v, l, k, k, max) <==> NoOverlap(v.levels[l + 1], k, k) {
      Pushes(v, l, k, max);
    }
  }

  lemma {:induction false} NothingOverlaps(files: Files, k: UserKey)
    ensures files == [] ==> NoOverlap(files, k, k)
  {
  }

  /** One write, and the memtable goes to a file at the level that the code picks. */
  ghost predicate WrittenAndFlushed(st: Store, st': Store, k: UserKey, value: Bytes, level: nat, max: nat) {
    && |st.history| + 1 < MAX_SEQUENCE_NUMBER && |st.version.levels| == NUM_LEVELS && level < NUM_LEVELS
    && GoesTo(st.version, level, k, k, max)
    && FileAdded(st.version, st'.version, level, File(st.nextFileNumber, [One(k, |st.history| + 1, value)]))
    && st' == Store([], None, st'.version, |st.history| + 1, st.snapshots, st.nextFileNumber + 1,
                    st.history + [Write(k, Value, value)])
  }

  /** The steps it takes, also while a compaction is under way. */
  lemma {:induction false} ReachFlushed(b: Busy, b': Busy, k: UserKey, value: Bytes, level: nat, max: nat)
    requires BusyReachable(b) && b.store.mem == [] && b.store.imm == None && 1 <= level
    requires WrittenAndFlushed(b.store, b'.store, k, value, level, max) && b'.job == b.job
    ensures BusyReachable(b')
  {
    hide BusyReachable, GoesTo, FileAdded, BusyStep;
    var st := b.store;
    var e := One(k, |st.history| + 1, value);
    var st1 := AddEntry(st, k, Value, value);
    assert st1.mem == [e];
    var st2 := Publish(st1);
    var st3 := SwitchMemTable(st2);
    FreeNext(b, st1);
    FreeNext(Busy(st1, b.job), st2);
    FreeNext(Busy(st2, b.job), st3);
    FlushesTo(st, st3, b'.store, e, level, max);
    FlushNext(Busy(st3, b.job), b'.store, level, File(st.nextFileNumber, [e]));
  }

  lemma {:induction false} FreeNext(b: Busy, st': Store)
    requires BusyReachable(b) && FreeStep(b.store, st')
    ensures BusyReachable(Busy(st', b.job))
  {
    hide BusyReachable, FreeStep;
    BusyNext(b, Busy(st', b.job));
  }

  lemma {:induction false} FlushNext(b: Busy, st': Store, level: nat, f: FileMeta)
    requires BusyReachable(b) && FlushTo(b.store, st', level, f)
    ensures BusyReachable(Busy(st', b.job))
  {
    hide BusyReachable, FlushTo;
    BusyNext(b, Busy(st', b.job));
  }

  lemma {:induction false} FlushesTo(st: Store, st3: Store, st': Store, e: Entry, level: nat, max: nat)
    requires |st.history| + 1 < MAX_SEQUENCE_NUMBER && 1 <= level
    requires e.key.kind == Value && e.key.sequence == |st.history| + 1
    requires WrittenAndFlushed(st, st', e.key.user, e.value, level, max)
    requires st3 == Store([], Some([e]), st.version, |st.history| + 1, st.snapshots, st.nextFileNumber, st'.history)
    ensures FlushTo(st3, st', level, File(st.nextFileNumber, [e]))
  {
    hide FileAdded, NoOverlap;
    var f := File(st.nextFileNumber, [e]);
    assert f.Valid();
    forall l | 0 <= l <= level ensures NoOverlap(st.version.levels[l], f.smallest.user, f.largest.user) {
      if l > 0 {
        assert MayPush(st.version, l - 1, e.key.user, e.key.user, max);
      }
    }
  }

  // ---------- two files over two ----------

  /** Files of one entry each, in order of their keys. */
  ghost predicate Singles(files: Files) {
    && (forall i :: 0 <= i < |files| ==>
          files[i].size == 1 && |files[i].entries| == 1
          && files[i].smallest == files[i].largest == files[i].entries[0].key)
    && forall i, j :: 0 <= i < j < |files| ==> files[i].smallest.user < files[j].smallest.user
  }

  lemma {:induction false} LayerAdded(upper: Files, lower: Files, upper': Files, lower': Files, level: nat, f: FileMeta)
    requires Singles(upper') && Singles(lower') && 1 <= level <= 2
    requires forall g :: g in upper' <==> g in upper || (level == 1 && g == f)
    requires forall g :: g in lower' <==> g in lower || (level == 2 && g == f)
    ensures FileAdded(Layers(1, upper, lower), Layers(1, upper', lower'), level, f)
  {
    hide Before;
    assert BySmallest(upper') by { SinglesInOrder(upper'); }
    assert BySmallest(lower') by { SinglesInOrder(lower'); }
  }

  lemma {:induction false} SinglesInOrder(files: Files)
    requires Singles(files)
    ensures BySmallest(files)
  {
  }

  lemma {:induction false} SinglesOverlap(files: Files, k: UserKey)
    requires Singles(files)
    ensures NoOverlap(files, k, k) <==> forall i :: 0 <= i < |files| ==> files[i].smallest.user != k
  {
  }

  /** One more entry in a store of two layers, when it overlaps nothing on the way. */
  lemma {:induction false} FlushOne(b: Busy, k: UserKey, value: Bytes, level: nat, max: nat, upper: Files, lower: Files,
                                    upper': Files, lower': Files) returns (b': Busy)
    requires BusyReachable(b) && b.store.mem == [] && b.store.imm == None && |b.store.history| + 1 < MAX_SEQUENCE_NUMBER
    requires b.store.version == Layers(1, upper, lower) && max > 0 && 1 <= level <= 2
    requires Singles(upper) && Singles(lower) && |upper| <= 10 && |lower| <= 10 && Singles(upper') && Singles(lower')
    requires forall i :: 0 <= i < |upper| ==> upper[i].smallest.user != k
    requires level == 2 <==> forall i :: 0 <= i < |lower| ==> lower[i].smallest.user != k
    requires var f := File(b.store.nextFileNumber, [One(k, |b.store.history| + 1, value)]);
             && (forall g :: g in upper' <==> g in upper || (level == 1 && g == f))
             && (forall g :: g in lower' <==> g in lower || (level == 2 && g == f))
    ensures BusyReachable(b') && b'.job == b.job && b'.store.version == Layers(1, upper', lower')
    ensures WrittenAndFlushed(b.store, b'.store, k, value, level, max)
  {
    hide BusyReachable, Layers, Singles, NoOverlap, FileAdded;
    var st := b.store;
    var f := File(st.nextFileNumber, [One(k, |st.history| + 1, value)]);
    LayerAdded(upper, lower, upper', lower', level, f);
    SinglesOverlap(upper, k);
    SinglesOverlap(lower, k);
    SinglesSmall(upper, lower);
    Sinking(st.version, level, k, max);
    b' := Busy(Store([], None, Layers(1, upper', lower'), |st.history| + 1, st.snapshots, st.nextFileNumber + 1,
                     st.history + [Write(k, Value, value)]), b.job);
    ReachFlushed(b, b', k, value, level, max);
  }

  lemma {:induction false} SinglesSmall(upper: Files, lower: Files)
    requires Singles(upper) && Singles(lower)
    ensures Small(Layers(1, upper, lower))
  {
  }

  /** One file each of a and c, in level 2. */
  lemma {:induction false} ReachTwo(a: UserKey, c: UserKey, va: Bytes, vc: Bytes, max: nat) returns (b: Busy)
    requires a < c && max > 0
    ensures BusyReachable(b) && b.job == None
    ensures b.store == Store([], None, Layers(1, [], [File(1, [One(a, 1, va)]), File(2, [One(c, 2, vc)])]), 2, [], 3,
                             [Write(a, Value, va), Write(c, Value, vc)])
  {
    hide BusyReachable, Layers, BusyRun;
    var p1, p2 := File(1, [One(a, 1, va)]), File(2, [One(c, 2, vc)]);
    var st0 := Store([], None, Layers(1, [], []), 0, [], 1, []);
    NoFilesAre(1);
    FirstBusy(st0);
    var b1 := FlushOne(Busy(st0, None), a, va, 2, max, [], [], [], [p1]);
    b := FlushOne(b1, c, vc, 2, max, [], [p1], [], [p1, p2]);
  }

  /** Older versions of a and c lie in level 2, younger ones in level 1. */
  lemma {:induction false} ReachTwoOverTwo(a: UserKey, c: UserKey, va: Bytes, vc: Bytes, max: nat) returns (st: Store)
    requires a < c && max > 0
    ensures BusyReachable(Busy(st, None))
    ensures st == Store([], None, Layers(1, [File(3, [One(a, 3, va)]), File(4, [One(c, 4, vc)])],
                                         [File(1, [One(a, 1, va)]), File(2, [One(c, 2, vc)])]), 4, [], 5,
                        [Write(a, Value, va), Write(c, Value, vc), Write(a, Value, va), Write(c, Value, vc)])
  {
    hide BusyReachable, Layers, BusyRun;
    var p1, p2, f3, f4 := File(1, [One(a, 1, va)]), File(2, [One(c, 2, vc)]), File(3, [One(a, 3, va)]),
      File(4, [One(c, 4, vc)]);
    assert [p1, p2][0] == p1 && [p1, p2][1] == p2;
    var b2 := ReachTwo(a, c, va, vc, max);
    var b3 := FlushOne(b2, a, va, 1, max, [], [p1, p2], [f3], [p1, p2]);
    var b4 := FlushOne(b3, c, vc, 1, max, [f3], [p1, p2], [f3, f4], [p1, p2]);
    st := b4.store;
  }

  lemma {:induction false} FirstBusy(st: Store)
    requires Init(st)
    ensures BusyReachable(Busy(st, None))
  {
    assert BusyRun([Busy(st, None)]);
  }

  // ---------- the compaction, and the flush into its gap ----------

  /** The manual compaction of everything in level 1. */
  ghost predicate TheJob(st: Store, job: Job, f3: FileMeta, f4: FileMeta, p1: FileMeta, p2: FileMeta) {
    && job.pick == Pick(1, [f3, f4], [p1, p2], [], f3.smallest, f4.largest)
    && |f3.entries| == |f4.entries| == |p1.entries| == |p2.entries| == 1
    && job.input == f3.entries + p1.entries + f4.entries + p2.entries
    && job.outputs == [File(5, f3.entries + f4.entries)]
  }

  /** The store before the compaction. */
  ghost predicate Ready(st: Store, a: UserKey, c: UserKey, f3: FileMeta, f4: FileMeta, p1: FileMeta, p2: FileMeta) {
    && a < c && st.version == Layers(1, [f3, f4], [p1, p2]) && st.snapshots == [] && st.lastSequence == 4
    && st.nextFileNumber == 5
    && (exists v :: f3 == File(3, [One(a, 3, v)])) && (exists v :: p1 == File(1, [One(a, 1, v)]))
    && (exists v :: f4 == File(4, [One(c, 4, v)])) && (exists v :: p2 == File(2, [One(c, 2, v)]))
  }

  lemma {:induction false} JobPick(st: Store, job: Job, a: UserKey, c: UserKey, f3: FileMeta, f4: FileMeta,
                                   p1: FileMeta, p2: FileMeta)
    requires Ready(st, a, c, f3, f4, p1, p2) && TheJob(st, job, f3, f4, p1, p2)
    ensures ValidPick(st.version, job.pick) && forall e :: e in job.input <==> InputEntry(job.pick, e)
  {
    var lo, hi := Some(a), Some(c);
    assert [p1, p2][..1] == [p1] && [p1][..0] == [];
    assert Overlapping([p1, p2], lo, hi) == Overlapping([p1], lo, hi) + [p2];
    assert Overlapping([p1], lo, hi) == Overlapping([], lo, hi) + [p1];
    assert f3 in [f3, f4] && f4 in [f3, f4] && p1 in [p1, p2] && p2 in [p1, p2];
    assert IsInput(job.pick, f3) && IsInput(job.pick, f4) && IsInput(job.pick, p1) && IsInput(job.pick, p2);
  }

  lemma {:induction false} JobKeeps(st: Store, job: Job, a: UserKey, c: UserKey, f3: FileMeta, f4: FileMeta,
                                    p1: FileMeta, p2: FileMeta)
    requires Ready(st, a, c, f3, f4, p1, p2) && TheJob(st, job, f3, f4, p1, p2)
    ensures WhatIsKept(st, job.pick, job.input, job.outputs)
  {
    var input, v := job.input, st.version;
    assert input == [f3.entries[0], p1.entries[0], f4.entries[0], p2.entries[0]];
    assert Hidden(input, 1, 4) by {
      assert input[0].key.user == input[1].key.user && input[0].key.sequence <= 4;
    }
    assert Hidden(input, 3, 4) by {
      assert input[2].key.user == input[3].key.user && input[2].key.sequence <= 4;
    }
    assert Kept(input, 1, 4, v, 1) == Kept(input, 0, 4, v, 1) + [input[0]];
    assert Kept(input, 2, 4, v, 1) == Kept(input, 1, 4, v, 1) + [];
    assert Kept(input, 3, 4, v, 1) == Kept(input, 2, 4, v, 1) + [input[2]];
    assert Kept(input, 4, 4, v, 1) == Kept(input, 3, 4, v, 1) + [];
    OneFile(job.outputs[0]);
  }

  lemma {:induction false} JobBegins(st: Store, st': Store, job: Job, a: UserKey, c: UserKey, f3: FileMeta,
                                     f4: FileMeta,
                                     p1: FileMeta, p2: FileMeta)
    requires Ready(st, a, c, f3, f4, p1, p2) && TheJob(st, job, f3, f4, p1, p2) && st' == st.(nextFileNumber := 6)
    ensures Begins(st, st', job) && MergeIsSafe(st, job.pick)
  {
    hide PreservesReads, WhatIsKept, ValidPick, InputEntry;
    JobPick(st, job, a, c, f3, f4, p1, p2);
    JobKeeps(st, job, a, c, f3, f4, p1, p2);
    JobReplaces(st, job, a, c, f3, f4, p1, p2);
    JobIsSafe(st, job, a, c, f3, f4, p1, p2);
  }

  lemma {:induction false} JobIsSafe(st: Store, job: Job, a: UserKey, c: UserKey, f3: FileMeta, f4: FileMeta,
                                     p1: FileMeta, p2: FileMeta)
    requires Ready(st, a, c, f3, f4, p1, p2) && TheJob(st, job, f3, f4, p1, p2)
    ensures MergeIsSafe(st, job.pick)
  {
    hide SurvivesMerge, Settled;
    forall f | f in st.version.levels[1] ensures f in job.pick.inputs {
    }
    forall e | InputEntry(job.pick, e) ensures e.key.kind == Value {
    }
  }

  lemma {:induction false} JobReplaces(st: Store, job: Job, a: UserKey, c: UserKey, f3: FileMeta, f4: FileMeta,
                                       p1: FileMeta, p2: FileMeta)
    requires Ready(st, a, c, f3, f4, p1, p2) && TheJob(st, job, f3, f4, p1, p2)
    requires ValidPick(st.version, job.pick) && forall e :: e in job.input <==> InputEntry(job.pick, e)
    requires WhatIsKept(st, job.pick, job.input, job.outputs)
    ensures exists version :: Replaces(st, version, 6, job)
  {
    hide PreservesReads, ValidPick, InputEntry, Kept;
    var o, version := job.outputs[0], Layers(1, [], job.outputs);
    DroppingPreservesReads(job.input, 4, st.version, 1);
    assert o.Valid();
    assert FilesReplaced(st.version, version, job.pick, [o]);
    assert Replaces(st, version, 6, job);
  }

  /** What Get finds from a level on, on any lists of files. */
  ghost function Lookup(v: Version, k: UserKey, s: SequenceNumber, level: nat): Option<Entry>
    decreases |v.levels| - level
  {
    if level >= |v.levels| then None else
    var files := v.levels[level];
    var i := SearchFiles(files, LookupKey(k, s), 0, |files|);
    var hit := if i < |files| && k >= files[i].smallest.user then TableGet(files[i], k, s) else None;
    if hit.Some? then hit else Lookup(v, k, s, level + 1)
  }

  lemma {:induction false} EmptyLevels(v: Version, k: UserKey, s: SequenceNumber, level: nat)
    requires forall l :: level <= l < |v.levels| ==> v.levels[l] == []
    ensures Lookup(v, k, s, level) == None
    decreases |v.levels| - level
  {
    if level < |v.levels| {
      EmptyLevels(v, k, s, level + 1);
    }
  }

  /** The binary search stops at the wide file, which does not have the key. */
  lemma {:induction false} SearchMisses(o: FileMeta, g: FileMeta, a: UserKey, b: UserKey, c: UserKey)
    requires a < b < c && o.smallest.user == a && o.largest.user == c
    requires |o.entries| == 2 && o.entries[0].key.user == a && o.entries[1].key.user == c
    requires g.smallest == g.largest == InternalKey(b, 5, Value)
    ensures Lookup(Layers(1, [], [o, g]), b, 5, 1) == None
  {
    var v, key := Layers(1, [], [o, g]), LookupKey(b, 5);
    EmptyLevels(v, b, 5, 3);
    assert SearchFiles([o, g], key, 0, 2) == SearchFiles([o, g], key, 0, 1) == SearchFiles([o, g], key, 0, 0) == 0;
    assert TableGet(o, b, 5) == None;
    assert Lookup(v, b, 5, 2) == None;
  }

  /** Every manual compaction of the whole level takes both files. */
  lemma {:induction false} BothArePicked(v: Version, p: Pick, max: nat, f3: FileMeta, f4: FileMeta)
    requires |v.levels| == NUM_LEVELS && v.levels[1] == [f3, f4] && f3.size == f4.size == 1 && max > 2
    requires p.level == 1 && PickedInRange(v, None, None, p, max)
    ensures p.inputs == [f3, f4]
  {
    hide GrandparentsOk, BroughtIn, CutOff;
    var picked :| SetUp(v, picked, p, max) && CutOff(Overlapping(v.levels[1], None, None), max, picked);
    AllOverlap([f3, f4]);
    BothCut([f3, f4], picked, max);
    var parents :| GrownFrom(v, 1, picked, parents, p.inputs, max);
    if parents != [] {
      var expanded :| BroughtIn(v, 1, picked + parents, expanded) &&
        p.inputs == if MayExpand(v, 1, picked, parents, expanded, max) then expanded else picked;
      NoMoreIn(v, picked + parents, expanded);
    }
  }

  lemma {:induction false} NoMoreIn(v: Version, others: Files, r: Files)
    requires |v.levels| == NUM_LEVELS && BroughtIn(v, 1, others, r)
    ensures |r| <= |v.levels[1]|
  {
    hide Spans, Overlapping;
    var smallest, largest :| Spans(others, smallest, largest) &&
      r == Overlapping(v.levels[1], Some(smallest.user), Some(largest.user));
    NoMoreThanAll(v.levels[1], Some(smallest.user), Some(largest.user));
  }

  lemma {:induction false} AllOverlap(files: Files)
    ensures Overlapping(files, None, None) == files
  {
    if files != [] {
      AllOverlap(files[..|files| - 1]);
      assert files[..|files| - 1] + [files[|files| - 1]] == files;
    }
  }

  lemma {:induction false} BothCut(files: Files, picked: Files, max: nat)
    requires |files| == 2 && files[0].size == 1 && max > 2 && CutOff(files, max, picked)
    ensures picked == files
  {
    assert files[..1][1..] == [] && TotalFileSize(files[..1]) == 1;
    assert picked == files[..|picked|];
  }

  /** Before a manual compaction of level 1 the files there have a gap; in its loop key b of the
      gap is written and flushed to level 2, where the code puts it; installing the outputs makes
      a level whose files overlap, and the search for b ends in the wrong one of them. */
  lemma {:induction false} FlushInGapBreaksReads(a: UserKey, b: UserKey, c: UserKey, va: Bytes, vc: Bytes, x: Bytes,
                                                 max: nat)
    returns (st: Store, mid: Store, st': Store, job: Job)
    requires a < b < c && max > 2
    ensures BusyReachable(Busy(st, None)) && BusyStep(Busy(st, None), Busy(st.(nextFileNumber := 6), Some(job)))
    ensures forall p: Pick :: p.level == 1 && PickedInRange(st.version, None, None, p, max) ==>
              p.inputs == job.pick.inputs
    ensures BusyReachable(Busy(mid, Some(job)))
            && WrittenAndFlushed(st.(nextFileNumber := 6), mid, b, x, job.pick.level + 1, max)
    ensures Installed(mid, st', job) && !Clear(mid, job) && !st'.Inv()
    ensures SpecGet(st'.history, b, st'.lastSequence) == Some(x)
    ensures st'.mem == [] && st'.imm == None && st'.version.levels[0] == [] && st'.lastSequence == 5
    ensures Lookup(st'.version, b, 5, 1) == None
  {
    hide BusyReachable, Layers, Begins, MergeIsSafe, WrittenAndFlushed, Installed, Clear, Store.Inv, PickedInRange,
         Lookup, UnderWay;
    st := ReachTwoOverTwo(a, c, va, vc, max);
    var p1, p2 := File(1, [One(a, 1, va)]), File(2, [One(c, 2, vc)]);
    var f3, f4 := File(3, [One(a, 3, va)]), File(4, [One(c, 4, vc)]);
    var g, o := File(6, [One(b, 5, x)]), File(5, f3.entries + f4.entries);
    job := Job(Pick(1, [f3, f4], [p1, p2], [], f3.smallest, f4.largest),
               f3.entries + p1.entries + f4.entries + p2.entries, [o]);
    var started := st.(nextFileNumber := 6);
    JobBegins(st, started, job, a, c, f3, f4, p1, p2);
    BusyNext(Busy(st, None), Busy(started, Some(job)));
    var after := FlushOne(Busy(started, Some(job)), b, x, 2, max, [f3, f4], [p1, p2], [f3, f4], [p1, g, p2]);
    mid := after.store;
    st' := mid.(version := Layers(1, [], [o, g]));
    InGap(mid, st', job, f3, f4, p1, p2, g, o);
    BusyReachableInv(after);
    InstallKeepsInvIff(mid, st', job);
    SearchMisses(o, g, a, b, c);
    forall p: Pick | p.level == 1 && PickedInRange(st.version, None, None, p, max) ensures p.inputs == [f3, f4] {
      BothArePicked(st.version, p, max, f3, f4);
    }
    Written(started, mid, b, x, max);
  }

  lemma {:induction false} BusyReachableInv(b: Busy)
    requires BusyReachable(b)
    ensures BusyInv(b)
  {
    var run :| BusyRun(run) && run[|run| - 1] == b;
    BusyRunInv(run, |run| - 1);
  }

  lemma {:induction false} Written(st: Store, st': Store, b: UserKey, x: Bytes, max: nat)
    requires WrittenAndFlushed(st, st', b, x, 2, max)
    ensures SpecGet(st'.history, b, st'.lastSequence) == Some(x) && st'.lastSequence == |st.history| + 1
    ensures st'.mem == [] && st'.imm == None
  {
    assert LastWrite(st'.history, b, |st'.history|) == |st'.history|;
  }

  lemma {:induction false} InGap(mid: Store, st': Store, job: Job, f3: FileMeta, f4: FileMeta, p1: FileMeta,
                                 p2: FileMeta, g: FileMeta, o: FileMeta)
    requires mid.version == Layers(1, [f3, f4], [p1, g, p2]) && st' == mid.(version := Layers(1, [], [o, g]))
    requires job.pick.level == 1 && job.pick.inputs == [f3, f4] && job.pick.parentInputs == [p1, p2]
    requires job.outputs == [o] && g != p1 && g != p2
    requires o.smallest.user < g.smallest.user == g.largest.user < o.largest.user
    ensures Installed(mid, st', job) && !Clear(mid, job) && st'.version.levels[0] == []
  {
    assert BySmallest([o, g]);
    assert [p1, g, p2][1] == g && g in [p1, g, p2] && o in [o] && !Separate(g, o);
  }
}

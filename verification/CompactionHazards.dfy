/** Two ways in which a compaction that the code allows makes reads wrong, each with a run from
    the empty store that leads to it (db/version_set.cc, db/db_impl.cc). */
module CompactionHazards {
  import opened Wrappers
  import opened InternalKeys
  import opened Versions
  import opened VersionBuilders
  import opened CompactionPickers
  import opened Compactions
  import opened Stores
  import opened StoreSteps
  import opened StoreFlushes
  import opened StoreCompactions
  import opened StoreRuns

  // ---------- reaching a store ----------

  ghost predicate Reachable(st: Store) {
    exists run :: Run(run) && run[|run| - 1] == st
  }

  lemma {:induction false} ReachFirst(st: Store)
    requires Init(st)
    ensures Reachable(st)
  {
    assert Run([st]);
  }

  lemma {:induction false} ReachNext(st: Store, st': Store)
    requires Reachable(st) && Step(st, st')
    ensures Reachable(st')
  {
    hide Step;
    var run :| Run(run) && run[|run| - 1] == st;
    var run' := run + [st'];
    forall i | 0 < i < |run'| ensures Step(run'[i - 1], run'[i]) {
      if i < |run| {
        assert Step(run[i - 1], run[i]);
      }
    }
    assert Run(run');
  }

  lemma {:induction false} ReachableInv(st: Store)
    requires Reachable(st)
    ensures st.Inv()
  {
    var run :| Run(run) && run[|run| - 1] == st;
    RunInv(run, |run| - 1);
  }

  /** A write that is published at once. */
  lemma {:induction false} ReachWrite(st: Store, k: UserKey, kind: ValueType, value: Bytes) returns (st': Store)
    requires Reachable(st) && |st.history| + 1 < MAX_SEQUENCE_NUMBER
    ensures Reachable(st') && st' == Publish(AddEntry(st, k, kind, value))
  {
    ReachNext(st, AddEntry(st, k, kind, value));
    st' := Publish(AddEntry(st, k, kind, value));
    ReachNext(AddEntry(st, k, kind, value), st');
  }

  /** Only levels l and l + 1 hold files. */
  function Layers(l: nat, upper: Files, lower: Files): (v: Version)
    ensures |v.levels| == NUM_LEVELS
    ensures forall i :: 0 <= i < NUM_LEVELS ==>
            v.levels[i] == if i == l then upper else if i == l + 1 then lower else []
  {
    Version(seq(NUM_LEVELS, i => if i == l then upper else if i == l + 1 then lower else []))
  }

  function File(number: nat, entries: seq<Entry>): FileMeta
    requires entries != []
  {
    FileMeta(number, 1, entries[0].key, entries[|entries| - 1].key, entries)
  }

  /** The memtable goes to a file of a level above which there is nothing. */
  lemma {:induction false} ReachFlush(st: Store, l: nat, lower: Files) returns (st': Store)
    requires Reachable(st) && st.mem != [] && st.imm == None && 0 < l && l + 1 < NUM_LEVELS
    requires st.version == Layers(l, [], lower) && BySmallest(lower)
    ensures Reachable(st')
    ensures st' == st.(mem := [], version := Layers(l, [File(st.nextFileNumber, st.mem)], lower),
                       nextFileNumber := st.nextFileNumber + 1)
  {
    hide Reachable, Store.FilesOk, Store.HistoryOk, Store.Covered, FlushTo, Layers, Newer;
    var st1 := SwitchMemTable(st);
    ReachNext(st, st1);
    ReachableInv(st);
    var f := File(st.nextFileNumber, st.mem);
    st' := st1.(imm := None, version := Layers(l, [f], lower), nextFileNumber := st.nextFileNumber + 1);
    FlushFits(st1, st', l, f, lower);
    ReachNext(st1, st');
  }

  lemma {:induction false} FlushFits(st: Store, st': Store, l: nat, f: FileMeta, lower: Files)
    requires 0 < l && l + 1 < NUM_LEVELS && st.version == Layers(l, [], lower) && BySmallest(lower)
    requires st.imm == Some(f.entries) && f.Valid() && f.number == st.nextFileNumber
    requires st' == st.(imm := None, version := Layers(l, [f], lower), nextFileNumber := st.nextFileNumber + 1)
    ensures FlushTo(st, st', l, f)
  {
    hide FileMeta.Valid, LessFile;
    assert FileAdded(st.version, st'.version, l, f);
  }

  // ---------- compactions of two levels ----------

  /** The merge of all of level l, with nothing below, into some files. */
  lemma {:induction false} ReachSplit(st: Store, l: nat, f: FileMeta, outputs: Files) returns (st': Store)
    requires Reachable(st) && l + 2 < NUM_LEVELS && st.version == Layers(l, [f], [])
    requires AllValid(outputs) && DisjointSorted(outputs) && BySmallest(outputs)
    requires Numbered(outputs, st.nextFileNumber)
    requires Flatten(outputs) == Kept(f.entries, |f.entries|, st.SmallestSnapshot(), st.version, l)
    ensures Reachable(st')
    ensures st' == st.(version := Layers(l, [], outputs), nextFileNumber := st.nextFileNumber + |outputs|)
  {
    hide Store.MemOk, Store.HistoryOk, Flatten, Kept, ReplaceInputs, WhatIsKept, MergeIsSafe, Sorted, PreservesReads,
         DisjointSorted, BySmallest, AllValid;
    ReachableInv(st);
    var c := Pick(l, [f], [], [], f.smallest, f.largest);
    st' := st.(version := Layers(l, [], outputs), nextFileNumber := st.nextFileNumber + |outputs|);
    SplitReplaces(st, st', c, f, outputs);
    NothingLeft(st, c, f);
    assert SafeCompaction(st, st', c);
    ReachNext(st, st');
  }

  lemma {:induction false} SplitReplaces(st: Store, st': Store, c: Pick, f: FileMeta, outputs: Files)
    requires st.FilesOk() && c.level + 2 < NUM_LEVELS && st.version == Layers(c.level, [f], [])
    requires c == Pick(c.level, [f], [], [], f.smallest, f.largest)
    requires AllValid(outputs) && DisjointSorted(outputs) && BySmallest(outputs)
    requires Numbered(outputs, st.nextFileNumber)
    requires Flatten(outputs) == Kept(f.entries, |f.entries|, st.SmallestSnapshot(), st.version, c.level)
    requires st' == st.(version := Layers(c.level, [], outputs), nextFileNumber := st.nextFileNumber + |outputs|)
    ensures Compacted(st, st', c)
  {
    hide Flatten, Kept, Sorted, PreservesReads, DisjointSorted, AllValid, ValidPick, InputEntry;
    assert [f] + [] == [f];
    OneFileInput(st, c, f, []);
    DroppingPreservesReads(f.entries, st.SmallestSnapshot(), st.version, c.level);
    SplitFiles(st.version, st'.version, c, f, outputs);
    SplitNumbers(st, c, outputs);
    assert WhatIsKept(st, c, f.entries, outputs) && ReplaceInputs(st, st', c, f.entries, outputs);
  }

  lemma {:induction false} SplitNumbers(st: Store, c: Pick, outputs: Files)
    requires Numbered(outputs, st.nextFileNumber)
    ensures NumbersFresh(st, c, outputs, st.nextFileNumber + |outputs|)
  {
  }

  lemma {:induction false} SplitFiles(v: Version, v': Version, c: Pick, f: FileMeta, outputs: Files)
    requires c.level + 2 < NUM_LEVELS && v == Layers(c.level, [f], []) && v' == Layers(c.level, [], outputs)
    requires c.inputs == [f] && c.parentInputs == [] && BySmallest(outputs)
    ensures FilesReplaced(v, v', c, outputs)
  {
    hide LessFile;
  }

  lemma {:induction false} NothingLeft(st: Store, c: Pick, f: FileMeta)
    requires c.level + 2 < NUM_LEVELS && st.version == Layers(c.level, [f], []) && c.inputs == [f]
    ensures MergeIsSafe(st, c)
  {
    hide SurvivesMerge, Obsolete, Settled, InputEntry;
  }

  lemma {:induction false} FileOfLevel(st: Store, l: nat, i: nat)
    requires st.FilesOk() && l < NUM_LEVELS && i < |st.version.levels[l]|
    ensures st.version.levels[l][i].Valid() && Sorted(st.version.levels[l][i].entries)
  {
  }

  lemma {:induction false} OneFileInput(st: Store, c: Pick, f: FileMeta, rest: Files)
    requires st.FilesOk() && c.level + 1 < NUM_LEVELS && st.version == Layers(c.level, [f] + rest, [])
    requires c == Pick(c.level, [f], [], [], f.smallest, f.largest) && (c.level == 0 ==> rest == [])
    ensures ValidPick(st.version, c) && (forall e :: e in f.entries <==> InputEntry(c, e))
    ensures f.Valid() && Sorted(f.entries)
  {
    hide Store.FilesOk, Sorted, Overlaps;
    assert f in [f] && f == st.version.levels[c.level][0];
    FileOfLevel(st, c.level, 0);
    assert forall e :: e in f.entries ==> IsInput(c, f);
  }

  /** Entries to which no drop rule applies are all kept. */
  lemma {:induction false} KeepsAll(input: seq<Entry>, n: nat, s: nat, v: Version, level: nat)
    requires n <= |input| && |v.levels| == NUM_LEVELS
    requires forall i :: 0 <= i < |input| ==> !Hidden(input, i, s) && !Obsolete(input[i], s, v, level)
    ensures Kept(input, n, s, v, level) == input[..n]
  {
    if n > 0 {
      KeepsAll(input, n - 1, s, v, level);
    }
  }

  /** What a search of the files meets first: a level's newest visible version, when the levels
      above have none. */
  ghost predicate FoundFirst(v: Version, k: UserKey, s: nat, e: Entry) {
    exists l :: 0 <= l < |v.levels| && NewestInFiles(v.levels[l], k, s, e) &&
      forall m :: 0 <= m < l ==> NoCandidate(v.levels[m], k, s)
  }

  lemma {:induction false} FoundIn(v: Version, l: nat, f: FileMeta, e: Entry, k: UserKey, s: nat)
    requires l < |v.levels| && f in v.levels[l] && e in f.entries && Candidate(e, k, s)
    requires forall g, x :: g in v.levels[l] && x in g.entries && Candidate(x, k, s) ==> x == e
    requires forall m :: 0 <= m < l ==> NoCandidate(v.levels[m], k, s)
    ensures FoundFirst(v, k, s, e)
  {
    assert NewestInFiles(v.levels[l], k, s, e);
  }

  // ---------- a key split between two files of a level ----------

  /** Two versions of k, one of them kept by a snapshot, come to lie in two files of level 3. */
  lemma {:induction false} ReachSplitKey(k: UserKey, a: Bytes, b: Bytes) returns (st: Store, f: FileMeta, g: FileMeta)
    ensures Reachable(st) && f != g && f.size == 1
    ensures f.entries == [Entry(InternalKey(k, 2, Value), b)] && g.entries == [Entry(InternalKey(k, 1, Value), a)]
    ensures st == Store([], None, Layers(3, [f, g], []), 2, [1], 4, [Write(k, Value, a), Write(k, Value, b)])
  {
    hide Reachable, Layers, Kept;
    var older, newer := Entry(InternalKey(k, 1, Value), a), Entry(InternalKey(k, 2, Value), b);
    var st0 := Store([], None, NoFiles(), 0, [], 1, []);
    ReachFirst(st0);
    var st1 := ReachWrite(st0, k, Value, a);
    var st2 := TakeSnapshot(st1);
    ReachNext(st1, st2);
    var st3 := ReachWrite(st2, k, Value, b);
    assert st3.mem == [newer, older];
    assert NoFiles() == Layers(2, [], []) by { NoFilesAre(2); }
    var st4 := ReachFlush(st3, 2, []);
    f, g := File(2, [newer]), File(3, [older]);
    SplitFilesFit([newer], [older], 2);
    KeepsAll([newer, older], 2, 1, st4.version, 2);
    assert [newer, older][..2] == [newer] + [older];
    st := ReachSplit(st4, 2, File(1, [newer, older]), [f, g]);
    LayersDown(2, [f, g]);
  }

  lemma {:induction false} NoFilesAre(l: nat)
    requires l + 1 < NUM_LEVELS
    ensures NoFiles() == Layers(l, [], [])
  {
    assert NoFiles().levels == Layers(l, [], []).levels;
  }

  lemma {:induction false} LayersDown(l: nat, files: Files)
    requires l + 2 < NUM_LEVELS
    ensures Layers(l, [], files) == Layers(l + 1, files, [])
  {
    assert Layers(l, [], files).levels == Layers(l + 1, files, []).levels;
  }

  /** Two output files made from two sorted runs. */
  lemma {:induction false} SplitFilesFit(xs: seq<Entry>, ys: seq<Entry>, number: nat)
    requires xs != [] && ys != [] && Sorted(xs) && Sorted(ys) && Before(xs[|xs| - 1].key, ys[0].key)
    ensures var files := [File(number, xs), File(number + 1, ys)];
            && AllValid(files) && DisjointSorted(files) && BySmallest(files) && Numbered(files, number)
            && Flatten(files) == xs + ys
  {
    var files := [File(number, xs), File(number + 1, ys)];
    var f, g := File(number, xs), File(number + 1, ys);
    assert |xs| > 1 ==> Before(xs[0].key, xs[|xs| - 1].key);
    assert Before(f.smallest, g.smallest);
    assert files[..1] == [f] && [f][..0] == [];
    assert Flatten([f]) == Flatten([]) + xs && Flatten([]) == [];
    assert Flatten(files) == Flatten(files[..1]) + files[1].entries;
  }

  /** The file with the newer version is picked alone and moves down; then a read at the last
      sequence stops at the older version above it, although the history has the newer one. */
  lemma {:induction false} SplitKeyBreaksReads(k: UserKey, a: Bytes, b: Bytes) returns (st: Store, st': Store, c: Pick)
    ensures Reachable(st) && c.level == 3 && |c.inputs| == 1 && Moved(st, st', c) && !MoveIsSafe(st, c)
    ensures forall p: Pick, max: nat :: p.level == 3 && PickedBySize(st.version, p, None, max) ==> p.inputs == c.inputs
    ensures SpecGet(st'.history, k, st'.lastSequence) == Some(b)
    ensures st'.mem == [] && st'.imm == None
    ensures FoundFirst(st'.version, k, st'.lastSequence, Entry(InternalKey(k, 1, Value), a))
  {
    hide Reachable, Moved, MoveIsSafe, PickedBySize, Version.Valid;
    var f, g;
    st, f, g := ReachSplitKey(k, a, b);
    st' := st.(version := Layers(3, [g], [f]));
    c := Pick(3, [f], [], [], f.smallest, f.largest);
    ReachableInv(st);
    assert [f] + [g] == [f, g];
    MoveOfFirst(st, st', c, f, g);
    assert f.entries[0] in f.entries && g.entries[0] in g.entries;
    MoveIsUnsafe(st, c, f, g, f.entries[0], g.entries[0]);
    forall p: Pick, max: nat | p.level == 3 && PickedBySize(st.version, p, None, max) ensures p.inputs == [f] {
      FirstIsPicked(st.version, p, max, f, g);
    }
    FoundIn(st'.version, 3, g, g.entries[0], k, 2);
    assert LastWrite(st.history, k, 2) == 2;
  }

  lemma {:induction false} MoveOfFirst(st: Store, st': Store, c: Pick, f: FileMeta, g: FileMeta)
    requires st.FilesOk() && c.level + 2 < NUM_LEVELS && c.level > 0 && st.version == Layers(c.level, [f] + [g], [])
             && f != g
    requires c == Pick(c.level, [f], [], [], f.smallest, f.largest)
    requires st' == st.(version := Layers(c.level, [g], [f]))
    ensures Moved(st, st', c)
  {
    hide PreservesReads, ValidPick, InputEntry, FileMeta.Valid;
    OneFileInput(st, c, f, [g]);
    KeepingAllPreservesReads(f.entries, st.SmallestSnapshot(), st.version, c.level);
    OneFile(f);
    MovedFiles(st.version, st'.version, c, f, g);
  }

  lemma {:induction false} MovedFiles(v: Version, v': Version, c: Pick, f: FileMeta, g: FileMeta)
    requires c.level + 2 < NUM_LEVELS && v == Layers(c.level, [f] + [g], []) && v' == Layers(c.level, [g], [f])
             && f != g
    requires c.inputs == [f] && c.parentInputs == []
    ensures FilesReplaced(v, v', c, [f])
  {
    hide LessFile;
  }

  lemma {:induction false} MoveIsUnsafe(st: Store, c: Pick, f: FileMeta, g: FileMeta, newer: Entry, older: Entry)
    requires |st.version.levels| == NUM_LEVELS && c.level < NUM_LEVELS && g in st.version.levels[c.level]
    requires c.inputs == [f] && f != g && newer in f.entries && older in g.entries
    requires newer.key.user == older.key.user && newer.key.sequence > older.key.sequence
    ensures !MoveIsSafe(st, c)
  {
    assert f in c.inputs && g !in c.inputs;
  }

  /** With no compaction pointer the first file is the seed, and without files in the next level
      nothing joins it. */
  lemma {:induction false} FirstIsPicked(v: Version, p: Pick, max: nat, f: FileMeta, g: FileMeta)
    requires 0 < p.level && p.level + 2 < NUM_LEVELS && v == Layers(p.level, [f, g], [])
             && PickedBySize(v, p, None, max)
    ensures p.inputs == [f]
  {
    var seed :| IsSeed(v.levels[p.level], None, seed) && PickedFrom(v, seed, p, max);
    assert PastPointer(f, None) && v.levels[p.level][0] == f;
    assert seed == f;
    var picked :| SetUp(v, picked, p, max) && picked == [f];
    NoParents(v, picked, p, max);
  }

  lemma {:induction false} NoParents(v: Version, picked: Files, p: Pick, max: nat)
    requires |v.levels| == NUM_LEVELS && p.level + 1 < NUM_LEVELS && v.levels[p.level + 1] == []
    requires SetUp(v, picked, p, max)
    ensures p.inputs == picked
  {
    hide IsClosure;
  }

  // ---------- a deletion marker dropped above an older version ----------

  /** An old snapshot, since released, has split the versions of m: the marker is in one file of
      level 2 and the version it hides in the next.  A younger version of k is in level 1. */
  lemma {:induction false} ReachSplitMarker(k: UserKey, m: UserKey, p: Bytes, v: Bytes)
    returns (st: Store, f: FileMeta, p1: FileMeta, p2: FileMeta)
    requires k < m
    ensures Reachable(st) && f.entries == [Entry(InternalKey(k, 4, Value), p)]
    ensures p1.entries == [Entry(InternalKey(k, 1, Value), p), Entry(InternalKey(m, 3, Deletion), [])]
    ensures p2.entries == [Entry(InternalKey(m, 2, Value), v)]
    ensures st == Store([], None, Layers(1, [f], [p1, p2]), 4, [], 5,
                        [Write(k, Value, p), Write(m, Value, v), Write(m, Deletion, []), Write(k, Value, p)])
  {
    hide Reachable, Layers, Kept, Numbered, Sorted, AllValid, DisjointSorted;
    var k1, m2 := Entry(InternalKey(k, 1, Value), p), Entry(InternalKey(m, 2, Value), v);
    var m3, k4 := Entry(InternalKey(m, 3, Deletion), []), Entry(InternalKey(k, 4, Value), p);
    var st4 := ReachThreeWrites(k, m, p, v);
    NoFilesAre(1);
    var st5 := ReachFlush(st4, 1, []);
    ThreeKept(k1, m3, m2, st5.version, 1);
    p1, p2 := File(2, [k1, m3]), File(3, [m2]);
    var st6 := ReachSplit(st5, 1, File(1, [k1, m3, m2]), [p1, p2]);
    var st7 := ReleaseSnapshot(st6, 0);
    ReachNext(st6, st7);
    var st8 := ReachWrite(st7, k, Value, p);
    f := File(4, [k4]);
    assert st8.mem == [k4];
    st := ReachFlush(st8, 1, [p1, p2]);
  }

  lemma {:induction false} ReachThreeWrites(k: UserKey, m: UserKey, p: Bytes, v: Bytes) returns (st: Store)
    requires k < m
    ensures Reachable(st)
    ensures st == Store([Entry(InternalKey(k, 1, Value), p), Entry(InternalKey(m, 3, Deletion), []),
                         Entry(InternalKey(m, 2, Value), v)],
                        None, NoFiles(), 3, [2], 1, [Write(k, Value, p), Write(m, Value, v), Write(m, Deletion, [])])
  {
    hide Reachable;
    var k1, m2 := Entry(InternalKey(k, 1, Value), p), Entry(InternalKey(m, 2, Value), v);
    var st0 := Store([], None, NoFiles(), 0, [], 1, []);
    ReachFirst(st0);
    var st1 := ReachWrite(st0, k, Value, p);
    var st2 := ReachWrite(st1, m, Value, v);
    assert st2.mem == [k1, m2];
    var st3 := TakeSnapshot(st2);
    ReachNext(st2, st3);
    st := ReachWrite(st3, m, Deletion, []);
    assert st.mem == [k1, Entry(InternalKey(m, 3, Deletion), []), m2];
  }

  /** With a snapshot at 2 the compaction loop keeps all three, and may cut the file after the marker. */
  lemma {:induction false} ThreeKept(k1: Entry, m3: Entry, m2: Entry, v: Version, level: nat)
    requires |v.levels| == NUM_LEVELS && k1.key.user < m3.key.user == m2.key.user
    requires k1.key.sequence == 1 && m3.key.sequence == 3 && m2.key.sequence == 2
    requires k1.key.kind == Value && m2.key.kind == Value
    ensures var files := [File(2, [k1, m3]), File(3, [m2])];
            && AllValid(files) && DisjointSorted(files) && BySmallest(files) && Numbered(files, 2)
            && Flatten(files) == Kept([k1, m3, m2], 3, 2, v, level)
  {
    hide Kept, Numbered, AllValid, DisjointSorted, BySmallest, Flatten;
    var input := [k1, m3, m2];
    SplitFilesFit([k1, m3], [m2], 2);
    assert !Hidden(input, 0, 2) && !Hidden(input, 1, 2) && !Hidden(input, 2, 2);
    KeepsAll(input, 3, 2, v, level);
    assert input[..3] == [k1, m3] + [m2];
  }

  /** The younger version of k is merged with the file that has the marker.  The marker is
      dropped, since no deeper level has m; the version it hid, which stays in the same level,
      becomes what a read finds. */
  lemma {:induction false} DroppedMarkerBreaksReads(k: UserKey, m: UserKey, p: Bytes, v: Bytes)
    returns (st: Store, st': Store, c: Pick)
    requires k < m
    ensures Reachable(st) && Compacted(st, st', c) && st'.version.LayersOrdered()
    ensures !KeptGoesBelowOlder(st, c) && DroppedMarkerHidesOlder(st, c)
    ensures SpecGet(st'.history, m, st'.lastSequence) == None
    ensures st'.mem == [] && st'.imm == None
    ensures FoundFirst(st'.version, m, st'.lastSequence, Entry(InternalKey(m, 2, Value), v))
  {
    hide Reachable, Compacted, KeptGoesBelowOlder, DroppedMarkerHidesOlder, Store.Inv, Version.LayersOrdered, InPlace,
         ValidPick, InputEntry, FoundFirst;
    var f, p1, p2;
    st, f, p1, p2 := ReachSplitMarker(k, m, p, v);
    ReachableInv(st);
    var o := File(5, f.entries);
    st' := st.(version := Layers(1, [], [o, p2]), nextFileNumber := 6);
    c := Pick(1, [f], [p1], [], f.smallest, f.largest);
    var k4, k1, m3, m2 := f.entries[0], p1.entries[0], p1.entries[1], p2.entries[0];
    FilesInPlace(st, f, p1, p2);
    MarkerPick(st.version, c, f, p1, p2, k4, k1, m3, m2);
    MarkerMerge(st, st', c, f, p1, p2, o, k4, k1, m3, m2);
    MarkerHazard(st, c, f, p1, p2, k1, m3, m2);
    MarkerRead(st'.version, o, p2, k4, m2);
    assert LastWrite(st.history, m, 4) == 3;
  }

  lemma {:induction false} MarkerRead(v: Version, o: FileMeta, p2: FileMeta, k4: Entry, m2: Entry)
    requires v == Layers(1, [], [o, p2]) && o.entries == [k4] && p2.entries == [m2]
    requires k4.key.user != m2.key.user && m2.key.sequence <= 4
    ensures FoundFirst(v, m2.key.user, 4, m2)
  {
    assert m2 in p2.entries && p2 in [o, p2];
    FoundIn(v, 2, p2, m2, m2.key.user, 4);
  }

  /** The only files are f in level 1, and p1 and p2 in level 2. */
  ghost predicate InPlace(v: Version, f: FileMeta, p1: FileMeta, p2: FileMeta) {
    v == Layers(1, [f], [p1, p2]) && f.Valid() && p1.Valid() && p2.Valid() && p1 != p2
  }

  lemma {:induction false} FilesInPlace(st: Store, f: FileMeta, p1: FileMeta, p2: FileMeta)
    requires st.Inv() && st.version == Layers(1, [f], [p1, p2]) && p1.entries != p2.entries
    ensures InPlace(st.version, f, p1, p2)
  {
    assert st.version.levels[1][0].Valid() && st.version.levels[2][0].Valid() && st.version.levels[2][1].Valid();
  }

  lemma {:induction false} MarkerPick(v: Version, c: Pick, f: FileMeta, p1: FileMeta, p2: FileMeta,
                                      k4: Entry, k1: Entry, m3: Entry, m2: Entry)
    requires InPlace(v, f, p1, p2) && c == Pick(1, [f], [p1], [], f.smallest, f.largest)
    requires f.entries == [k4] && p1.entries == [k1, m3] && p2.entries == [m2]
    requires k4.key.user == k1.key.user < m3.key.user == m2.key.user
    ensures ValidPick(v, c)
    ensures forall e :: e in [k4, k1, m3] <==> InputEntry(c, e)
  {
    hide FileMeta.Valid;
    var lo := Some(f.smallest.user);
    assert f.smallest == k4.key && f.largest == k4.key by { FileEnds(f); }
    assert p1.smallest == k1.key && p1.largest == m3.key by { FileEnds(p1); }
    assert p2.smallest == m2.key by { FileEnds(p2); }
    assert [p1, p2][..1] == [p1] && [p1][..0] == [];
    assert Overlapping([p1, p2], lo, lo) == Overlapping([p1], lo, lo) + [];
    assert Overlapping([p1], lo, lo) == Overlapping([], lo, lo) + [p1];
    assert f in [f] && p1 in [p1] && IsInput(c, f) && IsInput(c, p1);
  }

  lemma {:induction false} FileEnds(f: FileMeta)
    requires f.Valid()
    ensures f.entries != [] && f.smallest == f.entries[0].key && f.largest == f.entries[|f.entries| - 1].key
  {
  }

  lemma {:induction false} MarkerMerge(st: Store, st': Store, c: Pick, f: FileMeta, p1: FileMeta, p2: FileMeta,
                                       o: FileMeta,
                                       k4: Entry, k1: Entry, m3: Entry, m2: Entry)
    requires st.Inv() && InPlace(st.version, f, p1, p2) && st.snapshots == [] && st.lastSequence == 4
             && st.nextFileNumber == 5
    requires c == Pick(1, [f], [p1], [], f.smallest, f.largest) && ValidPick(st.version, c)
    requires forall e :: e in [k4, k1, m3] <==> InputEntry(c, e)
    requires f.entries == [k4] && p2.entries == [m2] && o == File(5, [k4])
    requires k4.key.user == k1.key.user < m3.key.user == m2.key.user
    requires k4.key.sequence == 4 && k1.key.sequence == 1 && k1.key.kind == Value && m3.key.sequence == 3
             && m3.key.kind == Deletion
    requires k4.key.kind == Value
    requires st' == st.(version := Layers(1, [], [o, p2]), nextFileNumber := 6)
    ensures Compacted(st, st', c) && st'.version.LayersOrdered()
  {
    hide Store.MemOk, Store.HistoryOk, ValidPick, InputEntry, PreservesReads, Kept, Flatten, Version.LayersOrdered;
    var input := [k4, k1, m3];
    MarkerKept(input, st.version, k4, k1, m3);
    DroppingPreservesReads(input, 4, st.version, 1);
    OneFile(o);
    MarkerFiles(st.version, st'.version, c, f, p1, p2, o, m2);
    assert WhatIsKept(st, c, input, [o]);
    assert ReplaceInputs(st, st', c, input, [o]);
    ReadOrderKeptIff(st, st', c, input, [o]);
  }

  lemma {:induction false} OneFile(o: FileMeta)
    ensures Flatten([o]) == o.entries
  {
    assert [o][..0] == [] && Flatten([o]) == Flatten([o][..0]) + o.entries == o.entries;
  }

  lemma {:induction false} MarkerFiles(v: Version, v': Version, c: Pick, f: FileMeta, p1: FileMeta, p2: FileMeta,
                                       o: FileMeta, m2: Entry)
    requires InPlace(v, f, p1, p2) && c == Pick(1, [f], [p1], [], f.smallest, f.largest)
    requires v' == Layers(1, [], [o, p2]) && p2.entries == [m2] && o.smallest.user < m2.key.user
    ensures FilesReplaced(v, v', c, [o])
  {
    FileEnds(p2);
    assert LessFile(o, p2);
  }

  lemma {:induction false} MarkerKept(input: seq<Entry>, v: Version, k4: Entry, k1: Entry, m3: Entry)
    requires input == [k4, k1, m3] && |v.levels| == NUM_LEVELS && forall l :: 3 <= l < NUM_LEVELS ==> v.levels[l] == []
    requires k4.key.user == k1.key.user < m3.key.user && k4.key.kind == Value
    requires k4.key.sequence == 4 && k1.key.sequence == 1 && m3.key.sequence == 3 && m3.key.kind == Deletion
    ensures Sorted(input) && Kept(input, 3, 4, v, 1) == [k4]
  {
    assert Hidden(input, 1, 4) by {
      assert input[0].key.user == input[1].key.user && input[0].key.sequence <= 4;
    }
    assert BaseLevelForKey(v, 1, m3.key.user);
    assert !Hidden(input, 0, 4) && !Obsolete(k4, 4, v, 1) && Obsolete(m3, 4, v, 1);
    assert Kept(input, 1, 4, v, 1) == Kept(input, 0, 4, v, 1) + [k4];
    assert Kept(input, 2, 4, v, 1) == Kept(input, 1, 4, v, 1) + [];
    assert Kept(input, 3, 4, v, 1) == Kept(input, 2, 4, v, 1) + [];
  }

  lemma {:induction false} MarkerSettled(st: Store, f: FileMeta, p1: FileMeta, p2: FileMeta, k1: Entry, m3: Entry,
                                         m2: Entry)
    requires InPlace(st.version, f, p1, p2)
    requires st.mem == [] && st.imm == None && st.snapshots == [] && st.lastSequence == 4
    requires p1.entries == [k1, m3] && p2.entries == [m2] && forall e :: e in f.entries ==> e.key.user != m3.key.user
    requires k1.key.user != m3.key.user && m3.key.sequence == 3 && m2.key.sequence == 2
    ensures Settled(st, m3)
  {
    hide FileMeta.Valid;
    forall w | st.Holds(w) && Candidate(w, m3.key.user, 4) ensures w.key.Tag() <= m3.key.Tag() {
      var l, g :| 0 <= l < NUM_LEVELS && g in st.version.levels[l] && w in g.entries;
      assert g == f || g == p1 || g == p2;
    }
  }

  lemma {:induction false} MarkerHazard(st: Store, c: Pick, f: FileMeta, p1: FileMeta, p2: FileMeta, k1: Entry,
                                        m3: Entry, m2: Entry)
    requires InPlace(st.version, f, p1, p2) && c == Pick(1, [f], [p1], [], f.smallest, f.largest)
    requires st.mem == [] && st.imm == None && st.snapshots == [] && st.lastSequence == 4
    requires p1.entries == [k1, m3] && p2.entries == [m2] && forall e :: e in f.entries ==> e.key.user != m3.key.user
    requires k1.key.user != m3.key.user == m2.key.user && m3.key.sequence == 3 && m3.key.kind == Deletion
             && m2.key.sequence == 2
    ensures DroppedMarkerHidesOlder(st, c) && !KeptGoesBelowOlder(st, c)
  {
    assert p1 in [p1] && m3 in p1.entries && IsInput(c, p1);
    assert InputEntry(c, m3);
    hide FileMeta.Valid, Settled;
    assert BaseLevelForKey(st.version, 1, m3.key.user);
    MarkerSettled(st, f, p1, p2, k1, m3, m2);
    assert LeftEntry(st.version, c, m2) by {
      assert StaysBehind(st.version, c, p2) && m2 in p2.entries;
    }
  }
}

/** Compactions and trivial moves as steps of the store. */
module StoreCompactions {
  import opened InternalKeys
  import opened Versions
  import opened VersionBuilders
  import opened CompactionPickers
  import opened Compactions
  import opened Stores
  import opened StoreFlushes

  /** A file of the level that is left behind holds only younger versions of the keys it
      shares with a file taken.  At level 0 picking ensures it; above, the source does not,
      when old snapshots keep several versions of a key and a file boundary falls between. */
  ghost predicate LeftBehindYounger(files: Files, taken: Files) {
    forall f, g :: f in files && f !in taken && g in taken ==> Newer(f.entries, g.entries)
  }

  lemma {:induction false} LevelZeroNotSplit(v: Version, c: Pick)
    requires v.Valid() && ValidPick(v, c) && c.level == 0
    ensures LeftBehindYounger(v.levels[0], c.inputs)
  {
    forall f, g | f in v.levels[0] && f !in c.inputs && g in c.inputs ensures Newer(f.entries, g.entries) {
      NoOverlapNoCommonKey(g, f);
    }
  }

  /** The compaction loop's promise about the run it writes (see DropRulesPreserveReads). */
  ghost predicate PreservesReads(input: seq<Entry>, kept: seq<Entry>, smallestSnapshot: nat, v: Version, level: nat)
    requires |v.levels| == NUM_LEVELS
  {
    && (forall e :: e in kept ==> e in input)
    && forall k, s, e :: s >= smallestSnapshot && NewestIn(input, k, s, e) ==>
         e in kept || (Obsolete(e, smallestSnapshot, v, level) && forall x :: x in kept ==> !Candidate(x, k, s))
  }

  /** A trivial move keeps everything. */
  lemma {:induction false} KeepingAllPreservesReads(input: seq<Entry>, smallestSnapshot: nat, v: Version, level: nat)
    requires |v.levels| == NUM_LEVELS
    ensures PreservesReads(input, input, smallestSnapshot, v, level)
  {
  }

  /** The compaction loop's rules keep every read at or above the smallest snapshot. */
  lemma {:induction false} DroppingPreservesReads(input: seq<Entry>, smallestSnapshot: nat, v: Version, level: nat)
    requires |v.levels| == NUM_LEVELS && Sorted(input)
    ensures PreservesReads(input, Kept(input, |input|, smallestSnapshot, v, level), smallestSnapshot, v, level)
  {
    KeptMembers(input, |input|, smallestSnapshot, v, level);
    forall k, s, e | s >= smallestSnapshot && NewestIn(input, k, s, e)
      ensures var kept := Kept(input, |input|, smallestSnapshot, v, level);
              e in kept || (Obsolete(e, smallestSnapshot, v, level) && forall x :: x in kept ==> !Candidate(x, k, s))
    {
      DropRulesPreserveReads(input, smallestSnapshot, v, level, k, s, e);
    }
  }

  /** The version after replacing the inputs by the outputs one level down. */
  ghost predicate FilesReplaced(v: Version, v': Version, c: Pick, outputs: Files) {
    && |v.levels| == |v'.levels| == NUM_LEVELS && c.level + 1 < NUM_LEVELS
    && forall l :: 0 <= l < NUM_LEVELS ==>
         BySmallest(v'.levels[l]) &&
         forall g :: g in v'.levels[l] <==>
           if l == c.level then g in v.levels[l] && g !in c.inputs
           else if l == c.level + 1 then (g in v.levels[l] && g !in c.parentInputs) || g in outputs
           else g in v.levels[l]
  }

  ghost predicate IsInput(c: Pick, f: FileMeta) {
    f in c.inputs || f in c.parentInputs
  }

  ghost predicate InputEntry(c: Pick, e: Entry) {
    exists f :: IsInput(c, f) && e in f.entries
  }

  /** What the code does: replace the inputs by the run the loop wrote. */
  ghost predicate ReplaceInputs(st: Store, st': Store, c: Pick, input: seq<Entry>, outputs: Files) {
    && ValidPick(st.version, c)
    && (forall e :: e in input <==> InputEntry(c, e))
    && PreservesReads(input, Flatten(outputs), st.SmallestSnapshot(), st.version, c.level)
    && AllValid(outputs) && DisjointSorted(outputs)
    && FilesReplaced(st.version, st'.version, c, outputs)
    && NumbersFresh(st, c, outputs, st'.nextFileNumber)
    && st' == st.(version := st'.version, nextFileNumber := st'.nextFileNumber)
  }

  /** The output files hold, in order, the merged input without what the drop rules drop. */
  ghost predicate WhatIsKept(st: Store, c: Pick, input: seq<Entry>, outputs: Files) {
    && |st.version.levels| == NUM_LEVELS && Sorted(input)
    && Flatten(outputs) == Kept(input, |input|, st.SmallestSnapshot(), st.version, c.level)
  }

  /** A compaction has replaced its inputs by what the drop rules keep of them. */
  ghost predicate Compacted(st: Store, st': Store, c: Pick) {
    exists input, outputs :: WhatIsKept(st, c, input, outputs) && ReplaceInputs(st, st', c, input, outputs)
  }

  /** The one input file has moved down a level. */
  ghost predicate Moved(st: Store, st': Store, c: Pick) {
    |c.inputs| == 1 && ReplaceInputs(st, st', c, c.inputs[0].entries, c.inputs)
  }

  // ---------- when a compaction is safe ----------

  /** The file stays in the level that the compaction takes files from, or in the next one. */
  ghost predicate StaysBehind(v: Version, c: Pick, f: FileMeta)
    requires |v.levels| == NUM_LEVELS && c.level + 1 < NUM_LEVELS
  {
    (f in v.levels[c.level] && f !in c.inputs) || (f in v.levels[c.level + 1] && f !in c.parentInputs)
  }

  /** An entry of a file that stays behind. */
  ghost predicate LeftEntry(v: Version, c: Pick, x: Entry)
    requires |v.levels| == NUM_LEVELS && c.level + 1 < NUM_LEVELS
  {
    exists f :: StaysBehind(v, c, f) && x in f.entries
  }

  /** e is the newest stored version of its key that every live reader may see. */
  ghost predicate Settled(st: Store, e: Entry) {
    && e.key.sequence <= st.SmallestSnapshot()
    && forall w :: st.Holds(w) && Candidate(w, e.key.user, st.SmallestSnapshot()) ==> w.key.Tag() <= e.key.Tag()
  }

  /** The merge keeps the input entry: neither drop rule applies to it. */
  ghost predicate SurvivesMerge(st: Store, c: Pick, e: Entry)
    requires |st.version.levels| == NUM_LEVELS
  {
    && InputEntry(c, e) && !Obsolete(e, st.SmallestSnapshot(), st.version, c.level)
    && forall y :: InputEntry(c, y) && y.key.user == e.key.user && y.key.sequence <= st.SmallestSnapshot() ==>
         y.key.sequence <= e.key.sequence
  }

  /** What can go wrong with a merge, read off the store and the pick.  First: a file left in
      the level that is compacted has an older version of a key whose version goes down. */
  ghost predicate KeptGoesBelowOlder(st: Store, c: Pick)
    requires |st.version.levels| == NUM_LEVELS && c.level + 1 < NUM_LEVELS
  {
    exists f, x, e ::
      f in st.version.levels[c.level] && f !in c.inputs && x in f.entries && SurvivesMerge(st, c, e)
      && x.key.user == e.key.user && x.key.sequence <= e.key.sequence
  }

  /** Second: a deletion marker is dropped although it is what readers see of its key, and a
      file left in either level has an older version. */
  ghost predicate DroppedMarkerHidesOlder(st: Store, c: Pick)
    requires |st.version.levels| == NUM_LEVELS && c.level + 1 < NUM_LEVELS
  {
    exists e, x ::
      InputEntry(c, e) && Obsolete(e, st.SmallestSnapshot(), st.version, c.level) && Settled(st, e)
      && LeftEntry(st.version, c, x) && x.key.user == e.key.user && x.key.sequence <= e.key.sequence
  }

  ghost predicate MergeIsSafe(st: Store, c: Pick)
    requires |st.version.levels| == NUM_LEVELS && c.level + 1 < NUM_LEVELS
  {
    !KeptGoesBelowOlder(st, c) && !DroppedMarkerHidesOlder(st, c)
  }

  ghost predicate MoveIsSafe(st: Store, c: Pick)
    requires |st.version.levels| == NUM_LEVELS && c.level < NUM_LEVELS
  {
    LeftBehindYounger(st.version.levels[c.level], c.inputs)
  }

  /** Output files have new numbers, or are the moved input file itself. */
  ghost predicate NumbersFresh(st: Store, c: Pick, outputs: Files, nextFileNumber: nat) {
    && st.nextFileNumber <= nextFileNumber
    && (forall f :: f in outputs ==> f in c.inputs || st.nextFileNumber <= f.number < nextFileNumber)
    && (forall f, g :: f in outputs && g in outputs && f.number == g.number ==> f == g)
  }

  lemma {:induction false} OutputEntryIsInput(st: Store, st': Store, c: Pick, input: seq<Entry>, outputs: Files,
                                              f: FileMeta, e: Entry) returns (g: FileMeta)
    requires ReplaceInputs(st, st', c, input, outputs) && f in outputs && e in f.entries
    ensures IsInput(c, g) && e in g.entries
  {
    FlattenMembers(outputs);
    assert e in Flatten(outputs) && InputEntry(c, e);
    g :| IsInput(c, g) && e in g.entries;
  }

  /** A parent file left behind lies wholly before or wholly after everything compacted. */
  lemma {:induction false} LeftBehindSeparate(v: Version, c: Pick, g: FileMeta, f: FileMeta)
    requires v.Valid() && ValidPick(v, c) && g in v.levels[c.level + 1] && g !in c.parentInputs && IsInput(c, f)
    ensures g.Valid() && f.Valid()
    ensures g.largest.user < c.smallest.user ==> Before(g.largest, f.smallest)
    ensures g.smallest.user > c.largest.user ==> Before(f.largest, g.smallest)
    ensures g.largest.user < c.smallest.user || g.smallest.user > c.largest.user
  {
    FileBounds(g, g.entries[0]);
    FileBounds(f, f.entries[0]);
    if f in c.parentInputs {
      DisjointFilesSeparate(v.levels[c.level + 1], f, g);
    }
  }

  lemma {:induction false} OutputsSeparate(st: Store, st': Store, c: Pick, input: seq<Entry>, outputs: Files,
                                           g: FileMeta, o: FileMeta)
    requires st.version.Valid() && ReplaceInputs(st, st', c, input, outputs)
    requires g in st.version.levels[c.level + 1] && g !in c.parentInputs && o in outputs
    ensures Separate(g, o)
  {
    var first := o.entries[0];
    var f := OutputEntryIsInput(st, st', c, input, outputs, o, first);
    LeftBehindSeparate(st.version, c, g, f);
    FileBounds(f, first);
    var last := o.entries[|o.entries| - 1];
    var f2 := OutputEntryIsInput(st, st', c, input, outputs, o, last);
    LeftBehindSeparate(st.version, c, g, f2);
    FileBounds(f2, last);
  }

  lemma {:induction false} CompactKeepsLevels(st: Store, st': Store, c: Pick, input: seq<Entry>, outputs: Files)
    requires st.FilesOk() && ReplaceInputs(st, st', c, input, outputs)
    ensures st'.version.Valid()
  {
    hide PreservesReads, NumbersFresh, ValidPick, Version.LayersOrdered, UniqueNumbers, FileMeta.Valid, InputEntry;
    var v, v' := st.version, st'.version;
    forall l | 0 <= l < NUM_LEVELS ensures AllValid(v'.levels[l]) {
      forall i | 0 <= i < |v'.levels[l]| ensures v'.levels[l][i].Valid() {
        assert v'.levels[l][i] in v'.levels[l];
      }
    }
    forall l | 1 <= l < NUM_LEVELS ensures DisjointSorted(v'.levels[l]) {
      forall g, h | g in v'.levels[l] && h in v'.levels[l] && g != h ensures Separate(g, h) {
        if g in v.levels[l] && h in v.levels[l] {
          DisjointFilesSeparate(v.levels[l], g, h);
        } else if g in outputs && h in outputs {
          DisjointFilesSeparate(outputs, g, h);
        } else if g in outputs {
          OutputsSeparate(st, st', c, input, outputs, h, g);
        } else {
          OutputsSeparate(st, st', c, input, outputs, g, h);
        }
      }
      SeparateFilesDisjoint(v'.levels[l]);
    }
  }

  lemma {:induction false} CompactKeepsNumbers(st: Store, v': Version, c: Pick, outputs: Files, nextFileNumber: nat)
    requires |st.version.levels| == NUM_LEVELS && UniqueNumbers(st.version)
    requires forall l, f :: 0 <= l < NUM_LEVELS && f in st.version.levels[l] ==> f.number < st.nextFileNumber
    requires c.level + 1 < NUM_LEVELS && Subset(c.inputs, st.version.levels[c.level])
    requires FilesReplaced(st.version, v', c, outputs) && NumbersFresh(st, c, outputs, nextFileNumber)
    ensures UniqueNumbers(v')
    ensures forall l, g :: 0 <= l < NUM_LEVELS && g in v'.levels[l] ==> g.number < nextFileNumber
  {
    var v := st.version;
    forall l, m, f, g | 0 <= l < NUM_LEVELS && 0 <= m < NUM_LEVELS && f in v'.levels[l] && g in v'.levels[m]
      ensures f.number == g.number ==> l == m && f == g
    {
      if f in v.levels[l] && g in v.levels[m] {
      } else if f in v.levels[l] {
        OldAndOutput(st, v', c, outputs, nextFileNumber, l, f, g);
      } else if g in v.levels[m] {
        OldAndOutput(st, v', c, outputs, nextFileNumber, m, g, f);
      }
    }
  }

  /** A file that stays never shares its number with an output. */
  lemma {:induction false} OldAndOutput(st: Store, v': Version, c: Pick, outputs: Files, nextFileNumber: nat,
                                        l: nat, f: FileMeta, o: FileMeta)
    requires |st.version.levels| == NUM_LEVELS && UniqueNumbers(st.version)
    requires forall l, f :: 0 <= l < NUM_LEVELS && f in st.version.levels[l] ==> f.number < st.nextFileNumber
    requires c.level + 1 < NUM_LEVELS && Subset(c.inputs, st.version.levels[c.level])
    requires FilesReplaced(st.version, v', c, outputs) && NumbersFresh(st, c, outputs, nextFileNumber)
    requires l < NUM_LEVELS && f in v'.levels[l] && f in st.version.levels[l] && o in outputs
    ensures f.number == o.number ==> l == c.level + 1 && f == o
  {
    assert o in c.inputs ==> o in st.version.levels[c.level];
  }

  /** An output is younger than whatever all inputs are younger than, and the other way round. */
  lemma {:induction false} OutputsNewer(st: Store, st': Store, c: Pick, input: seq<Entry>, outputs: Files,
                                        o: FileMeta, es: seq<Entry>)
    requires ReplaceInputs(st, st', c, input, outputs) && o in outputs
    ensures (forall f :: IsInput(c, f) ==> Newer(f.entries, es)) ==> Newer(o.entries, es)
    ensures (forall f :: IsInput(c, f) ==> Newer(es, f.entries)) ==> Newer(es, o.entries)
  {
    forall a | a in o.entries ensures InputEntry(c, a) {
      var g := OutputEntryIsInput(st, st', c, input, outputs, o, a);
    }
  }

  lemma {:induction false} InputLevels(st: Store, c: Pick, f: FileMeta)
    requires ValidPick(st.version, c) && IsInput(c, f)
    ensures f in st.version.levels[c.level] || f in st.version.levels[c.level + 1]
  {
  }

  /** The files of c.level that stay are younger, key by key, than the run written below them. */
  ghost predicate StayYounger(st: Store, c: Pick, outputs: Files)
    requires |st.version.levels| == NUM_LEVELS && c.level < NUM_LEVELS
  {
    forall f :: f in st.version.levels[c.level] && f !in c.inputs ==> Newer(f.entries, Flatten(outputs))
  }

  lemma {:induction false} ReplaceKeepsLevelPair(st: Store, st': Store, c: Pick, input: seq<Entry>, outputs: Files,
                                                 l: nat, m: nat)
    requires st.FilesOk() && ReplaceInputs(st, st', c, input, outputs) && l < m < NUM_LEVELS
    requires StayYounger(st, c, outputs)
    ensures LevelNewer(st'.version.levels[l], st'.version.levels[m])
  {
    var v, v' := st.version, st'.version;
    assert LevelNewer(v.levels[l], v.levels[m]);
    forall g, h | g in v'.levels[l] && h in v'.levels[m] ensures Newer(g.entries, h.entries) {
      if g !in v.levels[l] {
        forall f | IsInput(c, f) ensures Newer(f.entries, h.entries) {
          InputLevels(st, c, f);
          assert LevelNewer(v.levels[c.level], v.levels[m]) && LevelNewer(v.levels[c.level + 1], v.levels[m]);
        }
        OutputsNewer(st, st', c, input, outputs, g, h.entries);
      } else if h !in v.levels[m] && l < c.level {
        forall f | IsInput(c, f) ensures Newer(g.entries, f.entries) {
          assert LevelNewer(v.levels[l], v.levels[c.level + 1]) && LevelNewer(v.levels[l], v.levels[c.level]);
        }
        OutputsNewer(st, st', c, input, outputs, h, g.entries);
      } else if h !in v.levels[m] {
        FlattenMembers(outputs);
      }
    }
  }

  /** Exactly when replacing the inputs keeps the order that reads rely on. */
  lemma {:induction false} ReadOrderKeptIff(st: Store, st': Store, c: Pick, input: seq<Entry>, outputs: Files)
    requires st.FilesOk() && ReplaceInputs(st, st', c, input, outputs)
    ensures st'.version.LayersOrdered() <==> StayYounger(st, c, outputs)
  {
    hide PreservesReads, NumbersFresh, ValidPick, Version.Valid, UniqueNumbers, InputEntry;
    if StayYounger(st, c, outputs) {
      forall l, m | 0 <= l < m < NUM_LEVELS ensures LevelNewer(st'.version.levels[l], st'.version.levels[m]) {
        ReplaceKeepsLevelPair(st, st', c, input, outputs, l, m);
      }
    }
    if st'.version.LayersOrdered() {
      FlattenMembers(outputs);
      assert LevelNewer(st'.version.levels[c.level], st'.version.levels[c.level + 1]);
      forall f | f in st.version.levels[c.level] && f !in c.inputs ensures Newer(f.entries, Flatten(outputs)) {
        assert f in st'.version.levels[c.level];
      }
    }
  }

  /** No entry that is lost answers readers while an older version of its key stays behind. */
  ghost predicate NothingResurfaces(st: Store, c: Pick, outputs: Files)
    requires |st.version.levels| == NUM_LEVELS && c.level + 1 < NUM_LEVELS
  {
    forall e, x ::
      InputEntry(c, e) && e !in Flatten(outputs) && Settled(st, e) && LeftEntry(st.version, c, x)
        && x.key.user == e.key.user ==>
        x.key.sequence > e.key.sequence
  }

  lemma {:induction false} CompactKeepsMem(st: Store, st': Store, c: Pick, input: seq<Entry>, outputs: Files,
                                           es: seq<Entry>)
    requires st.NewerThanFiles(es) && ReplaceInputs(st, st', c, input, outputs)
    ensures st'.NewerThanFiles(es)
  {
    forall l, g | 0 <= l < NUM_LEVELS && g in st'.version.levels[l] ensures Newer(es, g.entries) {
      if g !in st.version.levels[l] {
        forall f | IsInput(c, f) ensures Newer(es, f.entries) {
          InputLevels(st, c, f);
        }
        OutputsNewer(st, st', c, input, outputs, g, es);
      }
    }
  }

  /** A compaction adds nothing, and loses only input entries. */
  lemma {:induction false} CompactContents(st: Store, st': Store, c: Pick, input: seq<Entry>, outputs: Files, e: Entry)
    requires ReplaceInputs(st, st', c, input, outputs)
    ensures st'.Holds(e) ==> st.Holds(e)
    ensures st.Holds(e) ==> st'.Holds(e) || e in input
    ensures e in Flatten(outputs) ==> st'.Holds(e)
  {
    var v, v' := st.version, st'.version;
    FlattenMembers(outputs);
    if v'.Holds(e) {
      var l, g :| 0 <= l < |v'.levels| && g in v'.levels[l] && e in g.entries;
      if g !in v.levels[l] {
        var f := OutputEntryIsInput(st, st', c, input, outputs, g, e);
        InputLevels(st, c, f);
      }
    }
    if v.Holds(e) && e !in input {
      var l, g :| 0 <= l < |v.levels| && g in v.levels[l] && e in g.entries;
      assert !IsInput(c, g);
      assert g in v'.levels[l];
    }
    if e in Flatten(outputs) {
      var o :| o in outputs && e in o.entries;
      assert o in v'.levels[c.level + 1];
    }
  }

  lemma {:induction false} FromInputsNotInLeftParent(st: Store, c: Pick, f: FileMeta, g: FileMeta)
    requires st.version.Valid() && ValidPick(st.version, c)
    requires f in c.inputs && g in st.version.levels[c.level + 1] && g !in c.parentInputs
    ensures NoCommonKey(f.entries, g.entries)
  {
    LeftBehindSeparate(st.version, c, g, f);
    forall a, b | a in f.entries && b in g.entries ensures a.key.user != b.key.user {
      FileBounds(f, a);
      FileBounds(g, b);
    }
  }

  /** A version of e's key in a file that stays is younger than e. */
  lemma {:induction false} RivalIsYounger(st: Store, v': Version, c: Pick, outputs: Files,
                                          f: FileMeta, e: Entry, l: nat, g: FileMeta, x: Entry)
    requires st.version.Valid() && st.version.LayersOrdered() && ValidPick(st.version, c)
    requires NothingResurfaces(st, c, outputs) && Settled(st, e) && e !in Flatten(outputs)
    requires IsInput(c, f) && e in f.entries && BaseLevelForKey(st.version, c.level, e.key.user)
    requires FilesReplaced(st.version, v', c, outputs)
    requires l < NUM_LEVELS && g in v'.levels[l] && g !in outputs && x in g.entries && x.key.user == e.key.user
    ensures x.key.sequence > e.key.sequence
  {
    hide Version.Valid, Overlaps, Before, Settled;
    var v := st.version;
    if l < c.level {
      assert LevelNewer(v.levels[l], v.levels[c.level]) && LevelNewer(v.levels[l], v.levels[c.level + 1]);
      InputLevels(st, c, f);
    } else if l <= c.level + 1 {
      assert StaysBehind(v, c, g);
      assert InputEntry(c, e) && LeftEntry(v, c, x);
    } else {
      BaseLevelExcludes(st.version, c.level, e.key.user, l, g, x);
    }
  }

  lemma {:induction false} BaseLevelExcludes(v: Version, level: nat, k: UserKey, l: nat, g: FileMeta, x: Entry)
    requires v.Valid() && BaseLevelForKey(v, level, k) && level + 2 <= l < NUM_LEVELS
    requires g in v.levels[l] && x in g.entries
    ensures x.key.user != k
  {
    var i :| 0 <= i < |v.levels[l]| && v.levels[l][i] == g;
    FileBounds(v.levels[l][i], x);
  }

  /** Losing entries is harmless when each one lost was an answer only as a deletion. */
  lemma {:induction false} CoveredAfterLoss(st: Store, st': Store, k: UserKey, s: nat)
    requires st.history == st'.history && st.Covered(k, s)
    requires forall e :: st'.Holds(e) ==> st.Holds(e)
    requires forall e ::
               (st.Holds(e) && !st'.Holds(e) && e.key.user == k &&
                0 < e.key.sequence == LastWrite(st.history, k, Min(s, |st.history|))) ==>
               st.history[e.key.sequence - 1].kind == Deletion && forall x :: st'.Holds(x) ==> !Candidate(x, k, s)
    ensures st'.Covered(k, s)
  {
    var i := LastWrite(st.history, k, Min(s, |st.history|));
    if i > 0 && st.HoldsVersion(k, i) {
      var e :| st.Holds(e) && e.key.user == k && e.key.sequence == i;
      assert st'.Holds(e) || st.history[i - 1].kind == Deletion;
    }
  }

  lemma {:induction false} CompactKeepsCovered(st: Store, st': Store, c: Pick, input: seq<Entry>, outputs: Files,
                                               k: UserKey, s: nat)
    requires st.Inv() && ReplaceInputs(st, st', c, input, outputs) && NothingResurfaces(st, c, outputs)
    requires s >= st.SmallestSnapshot()
    ensures st'.Covered(k, s)
  {
    hide NothingResurfaces, Store.FilesOk, Store.MemOk;
    forall e | st'.Holds(e) ensures st.Holds(e) {
      CompactContents(st, st', c, input, outputs, e);
    }
    forall e | st.Holds(e) && !st'.Holds(e) && e.key.user == k &&
               0 < e.key.sequence == LastWrite(st.history, k, Min(s, |st.history|))
      ensures st.history[e.key.sequence - 1].kind == Deletion && forall x :: st'.Holds(x) ==> !Candidate(x, k, s)
    {
      CompactContents(st, st', c, input, outputs, e);
      DroppedEntryWasObsolete(st, st', c, input, outputs, k, s, e);
    }
    CoveredAfterLoss(st, st', k, s);
  }

  /** The write a reader must see is the newest among the inputs, if it is there at all. */
  lemma {:induction false} AnswerIsNewestInput(st: Store, c: Pick, input: seq<Entry>, k: UserKey, s: nat, e: Entry)
    requires st.HistoryOk() && ValidPick(st.version, c) && forall x :: x in input <==> InputEntry(c, x)
    requires e in input && e.key.user == k && 0 < e.key.sequence == LastWrite(st.history, k, Min(s, |st.history|))
    ensures NewestIn(input, k, s, e)
  {
    forall x | x in input ensures st.Holds(x) && st.Genuine(x) {
      assert InputEntry(c, x);
      var f :| IsInput(c, f) && x in f.entries;
      InputLevels(st, c, f);
    }
    forall x | x in input && Candidate(x, k, s) ensures x.key.Tag() <= e.key.Tag() {
      assert st.Genuine(x) && st.Genuine(e) && Writes(st.history, x.key.sequence, k);
    }
  }

  lemma {:induction false} RivalsAreYounger(st: Store, st': Store, c: Pick, outputs: Files, f: FileMeta, e: Entry,
                                            x: Entry)
    requires st.FilesOk() && st.MemOk() && ValidPick(st.version, c)
    requires NothingResurfaces(st, c, outputs) && Settled(st, e) && e !in Flatten(outputs)
    requires IsInput(c, f) && e in f.entries && BaseLevelForKey(st.version, c.level, e.key.user)
    requires FilesReplaced(st.version, st'.version, c, outputs) && st'.mem == st.mem && st'.imm == st.imm
    requires st'.Holds(x) && x.key.user == e.key.user && x !in Flatten(outputs)
    ensures x.key.sequence > e.key.sequence
  {
    hide NothingResurfaces, Settled, BaseLevelForKey;
    InputLevels(st, c, f);
    if st'.version.Holds(x) {
      var l, g :| 0 <= l < |st'.version.levels| && g in st'.version.levels[l] && x in g.entries;
      FlattenMembers(outputs);
      RivalIsYounger(st, st'.version, c, outputs, f, e, l, g, x);
    }
  }

  lemma {:induction false} DroppedEntryWasObsolete(st: Store, st': Store, c: Pick, input: seq<Entry>, outputs: Files,
                                                   k: UserKey, s: nat, e: Entry)
    requires st.FilesOk() && st.MemOk() && st.HistoryOk()
    requires ReplaceInputs(st, st', c, input, outputs) && NothingResurfaces(st, c, outputs)
             && s >= st.SmallestSnapshot()
    requires e in input && st.Holds(e) && e !in Flatten(outputs)
    requires e.key.user == k && 0 < e.key.sequence == LastWrite(st.history, k, Min(s, |st.history|))
    ensures st.history[e.key.sequence - 1].kind == Deletion
    ensures forall x :: st'.Holds(x) ==> !Candidate(x, k, s)
  {
    hide NothingResurfaces, Settled, Store.FilesOk, Store.MemOk;
    AnswerIsNewestInput(st, c, input, k, s, e);
    assert Obsolete(e, st.SmallestSnapshot(), st.version, c.level) && InputEntry(c, e);
    AnswerIsSettled(st, k, s, e);
    var f :| IsInput(c, f) && e in f.entries;
    forall x | st'.Holds(x) ensures !Candidate(x, k, s) {
      CompactContents(st, st', c, input, outputs, x);
      if x !in Flatten(outputs) && x.key.user == k {
        RivalsAreYounger(st, st', c, outputs, f, e, x);
        YoungerIsTooYoung(st, k, s, x);
      }
    }
    assert st.Genuine(e);
  }

  /** What a reader must see, once every live reader may see it, is settled. */
  lemma {:induction false} AnswerIsSettled(st: Store, k: UserKey, s: nat, e: Entry)
    requires st.HistoryOk() && st.Holds(e) && e.key.user == k && s >= st.SmallestSnapshot() >= e.key.sequence
    requires 0 < e.key.sequence == LastWrite(st.history, k, Min(s, |st.history|))
    ensures Settled(st, e)
  {
    forall w | st.Holds(w) && Candidate(w, k, st.SmallestSnapshot()) ensures w.key.Tag() <= e.key.Tag() {
      assert st.Genuine(w) && st.Genuine(e) && Writes(st.history, w.key.sequence, k);
    }
  }

  /** A stored version of k above the one a reader at s must see is not visible at s. */
  lemma {:induction false} YoungerIsTooYoung(st: Store, k: UserKey, s: nat, x: Entry)
    requires st.HistoryOk() && st.Holds(x) && x.key.user == k
    requires x.key.sequence > LastWrite(st.history, k, Min(s, |st.history|))
    ensures x.key.sequence > s
  {
    assert st.Genuine(x) && Writes(st.history, x.key.sequence, k);
  }

  lemma {:induction false} CompactKeepsInv(st: Store, st': Store, c: Pick, input: seq<Entry>, outputs: Files)
    requires st.Inv() && ReplaceInputs(st, st', c, input, outputs)
    requires StayYounger(st, c, outputs) && NothingResurfaces(st, c, outputs)
    ensures st'.Inv()
  {
    hide StayYounger, NothingResurfaces, ReplaceInputs, Store.FilesOk, Store.MemOk, Store.HistoryOk, Store.Covered;
    CompactKeepsFiles(st, st', c, input, outputs);
    CompactKeepsHistory(st, st', c, input, outputs);
    forall k, s | s >= st'.SmallestSnapshot() ensures st'.Covered(k, s) {
      CompactKeepsCovered(st, st', c, input, outputs, k, s);
    }
  }

  lemma {:induction false} CompactKeepsFiles(st: Store, st': Store, c: Pick, input: seq<Entry>, outputs: Files)
    requires st.Inv() && ReplaceInputs(st, st', c, input, outputs) && StayYounger(st, c, outputs)
    ensures st'.FilesOk()
  {
    hide StayYounger, UniqueNumbers, Version.Valid, Version.LayersOrdered, Store.HistoryOk, Store.MemOk, Store.Covered;
    CompactKeepsLevels(st, st', c, input, outputs);
    CompactKeepsNumbers(st, st'.version, c, outputs, st'.nextFileNumber);
    ReadOrderKeptIff(st, st', c, input, outputs);
  }

  lemma {:induction false} CompactKeepsHistory(st: Store, st': Store, c: Pick, input: seq<Entry>, outputs: Files)
    requires st.Inv() && ReplaceInputs(st, st', c, input, outputs)
    ensures st'.MemOk() && st'.HistoryOk() && st'.SmallestSnapshot() == st.SmallestSnapshot()
  {
    hide Store.FilesOk, Store.Covered, Store.NewerThanFiles, FilesReplaced, NumbersFresh, PreservesReads;
    CompactKeepsMem(st, st', c, input, outputs, st.mem);
    CompactKeepsMem(st, st', c, input, outputs, st.Imm());
    forall e | st'.Holds(e) ensures st'.Genuine(e) {
      CompactContents(st, st', c, input, outputs, e);
      assert st.Genuine(e);
    }
  }

  // ---------- the condition is exact ----------

  /** An entry is in one file only. */
  lemma {:induction false} OneFileHolds(v: Version, l: nat, m: nat, f: FileMeta, g: FileMeta, e: Entry)
    requires v.Valid() && v.LayersOrdered() && l < NUM_LEVELS && m < NUM_LEVELS
    requires f in v.levels[l] && g in v.levels[m] && e in f.entries && e in g.entries
    ensures l == m && f == g
  {
    assert l < m ==> LevelNewer(v.levels[l], v.levels[m]);
    assert m < l ==> LevelNewer(v.levels[m], v.levels[l]);
    if l == m && f != g && l > 0 {
      DisjointFilesSeparate(v.levels[l], f, g);
      FileBounds(f, e);
      FileBounds(g, e);
    }
  }

  /** An input entry that is not in the output is stored nowhere after the compaction. */
  lemma {:induction false} LostIsGone(st: Store, st': Store, c: Pick, input: seq<Entry>, outputs: Files, e: Entry)
    requires st.Inv() && ReplaceInputs(st, st', c, input, outputs)
    requires InputEntry(c, e) && e !in Flatten(outputs)
    ensures !st'.Holds(e)
  {
    hide Version.Valid, Version.LayersOrdered, PreservesReads, NumbersFresh, Spans;
    var f :| IsInput(c, f) && e in f.entries;
    InputLevels(st, c, f);
    FlattenMembers(outputs);
    if st'.version.Holds(e) {
      var l, g :| 0 <= l < |st'.version.levels| && g in st'.version.levels[l] && e in g.entries;
      var m := if f in c.inputs then c.level else c.level + 1;
      OneFileHolds(st.version, l, m, g, f, e);
    }
  }

  /** If the answer of the oldest readers is lost and an older version stays, those readers see
      the older version. */
  lemma {:induction false} ResurfacingBreaksReads(st: Store, st': Store, c: Pick, input: seq<Entry>, outputs: Files,
                                                  e: Entry, x: Entry)
    requires st.Inv() && ReplaceInputs(st, st', c, input, outputs)
    requires InputEntry(c, e) && e !in Flatten(outputs) && Settled(st, e)
    requires LeftEntry(st.version, c, x) && x.key.user == e.key.user && x.key.sequence <= e.key.sequence
    ensures !st'.Covered(e.key.user, st.SmallestSnapshot())
  {
    hide Store.FilesOk, Store.MemOk, ReplaceInputs, LeftEntry, ValidPick;
    var k, s := e.key.user, st.SmallestSnapshot();
    ResurfacingFacts(st, st', c, input, outputs, e);
    LeftStays(st, st', c, input, outputs, x);
    SettledIsAnswer(st, e);
    assert e.key.sequence == LastWrite(st.history, k, Min(s, |st.history|));
    forall w | st'.Holds(w) && w.key.user == k ensures w.key.sequence != e.key.sequence {
      CompactContents(st, st', c, input, outputs, w);
      if w.key.sequence == e.key.sequence {
        SameSequenceSameEntry(st, w, e);
      }
    }
    assert Candidate(x, k, s);
  }

  lemma {:induction false} SameSequenceSameEntry(st: Store, w: Entry, e: Entry)
    requires st.HistoryOk() && st.Holds(w) && st.Holds(e) && w.key.sequence == e.key.sequence
    ensures w == e
  {
    assert st.Genuine(w) && st.Genuine(e);
  }

  lemma {:induction false} ResurfacingFacts(st: Store, st': Store, c: Pick, input: seq<Entry>, outputs: Files, e: Entry)
    requires st.Inv() && ReplaceInputs(st, st', c, input, outputs) && InputEntry(c, e) && e !in Flatten(outputs)
    ensures st.Holds(e) && !st'.Holds(e) && e.key.sequence > 0 && st'.history == st.history
  {
    hide Store.FilesOk, Store.MemOk, PreservesReads, NumbersFresh, ValidPick;
    InputIsStored(st, c, e);
    assert st.Genuine(e);
    LostIsGone(st, st', c, input, outputs, e);
  }

  lemma {:induction false} LeftStays(st: Store, st': Store, c: Pick, input: seq<Entry>, outputs: Files, x: Entry)
    requires ReplaceInputs(st, st', c, input, outputs) && LeftEntry(st.version, c, x)
    ensures st'.Holds(x)
  {
    hide PreservesReads, NumbersFresh, ValidPick, InputEntry;
    var g :| StaysBehind(st.version, c, g) && x in g.entries;
    var l := if g in st.version.levels[c.level] && g !in c.inputs then c.level else c.level + 1;
    assert g in st'.version.levels[l];
  }

  lemma {:induction false} SettledIsAnswer(st: Store, e: Entry)
    requires st.HistoryOk() && st.Holds(e) && Settled(st, e) && st.Covered(e.key.user, st.SmallestSnapshot())
    ensures e.key.sequence == LastWrite(st.history, e.key.user, Min(st.SmallestSnapshot(), |st.history|))
  {
    var k, s := e.key.user, st.SmallestSnapshot();
    var i := LastWrite(st.history, k, Min(s, |st.history|));
    assert st.Genuine(e) && Writes(st.history, e.key.sequence, k);
    if st.HoldsVersion(k, i) {
      var w :| st.Holds(w) && w.key.user == k && w.key.sequence == i;
      assert Candidate(w, k, s);
    }
  }

  /** Replacing the inputs keeps the invariant exactly when levels stay in order and no older
      version comes back. */
  lemma {:induction false} ReplaceKeepsInvIff(st: Store, st': Store, c: Pick, input: seq<Entry>, outputs: Files)
    requires st.Inv() && ReplaceInputs(st, st', c, input, outputs)
    ensures st'.Inv() <==> StayYounger(st, c, outputs) && NothingResurfaces(st, c, outputs)
  {
    hide Store.MemOk, Store.HistoryOk, StayYounger, Settled, LeftEntry, PreservesReads, NumbersFresh, FilesReplaced;
    if StayYounger(st, c, outputs) && NothingResurfaces(st, c, outputs) {
      CompactKeepsInv(st, st', c, input, outputs);
    }
    if st'.Inv() {
      ReadOrderKeptIff(st, st', c, input, outputs);
      forall e, x | InputEntry(c, e) && e !in Flatten(outputs) && Settled(st, e) && LeftEntry(st.version, c, x)
        && x.key.user == e.key.user
        ensures x.key.sequence > e.key.sequence
      {
        if x.key.sequence <= e.key.sequence {
          ResurfacingBreaksReads(st, st', c, input, outputs, e, x);
          SameSnapshots(st, st', c, input, outputs);
        }
      }
    }
  }

  lemma {:induction false} SameSnapshots(st: Store, st': Store, c: Pick, input: seq<Entry>, outputs: Files)
    requires ReplaceInputs(st, st', c, input, outputs)
    ensures st'.SmallestSnapshot() == st.SmallestSnapshot()
  {
  }

  /** The outputs of a merge hold exactly the entries that survive it. */
  lemma {:induction false} KeptIsWhatSurvives(st: Store, c: Pick, input: seq<Entry>, outputs: Files, e: Entry)
    requires st.HistoryOk() && ValidPick(st.version, c) && (forall x :: x in input <==> InputEntry(c, x))
    requires WhatIsKept(st, c, input, outputs)
    ensures e in Flatten(outputs) <==> SurvivesMerge(st, c, e)
  {
    hide ValidPick, Obsolete;
    KeptMembers(input, |input|, st.SmallestSnapshot(), st.version, c.level);
    forall x | InputEntry(c, x) ensures st.Holds(x) {
      InputIsStored(st, c, x);
    }
    if e in input {
      var i :| 0 <= i < |input| && input[i] == e;
      HiddenIffSuperseded(st, input, i);
      forall j | 0 <= j < |input| && input[j] == e ensures j == i {
        InOrder(input, i, j);
        InOrder(input, j, i);
      }
    }
  }

  lemma {:induction false} InputIsStored(st: Store, c: Pick, e: Entry)
    requires ValidPick(st.version, c) && InputEntry(c, e)
    ensures st.Holds(e)
  {
    var f :| IsInput(c, f) && e in f.entries;
    InputLevels(st, c, f);
  }

  /** In a sorted list of genuine entries, the first drop rule looks for a younger version. */
  lemma {:induction false} HiddenIffSuperseded(st: Store, input: seq<Entry>, i: nat)
    requires Sorted(input) && i < |input| && st.HistoryOk() && forall x :: x in input ==> st.Holds(x)
    ensures var s := st.SmallestSnapshot();
            Hidden(input, i, s) <==>
              exists y :: y in input && y.key.user == input[i].key.user && input[i].key.sequence < y.key.sequence <= s
  {
    hide Store.Covered, Sorted;
    var s := st.SmallestSnapshot();
    if Hidden(input, i, s) {
      var j :| 0 <= j < i && input[j].key.user == input[i].key.user && input[j].key.sequence <= s;
      assert input[j] in input && input[i] in input;
      InOrder(input, j, i);
      if input[j].key.sequence == input[i].key.sequence {
        SameSequenceSameEntry(st, input[j], input[i]);
      }
    }
    if exists y :: y in input && y.key.user == input[i].key.user && input[i].key.sequence < y.key.sequence <= s {
      var y :| y in input && y.key.user == input[i].key.user && input[i].key.sequence < y.key.sequence <= s;
      var j :| 0 <= j < |input| && input[j] == y;
      InOrder(input, j, i);
    }
  }

  /** Whether a merge keeps the invariant can be read off the store and the pick: exactly when
      it neither puts a kept version below an older one, nor drops a marker that readers need. */
  lemma {:induction false} MergeKeepsInvIff(st: Store, st': Store, c: Pick)
    requires st.Inv() && Compacted(st, st', c)
    ensures st'.Inv() <==> MergeIsSafe(st, c)
  {
    hide Store.FilesOk, Store.MemOk, Settled, LeftEntry, PreservesReads, NumbersFresh, SurvivesMerge, Obsolete,
         ValidPick, FilesReplaced;
    var input, outputs :| WhatIsKept(st, c, input, outputs) && ReplaceInputs(st, st', c, input, outputs);
    ReplaceKeepsInvIff(st, st', c, input, outputs);
    forall e ensures e in Flatten(outputs) <==> SurvivesMerge(st, c, e) {
      KeptIsWhatSurvives(st, c, input, outputs, e);
    }
    forall e | Settled(st, e) && InputEntry(c, e)
      ensures e !in Flatten(outputs) <==> Obsolete(e, st.SmallestSnapshot(), st.version, c.level)
    {
      SettledSurvivesUnlessObsolete(st, c, e);
    }
  }

  lemma {:induction false} SettledSurvivesUnlessObsolete(st: Store, c: Pick, e: Entry)
    requires st.HistoryOk() && ValidPick(st.version, c) && InputEntry(c, e) && Settled(st, e)
    ensures SurvivesMerge(st, c, e) <==> !Obsolete(e, st.SmallestSnapshot(), st.version, c.level)
  {
    forall y | InputEntry(c, y) && y.key.user == e.key.user && y.key.sequence <= st.SmallestSnapshot()
      ensures y.key.sequence <= e.key.sequence
    {
      InputIsStored(st, c, y);
      assert Candidate(y, e.key.user, st.SmallestSnapshot());
    }
  }

  /** A move keeps the invariant exactly when what stays in the level is younger. */
  lemma {:induction false} MoveKeepsInvIff(st: Store, st': Store, c: Pick)
    requires st.Inv() && Moved(st, st', c)
    ensures st'.Inv() <==> MoveIsSafe(st, c)
  {
    hide Store.Inv, PreservesReads, NumbersFresh, Settled, LeftEntry, FilesReplaced;
    var f := c.inputs[0];
    assert c.inputs == [f] && Flatten(c.inputs) == Flatten([f][..0]) + f.entries == f.entries;
    ReplaceKeepsInvIff(st, st', c, f.entries, c.inputs);
  }

  /** In particular a compaction is safe when no user key is both in an input and in a file
      that stays in its level, unless the latter has younger versions only. */
  lemma {:induction false} LeftBehindYoungerIsSafe(st: Store, c: Pick)
    requires st.FilesOk() && ValidPick(st.version, c)
    requires LeftBehindYounger(st.version.levels[c.level], c.inputs)
    requires LeftBehindYounger(st.version.levels[c.level + 1], c.parentInputs)
    ensures MergeIsSafe(st, c) && MoveIsSafe(st, c)
  {
    hide Store.FilesOk, KeptGoesBelowOlder, DroppedMarkerHidesOlder;
    NoKeptBelowOlder(st, c);
    NoMarkerHidesOlder(st, c);
  }

  lemma {:induction false} NoKeptBelowOlder(st: Store, c: Pick)
    requires st.FilesOk() && ValidPick(st.version, c)
    requires LeftBehindYounger(st.version.levels[c.level], c.inputs)
    requires LeftBehindYounger(st.version.levels[c.level + 1], c.parentInputs)
    ensures !KeptGoesBelowOlder(st, c)
  {
    hide Obsolete, LeftBehindYounger, Version.Valid;
    if KeptGoesBelowOlder(st, c) {
      var f, x, e :|
        f in st.version.levels[c.level] && f !in c.inputs && x in f.entries && SurvivesMerge(st, c, e)
        && x.key.user == e.key.user && x.key.sequence <= e.key.sequence;
      YoungerLeft(st, c, f, x, e);
    }
  }

  lemma {:induction false} NoMarkerHidesOlder(st: Store, c: Pick)
    requires st.FilesOk() && ValidPick(st.version, c)
    requires LeftBehindYounger(st.version.levels[c.level], c.inputs)
    requires LeftBehindYounger(st.version.levels[c.level + 1], c.parentInputs)
    ensures !DroppedMarkerHidesOlder(st, c)
  {
    hide Obsolete, LeftBehindYounger, Settled, Version.Valid;
    if DroppedMarkerHidesOlder(st, c) {
      var e, x :|
        InputEntry(c, e) && Obsolete(e, st.SmallestSnapshot(), st.version, c.level) && Settled(st, e)
        && LeftEntry(st.version, c, x) && x.key.user == e.key.user && x.key.sequence <= e.key.sequence;
      var f :| StaysBehind(st.version, c, f) && x in f.entries;
      YoungerLeft(st, c, f, x, e);
    }
  }

  lemma {:induction false} YoungerLeft(st: Store, c: Pick, f: FileMeta, x: Entry, e: Entry)
    requires st.FilesOk() && ValidPick(st.version, c)
    requires LeftBehindYounger(st.version.levels[c.level], c.inputs)
    requires LeftBehindYounger(st.version.levels[c.level + 1], c.parentInputs)
    requires StaysBehind(st.version, c, f) && x in f.entries && InputEntry(c, e) && x.key.user == e.key.user
    ensures x.key.sequence > e.key.sequence
  {
    hide ValidPick, LeftBehindYounger, StaysBehind, Version.Valid;
    var g :| IsInput(c, g) && e in g.entries;
    LeftBehindNewer(st, c, g, f);
  }

  lemma {:induction false} LeftBehindNewer(st: Store, c: Pick, f: FileMeta, g: FileMeta)
    requires st.version.Valid() && st.version.LayersOrdered() && ValidPick(st.version, c)
    requires LeftBehindYounger(st.version.levels[c.level], c.inputs)
    requires LeftBehindYounger(st.version.levels[c.level + 1], c.parentInputs)
    requires IsInput(c, f) && StaysBehind(st.version, c, g)
    ensures Newer(g.entries, f.entries)
  {
    hide Version.Valid, Overlaps, Before;
    var v := st.version;
    assert LevelNewer(v.levels[c.level], v.levels[c.level + 1]);
    if f in c.inputs && g in v.levels[c.level + 1] && g !in c.parentInputs {
      FromInputsNotInLeftParent(st, c, f, g);
    }
  }
}

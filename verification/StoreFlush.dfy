/** Flushing the immutable memtable to a new file, at the level chosen for it. */
module StoreFlushes {
  import opened Wrappers
  import opened InternalKeys
  import opened Versions
  import opened VersionBuilders
  import opened Stores
  import opened StoreSteps

  /** Files whose key ranges do not meet, put in order of smallest key, are disjoint and sorted. */
  ghost predicate Separate(f: FileMeta, g: FileMeta) {
    Before(f.largest, g.smallest) || Before(g.largest, f.smallest)
  }

  lemma {:induction false} SeparateFilesDisjoint(files: Files)
    requires AllValid(files) && BySmallest(files)
    requires forall f, g :: f in files && g in files && f != g ==> Separate(f, g)
    ensures DisjointSorted(files)
  {
    forall i, j | 0 <= i < j < |files| ensures Before(files[i].largest, files[j].smallest) {
      var f, g := files[i], files[j];
      assert LessFile(f, g) && f in files && g in files;
      FileBounds(f, f.entries[0]);
      FileBounds(g, g.entries[0]);
    }
  }

  lemma {:induction false} DisjointFilesSeparate(files: Files, f: FileMeta, g: FileMeta)
    requires DisjointSorted(files) && f in files && g in files && f != g
    ensures Separate(f, g)
  {
    var i :| 0 <= i < |files| && files[i] == f;
    var j :| 0 <= j < |files| && files[j] == g;
    assert i < j || j < i;
  }

  /** The version after adding file f to one level. */
  ghost predicate FileAdded(v: Version, v': Version, level: nat, f: FileMeta) {
    && |v.levels| == |v'.levels| == NUM_LEVELS && level < NUM_LEVELS
    && forall l :: 0 <= l < NUM_LEVELS ==>
         BySmallest(v'.levels[l]) &&
         forall g :: g in v'.levels[l] <==> g in v.levels[l] || (l == level && g == f)
  }

  /** The flush step: the immutable memtable becomes file f at `level`, below nothing it overlaps. */
  ghost predicate FlushTo(st: Store, st': Store, level: nat, f: FileMeta) {
    && st.imm == Some(f.entries) && f.Valid()
    && f.number == st.nextFileNumber && st'.nextFileNumber == st.nextFileNumber + 1
    && FileAdded(st.version, st'.version, level, f)
    && (level > 0 ==> forall l :: 0 <= l <= level ==> NoOverlap(st.version.levels[l], f.smallest.user, f.largest.user))
    && st' == st.(imm := None, version := st'.version, nextFileNumber := st'.nextFileNumber)
  }

  lemma {:induction false} NoOverlapNoCommonKey(f: FileMeta, g: FileMeta)
    requires f.Valid() && g.Valid() && !Overlaps(g, Some(f.smallest.user), Some(f.largest.user))
    ensures NoCommonKey(f.entries, g.entries) && NoCommonKey(g.entries, f.entries) && Separate(f, g)
  {
    forall a, b | a in f.entries && b in g.entries ensures a.key.user != b.key.user {
      FileBounds(f, a);
      FileBounds(g, b);
    }
    FileBounds(f, f.entries[0]);
    FileBounds(g, g.entries[0]);
  }

  /** Where a file may go: no level above has a key of it, and no file of its own level meets its
      range. */
  ghost predicate Sinks(v: Version, level: nat, f: FileMeta)
    requires |v.levels| == NUM_LEVELS && level < NUM_LEVELS
  {
    && (forall l, g :: 0 <= l < level && g in v.levels[l] ==> NoCommonKey(g.entries, f.entries))
    && (level > 0 ==> forall g :: g in v.levels[level] ==> Separate(f, g))
  }

  /** A flush as far as the invariant needs it. */
  ghost predicate FlushedAs(st: Store, st': Store, level: nat, f: FileMeta) {
    && st.imm == Some(f.entries) && f.Valid()
    && f.number == st.nextFileNumber && st'.nextFileNumber == st.nextFileNumber + 1
    && FileAdded(st.version, st'.version, level, f) && Sinks(st.version, level, f)
    && st' == st.(imm := None, version := st'.version, nextFileNumber := st'.nextFileNumber)
  }

  lemma {:induction false} FlushToSinks(st: Store, st': Store, level: nat, f: FileMeta)
    requires st.version.Valid() && FlushTo(st, st', level, f)
    ensures FlushedAs(st, st', level, f)
  {
    var v := st.version;
    forall l, g | 0 <= l <= level && level > 0 && g in v.levels[l]
      ensures NoCommonKey(g.entries, f.entries) && Separate(f, g)
    {
      assert AllValid(v.levels[l]);
      NoOverlapNoCommonKey(f, g);
    }
  }

  lemma {:induction false} FlushKeepsLevels(st: Store, st': Store, level: nat, f: FileMeta)
    requires st.FilesOk() && FlushedAs(st, st', level, f)
    ensures st'.version.Valid()
    ensures forall l, g :: 0 <= l < NUM_LEVELS && g in st'.version.levels[l] ==> g.number < st'.nextFileNumber
    ensures UniqueNumbers(st'.version)
  {
    FlushKeepsNumbers(st, st', level, f);
    FlushKeepsDisjoint(st, st', level, f);
    var v' := st'.version;
    forall l | 0 <= l < NUM_LEVELS ensures AllValid(v'.levels[l]) {
      forall i | 0 <= i < |v'.levels[l]| ensures v'.levels[l][i].Valid() {
        assert v'.levels[l][i] in v'.levels[l];
      }
    }
  }

  lemma {:induction false} FlushKeepsNumbers(st: Store, st': Store, level: nat, f: FileMeta)
    requires st.FilesOk() && FlushedAs(st, st', level, f)
    ensures forall l, g :: 0 <= l < NUM_LEVELS && g in st'.version.levels[l] ==> g.number < st'.nextFileNumber
    ensures UniqueNumbers(st'.version)
  {
    hide FileMeta.Valid, AllValid, DisjointSorted, NoOverlap;
  }

  lemma {:induction false} FlushKeepsDisjoint(st: Store, st': Store, level: nat, f: FileMeta)
    requires st.FilesOk() && FlushedAs(st, st', level, f)
    ensures forall l :: 1 <= l < NUM_LEVELS ==> DisjointSorted(st'.version.levels[l])
  {
    var v, v' := st.version, st'.version;
    forall l | 1 <= l < NUM_LEVELS ensures DisjointSorted(v'.levels[l]) {
      forall g, h | g in v'.levels[l] && h in v'.levels[l] && g != h ensures Separate(g, h) {
        if g in v.levels[l] && h in v.levels[l] {
          DisjointFilesSeparate(v.levels[l], g, h);
        } else {
          assert Separate(f, if g in v.levels[l] then g else h);
        }
      }
      SeparateFilesDisjoint(v'.levels[l]);
    }
  }

  lemma {:induction false} FlushKeepsOrder(st: Store, st': Store, level: nat, f: FileMeta)
    requires st.FilesOk() && st.NewerThanFiles(st.Imm()) && FlushedAs(st, st', level, f)
    ensures st'.version.LayersOrdered()
  {
    var v, v' := st.version, st'.version;
    forall l, m | 0 <= l < m < NUM_LEVELS ensures LevelNewer(v'.levels[l], v'.levels[m]) {
      assert LevelNewer(v.levels[l], v.levels[m]);
      forall g, h | g in v'.levels[l] && h in v'.levels[m] ensures Newer(g.entries, h.entries) {
        if g in v.levels[l] && h !in v.levels[m] {
          assert NoCommonKey(g.entries, f.entries);
        }
      }
    }
    forall g, h | g in v'.levels[0] && h in v'.levels[0] && g != h
      ensures g.number != h.number && (g.number > h.number ==> Newer(g.entries, h.entries))
    {
    }
  }

  lemma {:induction false} FlushKeepsContents(st: Store, st': Store, level: nat, f: FileMeta)
    requires FlushedAs(st, st', level, f)
    ensures forall e :: st.Holds(e) <==> st'.Holds(e)
  {
    var v, v' := st.version, st'.version;
    forall e ensures st.Holds(e) <==> st'.Holds(e) {
      assert f in v'.levels[level];
      if v.Holds(e) {
        var l, g :| 0 <= l < |v.levels| && g in v.levels[l] && e in g.entries;
        assert g in v'.levels[l];
      }
    }
  }

  lemma {:induction false} FlushedKeepsInv(st: Store, st': Store, level: nat, f: FileMeta)
    requires st.Inv() && FlushedAs(st, st', level, f)
    ensures st'.Inv()
  {
    FlushKeepsLevels(st, st', level, f);
    FlushKeepsOrder(st, st', level, f);
    FlushKeepsContents(st, st', level, f);
    assert forall e :: st.Holds(e) ==> st'.Genuine(e);
    SameContentsKeepCovered(st, st');
  }

  lemma {:induction false} FlushKeepsInv(st: Store, st': Store, level: nat, f: FileMeta)
    requires st.Inv() && FlushTo(st, st', level, f)
    ensures st'.Inv()
  {
    FlushToSinks(st, st', level, f);
    FlushedKeepsInv(st, st', level, f);
  }

  /** An empty immutable memtable produces no file. */
  function DropEmptyImm(st: Store): Store {
    st.(imm := None, nextFileNumber := st.nextFileNumber + 1)
  }

  lemma {:induction false} DropEmptyImmKeepsInv(st: Store)
    requires st.Inv() && st.imm == Some([])
    ensures DropEmptyImm(st).Inv()
  {
    assert forall e :: DropEmptyImm(st).Holds(e) <==> st.Holds(e);
    assert forall e :: st.Holds(e) ==> DropEmptyImm(st).Genuine(e);
    SameContentsKeepCovered(st, DropEmptyImm(st));
  }
}

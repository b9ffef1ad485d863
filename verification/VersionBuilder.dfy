/** VersionSet::Builder: applies a whole sequence of edits to a version without
    building the versions in between (db/version_set.cc). */
module VersionBuilders {
  import opened InternalKeys
  import opened Versions

  /** The part of a version edit that changes the file set: (level, number) pairs to
      delete, then (level, file) pairs to add. */
  datatype FileEdit = FileEdit(deletedFiles: seq<(nat, nat)>, newFiles: seq<(nat, FileMeta)>) {
    predicate Valid() {
      && (forall d :: d in deletedFiles ==> d.0 < NUM_LEVELS)
      && (forall a :: a in newFiles ==> a.0 < NUM_LEVELS)
    }
  }

  /** BySmallestKey: smallest key first, ties broken by file number. */
  predicate LessFile(f: FileMeta, g: FileMeta) {
    Before(f.smallest, g.smallest) || (f.smallest == g.smallest && f.number < g.number)
  }

  ghost predicate BySmallest(files: Files) {
    forall i, j :: 0 <= i < j < |files| ==> LessFile(files[i], files[j])
  }

  // ---------- the reference: edits applied one at a time to a set of files ----------

  ghost function Deleted(files: set<FileMeta>, level: nat, deletions: seq<(nat, nat)>): set<FileMeta> {
    set f | f in files && (level, f.number) !in deletions
  }

  ghost function Added(files: set<FileMeta>, level: nat, additions: seq<(nat, FileMeta)>): set<FileMeta> {
    if additions == [] then files else
    var (l, f) := additions[|additions| - 1];
    Added(files, level, additions[..|additions| - 1]) + if l == level then {f} else {}
  }

  /** One level of the file set after the edits. */
  ghost function AfterEdits(files: set<FileMeta>, level: nat, edits: seq<FileEdit>): set<FileMeta> {
    if edits == [] then files else
    var e := edits[|edits| - 1];
    Added(Deleted(AfterEdits(files, level, edits[..|edits| - 1]), level, e.deletedFiles), level, e.newFiles)
  }

  /** The numbers of the files that the edits add at a level. */
  ghost function NumbersAdded(edits: seq<FileEdit>, level: nat): set<nat> {
    set e, a | e in edits && a in e.newFiles && a.0 == level :: a.1.number
  }

  ghost function FileSet(files: Files): set<FileMeta> {
    set f | f in files
  }

  /** One level of the builder's state: numbers deleted, files added in BySmallestKey order. */
  datatype LevelState = LevelState(deleted: set<nat>, added: Files) {
    ghost predicate Valid(base: Files) {
      BySmallest(added) && forall f, g :: f in base && g in added ==> f.number != g.number
    }

    /** What SaveTo will keep of this level. */
    ghost function Survivors(base: Files): set<FileMeta> {
      set f | f in FileSet(base) + FileSet(added) && f.number !in deleted
    }

    /** The number belongs to no file this level has seen. */
    ghost predicate Fresh(base: Files, number: nat) {
      forall f :: f in base || f in added ==> f.number != number
    }
  }

  /** Insertion into the std::set ordered by BySmallestKey. */
  function InsertFile(files: Files, f: FileMeta): (r: Files)
    ensures forall g :: g in r ==> g == f || g in files
    ensures forall g :: g in files ==> g in r
    ensures (forall g :: g in files ==> g.number != f.number) ==> f in r
  {
    if files == [] then [f]
    else if LessFile(f, files[0]) then [f] + files
    else if LessFile(files[0], f) then [files[0]] + InsertFile(files[1..], f)
    else files
  }

  lemma {:induction false} InsertFileSorted(files: Files, f: FileMeta)
    requires BySmallest(files)
    ensures BySmallest(InsertFile(files, f))
  {
    if files != [] {
      LessFileTransitive();
      if !LessFile(f, files[0]) && LessFile(files[0], f) {
        InsertFileSorted(files[1..], f);
        var rest := InsertFile(files[1..], f);
        assert forall i :: 0 <= i < |rest| ==> rest[i] in rest;
      }
    }
  }

  lemma {:induction false} LessFileTransitive()
    ensures forall f, g, h :: LessFile(f, g) && LessFile(g, h) ==> LessFile(f, h)
    ensures forall f, g :: LessFile(f, g) ==> !LessFile(g, f)
    ensures forall f, g :: LessFile(f, g) || LessFile(g, f) || (f.smallest == g.smallest && f.number == g.number)
  {
  }

  class Builder {
    const base: Version
    const levels: array<LevelState>
    ghost var applied: seq<FileEdit>

    constructor (base: Version)
      requires base.Valid() && forall l :: 0 <= l < NUM_LEVELS ==> BySmallest(base.levels[l])
      ensures Valid() && fresh(levels) && this.base == base && applied == []
      ensures forall l :: 0 <= l < NUM_LEVELS ==> levels[l] == LevelState({}, [])
    {
      this.base := base;
      levels := new LevelState[NUM_LEVELS](_ => LevelState({}, []));
      applied := [];
      new;
      forall l | 0 <= l < NUM_LEVELS
        ensures levels[l].Survivors(base.levels[l]) == AfterEdits(FileSet(base.levels[l]), l, applied)
      {
      }
    }

    ghost predicate Valid()
      reads this, levels
    {
      && base.Valid() && levels.Length == NUM_LEVELS
      && forall l :: 0 <= l < NUM_LEVELS ==>
           && BySmallest(base.levels[l]) && levels[l].Valid(base.levels[l])
           && levels[l].Survivors(base.levels[l]) == AfterEdits(FileSet(base.levels[l]), l, applied)
           && OnlyAdded(levels[l].added, l, applied)
    }

    /** The level's added files come from the edits. */
    static ghost predicate OnlyAdded(added: Files, level: nat, edits: seq<FileEdit>) {
      forall f <- added :: f.number in NumbersAdded(edits, level)
    }

    static lemma {:induction false} OnlyAddedNext(before: Files, after: Files, level: nat, edits: seq<FileEdit>,
                                                  edit: FileEdit)
      requires OnlyAdded(before, level, edits) && forall f <- after :: f in before || (level, f) in edit.newFiles
      ensures OnlyAdded(after, level, edits + [edit])
    {
      forall f <- after ensures f.number in NumbersAdded(edits + [edit], level) {
        if f in before {
          assert f.number in NumbersAdded(edits, level);
        } else {
          assert edit in edits + [edit];
        }
      }
    }

    /** The edit adds only numbers this builder has not seen at that level, each once. */
    ghost predicate FreshAdditions(additions: seq<(nat, FileMeta)>)
      requires Valid() && forall a :: a in additions ==> a.0 < NUM_LEVELS
      reads this, levels
    {
      && (forall i :: 0 <= i < |additions| ==>
            levels[additions[i].0].Fresh(base.levels[additions[i].0], additions[i].1.number))
      && (forall i, j :: 0 <= i < j < |additions| && additions[i].0 == additions[j].0 ==>
            additions[i].1.number != additions[j].1.number)
    }

    /** Record one edit on top of those already applied. */
    method Apply(edit: FileEdit)
      requires Valid() && edit.Valid() && FreshAdditions(edit.newFiles)
      modifies this`applied, levels
      ensures Valid() && applied == old(applied) + [edit]
    {
      DeleteFiles(edit.deletedFiles);
      AddFiles(edit.newFiles);
      forall l | 0 <= l < NUM_LEVELS ensures OnlyAdded(levels[l].added, l, applied + [edit]) {
        OnlyAddedNext(old(levels[l].added), levels[l].added, l, applied, edit);
      }
      applied := applied + [edit];
      assert applied[..|applied| - 1] == old(applied);
    }

    /** The version after every edit applied so far. */
    method SaveTo() returns (v: Version)
      requires Valid()
      ensures |v.levels| == NUM_LEVELS
      ensures forall l :: 0 <= l < NUM_LEVELS ==>
        BySmallest(v.levels[l]) && FileSet(v.levels[l]) == AfterEdits(FileSet(base.levels[l]), l, applied)
    {
      var saved: seq<Files> := [];
      for l := 0 to NUM_LEVELS
        invariant |saved| == l
        invariant forall m :: 0 <= m < l ==>
          BySmallest(saved[m]) && FileSet(saved[m]) == AfterEdits(FileSet(base.levels[m]), m, applied)
      {
        var files := SaveLevel(base.levels[l], levels[l]);
        saved := saved + [files];
      }
      v := Version(saved);
    }

    method DeleteFiles(deletions: seq<(nat, nat)>)
      requires Valid() && forall d :: d in deletions ==> d.0 < NUM_LEVELS
      modifies levels
      ensures forall l :: 0 <= l < NUM_LEVELS ==> levels[l].added == old(levels[l].added)
      ensures forall l :: 0 <= l < NUM_LEVELS ==>
        levels[l].Survivors(base.levels[l]) == Deleted(old(levels[l].Survivors(base.levels[l])), l, deletions)
    {
      for i := 0 to |deletions|
        invariant forall l :: 0 <= l < NUM_LEVELS ==> levels[l].added == old(levels[l].added)
        invariant forall l :: 0 <= l < NUM_LEVELS ==>
          levels[l].deleted == old(levels[l].deleted) + NumbersAt(deletions[..i], l)
      {
        var (level, number) := deletions[i];
        forall l ensures NumbersAt(deletions[..i + 1], l) ==
                         NumbersAt(deletions[..i], l) + if l == level then {number} else {}
        {
          NumbersAtNext(deletions, i, l);
        }
        levels[level] := levels[level].(deleted := levels[level].deleted + {number});
      }
      assert deletions[..|deletions|] == deletions;
      forall l | 0 <= l < NUM_LEVELS
        ensures levels[l].Survivors(base.levels[l]) == Deleted(old(levels[l].Survivors(base.levels[l])), l, deletions)
      {
        DeletedMeans(old(levels[l]), base.levels[l], l, deletions);
      }
    }

    method AddFiles(additions: seq<(nat, FileMeta)>)
      requires base.Valid() && levels.Length == NUM_LEVELS
      requires forall a :: a in additions ==> a.0 < NUM_LEVELS
      requires forall l :: 0 <= l < NUM_LEVELS ==> levels[l].Valid(base.levels[l])
      requires forall i :: 0 <= i < |additions| ==>
        levels[additions[i].0].Fresh(base.levels[additions[i].0], additions[i].1.number)
      requires forall i, j :: 0 <= i < j < |additions| && additions[i].0 == additions[j].0 ==>
        additions[i].1.number != additions[j].1.number
      modifies levels
      ensures forall l :: 0 <= l < NUM_LEVELS ==> levels[l].Valid(base.levels[l])
      ensures forall l :: 0 <= l < NUM_LEVELS ==>
        levels[l].Survivors(base.levels[l]) == Added(old(levels[l].Survivors(base.levels[l])), l, additions)
      ensures forall l, f :: 0 <= l < NUM_LEVELS && f in levels[l].added ==>
              f in old(levels[l].added) || (l, f) in additions
    {
      hide LevelState.Valid, LevelState.Survivors, LevelState.Fresh, InsertFile;
      for i := 0 to |additions|
        invariant forall l :: 0 <= l < NUM_LEVELS ==> levels[l].Valid(base.levels[l])
        invariant forall l :: 0 <= l < NUM_LEVELS ==>
          levels[l].Survivors(base.levels[l]) == Added(old(levels[l].Survivors(base.levels[l])), l, additions[..i])
        invariant forall l, f :: 0 <= l < NUM_LEVELS && f in levels[l].added ==>
                  f in old(levels[l].added) || (l, f) in additions
        invariant forall j :: i <= j < |additions| ==>
          levels[additions[j].0].Fresh(base.levels[additions[j].0], additions[j].1.number)
      {
        var (level, f) := additions[i];
        assert additions[..i + 1][..i] == additions[..i];
        AddFresh(levels[level], base.levels[level], f);
        forall n | n != f.number && levels[level].Fresh(base.levels[level], n)
          ensures LevelState(levels[level].deleted - {f.number},
                             InsertFile(levels[level].added, f)).Fresh(base.levels[level], n)
        {
          StaysFresh(levels[level], base.levels[level], f, n);
        }
        levels[level] := LevelState(levels[level].deleted - {f.number}, InsertFile(levels[level].added, f));
      }
      assert additions[..|additions|] == additions;
    }
  }

  ghost function NumbersAt(deletions: seq<(nat, nat)>, level: nat): set<nat> {
    set d | d in deletions && d.0 == level :: d.1
  }

  lemma {:induction false} NumbersAtNext(deletions: seq<(nat, nat)>, i: nat, level: nat)
    requires i < |deletions|
    ensures NumbersAt(deletions[..i + 1], level) ==
            NumbersAt(deletions[..i], level) + if level == deletions[i].0 then {deletions[i].1} else {}
  {
    assert deletions[..i + 1] == deletions[..i] + [deletions[i]];
    forall n | n in NumbersAt(deletions[..i], level) ensures n in NumbersAt(deletions[..i + 1], level) {
      assert (level, n) in deletions[..i + 1];
    }
    assert deletions[i] in deletions[..i + 1];
  }

  lemma {:induction false} DeletedMeans(st: LevelState, base: Files, level: nat, deletions: seq<(nat, nat)>)
    ensures st.(deleted := st.deleted + NumbersAt(deletions, level)).Survivors(base) ==
            Deleted(st.Survivors(base), level, deletions)
  {
    forall n: nat ensures n in NumbersAt(deletions, level) <==> (level, n) in deletions {
      if (level, n) in deletions {
        var d := (level, n);
        assert d in deletions && d.0 == level && d.1 == n;
      }
    }
  }

  /** Adding a fresh file makes it survive and brings nothing back. */
  lemma {:induction false} AddFresh(st: LevelState, base: Files, f: FileMeta)
    requires st.Valid(base) && st.Fresh(base, f.number)
    ensures var r := LevelState(st.deleted - {f.number}, InsertFile(st.added, f));
            r.Valid(base) && r.Survivors(base) == st.Survivors(base) + {f}
  {
    InsertFileSorted(st.added, f);
  }

  lemma {:induction false} StaysFresh(st: LevelState, base: Files, f: FileMeta, n: nat)
    requires st.Fresh(base, n) && f.number != n
    ensures LevelState(st.deleted - {f.number}, InsertFile(st.added, f)).Fresh(base, n)
  {
  }

  // ---------- SaveTo ----------

  /** files holds the undeleted ones among the first b base files and the first a added files. */
  ghost predicate Merged(files: Files, base: Files, b: nat, st: LevelState, a: nat)
    requires b <= |base| && a <= |st.added|
  {
    && BySmallest(files)
    && forall f :: f in files <==> (f in base[..b] || f in st.added[..a]) && f.number !in st.deleted
  }

  function MaybeAddFile(files: Files, f: FileMeta, deleted: set<nat>): Files {
    if f.number in deleted then files else files + [f]
  }

  lemma {:induction false} MergeBase(files: Files, base: Files, b: nat, st: LevelState, a: nat)
    requires BySmallest(base) && st.Valid(base) && b < |base| && a <= |st.added| && Merged(files, base, b, st, a)
    requires a > 0 ==> LessFile(st.added[a - 1], base[b])
    ensures Merged(MaybeAddFile(files, base[b], st.deleted), base, b + 1, st, a)
  {
    assert base[..b + 1] == base[..b] + [base[b]];
    forall g | g in files ensures LessFile(g, base[b]) {
      if g !in base[..b] {
        var i :| 0 <= i < a && st.added[i] == g;
        assert i < a - 1 ==> LessFile(g, st.added[a - 1]);
      }
    }
  }

  lemma {:induction false} MergeAdded(files: Files, base: Files, b: nat, st: LevelState, a: nat)
    requires BySmallest(base) && st.Valid(base) && b <= |base| && a < |st.added| && Merged(files, base, b, st, a)
    requires b > 0 ==> LessFile(base[b - 1], st.added[a])
    ensures Merged(MaybeAddFile(files, st.added[a], st.deleted), base, b, st, a + 1)
  {
    assert st.added[..a + 1] == st.added[..a] + [st.added[a]];
    forall g | g in files ensures LessFile(g, st.added[a]) {
      if g !in st.added[..a] {
        var i :| 0 <= i < b && base[i] == g;
        assert i < b - 1 ==> LessFile(g, base[b - 1]);
      }
    }
  }

  /** Add the base files that come before the a-th added file. */
  method AddSmallerBase(files: Files, base: Files, b: nat, st: LevelState, a: nat) returns (r: Files, next: nat)
    requires BySmallest(base) && st.Valid(base) && b <= |base| && a < |st.added| && Merged(files, base, b, st, a)
    requires b > 0 ==> LessFile(base[b - 1], st.added[a])
    requires a > 0 && b < |base| ==> LessFile(st.added[a - 1], base[b])
    ensures next <= |base| && Merged(r, base, next, st, a)
    ensures next > 0 ==> LessFile(base[next - 1], st.added[a])
    ensures next < |base| ==> LessFile(st.added[a], base[next])
  {
    hide Merged, MaybeAddFile, BySmallest, LessFile, LevelState.Valid;
    r, next := files, b;
    while next < |base| && !LessFile(st.added[a], base[next])
      invariant next <= |base| && Merged(r, base, next, st, a)
      invariant next > 0 ==> LessFile(base[next - 1], st.added[a])
      invariant a > 0 && next < |base| ==> LessFile(st.added[a - 1], base[next])
    {
      BaseComesFirst(base, next, st, a);
      MergeBase(r, base, next, st, a);
      r := MaybeAddFile(r, base[next], st.deleted);
      next := next + 1;
    }
  }

  lemma {:induction false} BaseComesFirst(base: Files, b: nat, st: LevelState, a: nat)
    requires BySmallest(base) && st.Valid(base) && b < |base| && a < |st.added| && !LessFile(st.added[a], base[b])
    ensures LessFile(base[b], st.added[a])
    ensures a > 0 && b + 1 < |base| && LessFile(st.added[a - 1], base[b]) ==> LessFile(st.added[a - 1], base[b + 1])
  {
    assert base[b] in base && st.added[a] in st.added;
    assert b + 1 < |base| ==> LessFile(base[b], base[b + 1]);
  }

  lemma {:induction false} AddedComesFirst(base: Files, b: nat, st: LevelState, a: nat)
    requires st.Valid(base) && b <= |base| && a < |st.added|
    ensures b > 0 && a + 1 < |st.added| && LessFile(base[b - 1], st.added[a]) ==> LessFile(base[b - 1], st.added[a + 1])
  {
  }

  /** Merge one level: base files and added files in order, without the deleted ones. */
  method SaveLevel(base: Files, st: LevelState) returns (files: Files)
    requires BySmallest(base) && st.Valid(base)
    ensures BySmallest(files) && FileSet(files) == st.Survivors(base)
  {
    hide Merged, MaybeAddFile, BySmallest, LessFile, LevelState.Valid;
    files := [];
    NothingMerged(base, st);
    var b: nat := 0;
    for a := 0 to |st.added|
      invariant b <= |base| && Merged(files, base, b, st, a)
      invariant a < |st.added| && b > 0 ==> LessFile(base[b - 1], st.added[a])
      invariant a > 0 && b < |base| ==> LessFile(st.added[a - 1], base[b])
    {
      files, b := AddSmallerBase(files, base, b, st, a);
      MergeAdded(files, base, b, st, a);
      AddedComesFirst(base, b, st, a);
      files := MaybeAddFile(files, st.added[a], st.deleted);
    }
    while b < |base|
      invariant b <= |base| && Merged(files, base, b, st, |st.added|)
      invariant |st.added| > 0 && b < |base| ==> LessFile(st.added[|st.added| - 1], base[b])
    {
      MergeBase(files, base, b, st, |st.added|);
      BaseStaysFirst(base, b, st);
      files := MaybeAddFile(files, base[b], st.deleted);
      b := b + 1;
    }
    MergedAll(files, base, st);
  }

  lemma {:induction false} BaseStaysFirst(base: Files, b: nat, st: LevelState)
    requires BySmallest(base) && b < |base|
    ensures |st.added| > 0 && b + 1 < |base| && LessFile(st.added[|st.added| - 1], base[b]) ==>
              LessFile(st.added[|st.added| - 1], base[b + 1])
  {
    assert b + 1 < |base| ==> LessFile(base[b], base[b + 1]);
  }

  lemma {:induction false} NothingMerged(base: Files, st: LevelState)
    ensures Merged([], base, 0, st, 0)
  {
  }

  lemma {:induction false} MergedAll(files: Files, base: Files, st: LevelState)
    requires Merged(files, base, |base|, st, |st.added|)
    ensures BySmallest(files)
    ensures FileSet(files) == st.Survivors(base)
  {
    assert st.added[..|st.added|] == st.added && base[..|base|] == base;
  }

  /** No file the edit adds has the number of a file already at its level. */
  ghost predicate FreshFor(base: Version, edit: FileEdit) {
    && |base.levels| == NUM_LEVELS && edit.Valid()
    && (forall a, f :: a in edit.newFiles && f in base.levels[a.0] ==> a.1.number != f.number)
    && (forall i, j :: 0 <= i < j < |edit.newFiles| && edit.newFiles[i].0 == edit.newFiles[j].0 ==>
          edit.newFiles[i].1.number != edit.newFiles[j].1.number)
  }

  /** v has, level by level and in order, the files of base changed by the edit. */
  ghost predicate EditApplied(base: Version, edit: FileEdit, v: Version) {
    && |base.levels| == |v.levels| == NUM_LEVELS
    && forall l :: 0 <= l < NUM_LEVELS ==>
         BySmallest(v.levels[l]) && FileSet(v.levels[l]) == AfterEdits(FileSet(base.levels[l]), l, [edit])
  }

  /** VersionSet::LogAndApply, once the edit has been logged: the version that follows `base`. */
  method LogAndApply(base: Version, edit: FileEdit) returns (v: Version)
    requires base.Valid() && (forall l :: 0 <= l < NUM_LEVELS ==> BySmallest(base.levels[l])) && FreshFor(base, edit)
    ensures EditApplied(base, edit, v)
  {
    var builder := new Builder(base);
    builder.Apply(edit);
    v := builder.SaveTo();
  }
}

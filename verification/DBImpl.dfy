/** The database object: its fields, and the operations that update them (db/db_impl.cc).
    Every operation is one or more steps of the store, so Valid() holds throughout. */
module DBImpls {
  import opened Wrappers
  import opened InternalKeys
  import opened SortedLists
  import opened Versions
  import opened VersionBuilders
  import opened CompactionPickers
  import opened Compactions
  import opened Stores
  import opened StoreSteps
  import opened StoreFlushes
  import opened StoreCompactions

  datatype Op = Put(key: UserKey, value: Bytes) | Delete(key: UserKey) {
    function Kind(): ValueType {
      if Put? then Value else Deletion
    }

    function Payload(): Bytes {
      if Put? then value else []
    }
  }

  /** The history slots of a batch that was logged, or whose log append failed. */
  ghost function Slots(batch: seq<Op>, logged: bool): History {
    seq(|batch|, i requires 0 <= i < |batch| =>
      if logged then Write(batch[i].key, batch[i].Kind(), batch[i].Payload()) else Void)
  }

  lemma {:induction false} SlotsNext(batch: seq<Op>, i: nat, logged: bool)
    requires i < |batch|
    ensures Slots(batch[..i + 1], logged) ==
            Slots(batch[..i], logged) +
            [if logged then Stores.Write(batch[i].key, batch[i].Kind(), batch[i].Payload()) else Void]
  {
  }

  /** The entry records the operation under the sequence number. */
  ghost predicate Records(e: Entry, op: Op, sequence: nat) {
    e.key.user == op.key && e.key.sequence == sequence && e.key.kind == op.Kind() && e.value == op.Payload()
  }

  /** The entry records some operation of a batch that is numbered from `first` on. */
  ghost predicate FromBatch(e: Entry, batch: seq<Op>, first: nat) {
    exists i :: 0 <= i < |batch| && Records(e, batch[i], first + i)
  }

  lemma {:induction false} FromBatchNext(e: Entry, batch: seq<Op>, i: nat, first: nat)
    requires i < |batch|
    ensures FromBatch(e, batch[..i + 1], first) <==> FromBatch(e, batch[..i], first) || Records(e, batch[i], first + i)
  {
    if Records(e, batch[i], first + i) {
      assert batch[..i + 1][i] == batch[i];
    }
    if FromBatch(e, batch[..i], first) {
      var j :| 0 <= j < i && Records(e, batch[..i][j], first + j);
      assert batch[..i + 1][j] == batch[..i][j];
    }
  }

  // ---------- the merged input of a compaction ----------

  function EntryLists(files: Files): seq<seq<Entry>> {
    seq(|files|, i requires 0 <= i < |files| => files[i].entries)
  }

  lemma {:induction false} EntryListsMembers(files: Files)
    ensures forall es, e :: es in EntryLists(files) && e in es ==> exists f :: f in files && e in f.entries
    ensures forall f, e :: f in files && e in f.entries ==> exists es :: es in EntryLists(files) && e in es
  {
    var lists := EntryLists(files);
    forall es, e | es in lists && e in es ensures exists f :: f in files && e in f.entries {
      var i :| 0 <= i < |lists| && lists[i] == es;
      assert files[i] in files;
    }
    forall f, e | f in files && e in f.entries ensures exists es :: es in lists && e in es {
      var i :| 0 <= i < |files| && files[i] == f;
      assert lists[i] in lists;
    }
  }

  lemma {:induction false} InputMembers(st: Store, c: Pick)
    requires st.HistoryOk() && ValidPick(st.version, c)
    ensures var input := Union(EntryLists(c.inputs + c.parentInputs));
            Sorted(input) && forall e :: e in input <==> InputEntry(c, e)
  {
    var all := iset e | st.Holds(e);
    assert KeysIdentify(all) by {
      forall x, y | x in all && y in all && x.key == y.key ensures x == y {
        assert st.Genuine(x) && st.Genuine(y);
      }
    }
    var files := c.inputs + c.parentInputs;
    forall f | f in files ensures IsInput(c, f) && forall e :: e in f.entries ==> e in all {
      InputLevels(st, c, f);
    }
    assert forall f :: IsInput(c, f) ==> f in files;
    EntryListsMembers(files);
    UnionMembers(EntryLists(files), all);
  }

  // ---------- what one edit does to the files ----------

  /** (level, number) pairs for the files. */
  function Deletions(level: nat, files: Files): seq<(nat, nat)> {
    if files == [] then [] else Deletions(level, files[..|files| - 1]) + [(level, files[|files| - 1].number)]
  }

  function Additions(level: nat, files: Files): seq<(nat, FileMeta)> {
    if files == [] then [] else Additions(level, files[..|files| - 1]) + [(level, files[|files| - 1])]
  }

  lemma {:induction false} DeletionsMembers(level: nat, files: Files)
    ensures forall l, n :: (l, n) in Deletions(level, files) <==> l == level && exists f :: f in files && f.number == n
  {
    if files != [] {
      var front, last := files[..|files| - 1], files[|files| - 1];
      DeletionsMembers(level, front);
      assert files == front + [last];
    }
  }

  lemma {:induction false} DeletionsLevel(level: nat, files: Files)
    ensures forall d :: d in Deletions(level, files) ==> d.0 == level
  {
    if files != [] {
      DeletionsLevel(level, files[..|files| - 1]);
    }
  }

  lemma {:induction false} AdditionsIndexed(level: nat, files: Files)
    ensures |Additions(level, files)| == |files|
    ensures forall i :: 0 <= i < |files| ==> Additions(level, files)[i] == (level, files[i])
    ensures forall a :: a in Additions(level, files) ==> a.0 == level && a.1 in files
  {
    if files != [] {
      AdditionsIndexed(level, files[..|files| - 1]);
    }
  }

  lemma {:induction false} AddedFiles(s: set<FileMeta>, l: nat, level: nat, files: Files)
    ensures Added(s, l, Additions(level, files)) == s + if l == level then FileSet(files) else {}
  {
    if files != [] {
      var front, last := files[..|files| - 1], files[|files| - 1];
      AddedFiles(s, l, level, front);
      var adds := Additions(level, files);
      assert adds[..|adds| - 1] == Additions(level, front);
      assert files == front + [last];
    }
  }

  /** One level after a single edit that deletes some files and adds others at one level. */
  lemma {:induction false} AfterOneEdit(s: set<FileMeta>, l: nat, deletions: seq<(nat, nat)>, level: nat, files: Files)
    ensures AfterEdits(s, l, [FileEdit(deletions, Additions(level, files))]) ==
            Deleted(s, l, deletions) + if l == level then FileSet(files) else {}
  {
    var e := FileEdit(deletions, Additions(level, files));
    assert [e][..0] == [];
    assert AfterEdits(s, l, []) == s;
    AddedFiles(Deleted(s, l, deletions), l, level, files);
  }

  lemma {:induction false} FlushedVersion(v: Version, v': Version, level: nat, f: FileMeta)
    requires EditApplied(v, FileEdit([], Additions(level, [f])), v') && level < NUM_LEVELS
    ensures FileAdded(v, v', level, f)
  {
    forall l | 0 <= l < NUM_LEVELS
      ensures forall g :: g in v'.levels[l] <==> g in v.levels[l] || (l == level && g == f)
    {
      AfterOneEdit(FileSet(v.levels[l]), l, [], level, [f]);
      forall g ensures g in v'.levels[l] <==> g in v.levels[l] || (l == level && g == f) {
        assert g in v'.levels[l] <==> g in FileSet(v'.levels[l]);
      }
    }
  }

  function CompactionEdit(c: Pick, outputs: Files): FileEdit {
    FileEdit(Deletions(c.level, c.inputs) + Deletions(c.level + 1, c.parentInputs), Additions(c.level + 1, outputs))
  }

  lemma {:induction false} CompactedVersion(v: Version, v': Version, c: Pick, outputs: Files)
    requires EditApplied(v, CompactionEdit(c, outputs), v') && UniqueNumbers(v) && ValidPick(v, c)
    ensures FilesReplaced(v, v', c, outputs)
  {
    forall l | 0 <= l < NUM_LEVELS
      ensures forall g :: g in v'.levels[l] <==>
        if l == c.level then g in v.levels[l] && g !in c.inputs
        else if l == c.level + 1 then (g in v.levels[l] && g !in c.parentInputs) || g in outputs
        else g in v.levels[l]
    {
      forall g ensures g in v'.levels[l] <==>
        if l == c.level then g in v.levels[l] && g !in c.inputs
        else if l == c.level + 1 then (g in v.levels[l] && g !in c.parentInputs) || g in outputs
        else g in v.levels[l]
      {
        assert g in v'.levels[l] <==> g in FileSet(v'.levels[l]);
        CompactedLevel(v, c, outputs, l, g);
      }
    }
  }

  lemma {:induction false} CompactedLevel(v: Version, c: Pick, outputs: Files, l: nat, g: FileMeta)
    requires |v.levels| == NUM_LEVELS && UniqueNumbers(v) && ValidPick(v, c) && l < NUM_LEVELS
    ensures g in AfterEdits(FileSet(v.levels[l]), l, [CompactionEdit(c, outputs)]) <==>
      if l == c.level then g in v.levels[l] && g !in c.inputs
      else if l == c.level + 1 then (g in v.levels[l] && g !in c.parentInputs) || g in outputs
      else g in v.levels[l]
  {
    hide Deletions, Additions, ValidPick, UniqueNumbers, AfterEdits;
    AfterOneEdit(FileSet(v.levels[l]), l, CompactionEdit(c, outputs).deletedFiles, c.level + 1, outputs);
    if g in v.levels[l] {
      DeletedIffInput(v, c, l, g);
    }
  }

  lemma {:induction false} DeletedIffInput(v: Version, c: Pick, l: nat, g: FileMeta)
    requires |v.levels| == NUM_LEVELS && UniqueNumbers(v) && ValidPick(v, c) && l < NUM_LEVELS && g in v.levels[l]
    ensures (l, g.number) in Deletions(c.level, c.inputs) + Deletions(c.level + 1, c.parentInputs) <==>
              ((l == c.level && g in c.inputs) || (l == c.level + 1 && g in c.parentInputs))
  {
    hide Deletions, Spans, NothingOverlapsLeft;
    DeletionsMembers(c.level, c.inputs);
    DeletionsMembers(c.level + 1, c.parentInputs);
    assert forall f :: f in c.parentInputs ==> f in v.levels[c.level + 1];
  }

  lemma {:induction false} AdditionsFresh(v: Version, deletions: seq<(nat, nat)>, level: nat, files: Files)
    requires |v.levels| == NUM_LEVELS && level < NUM_LEVELS && forall d :: d in deletions ==> d.0 < NUM_LEVELS
    requires forall o, f :: o in files && f in v.levels[level] ==> o.number != f.number
    requires forall i, j :: 0 <= i < j < |files| ==> files[i].number != files[j].number
    ensures FreshFor(v, FileEdit(deletions, Additions(level, files)))
  {
    AdditionsIndexed(level, files);
  }

  lemma {:induction false} CompactionEditFresh(st: Store, c: Pick, outputs: Files, limit: nat)
    requires |st.version.levels| == NUM_LEVELS && c.level + 1 < NUM_LEVELS
             && Subset(c.inputs, st.version.levels[c.level])
    requires NumbersFresh(st, c, outputs, limit) && UniqueNumbers(st.version)
    requires forall l, f :: 0 <= l < NUM_LEVELS && f in st.version.levels[l] ==> f.number < st.nextFileNumber
    requires forall i, j :: 0 <= i < j < |outputs| ==> outputs[i].number != outputs[j].number
    ensures FreshFor(st.version, CompactionEdit(c, outputs))
  {
    hide Deletions, FreshFor, Additions;
    DeletionsLevel(c.level, c.inputs);
    DeletionsLevel(c.level + 1, c.parentInputs);
    forall o, f | o in outputs && f in st.version.levels[c.level + 1] ensures o.number != f.number {
      assert o in c.inputs ==> o in st.version.levels[c.level];
    }
    AdditionsFresh(st.version, CompactionEdit(c, outputs).deletedFiles, c.level + 1, outputs);
  }

  lemma {:induction false} FlushEditFresh(st: Store, level: nat, f: FileMeta)
    requires st.FilesOk() && f.number == st.nextFileNumber && level < NUM_LEVELS
    ensures FreshFor(st.version, FileEdit([], Additions(level, [f])))
  {
    AdditionsFresh(st.version, [], level, [f]);
  }

  /** A single file with no overlapping parent can move down as it is. */
  lemma {:induction false} TrivialMoveFits(st: Store, c: Pick, f: FileMeta)
    requires |st.version.levels| == NUM_LEVELS && st.version.Valid() && ValidPick(st.version, c)
    requires c.inputs == [f] && c.parentInputs == []
    ensures NumbersFresh(st, c, [f], st.nextFileNumber)
    ensures f.Valid() && Flatten([f]) == f.entries
    ensures forall e :: e in f.entries <==> InputEntry(c, e)
  {
    hide Spans, Overlaps, Before, Newer;
    assert f in [f] && [f][..0] == [] && IsInput(c, f);
    assert f in st.version.levels[c.level];
    assert Flatten([f]) == Flatten([f][..0]) + f.entries;
    assert forall g :: IsInput(c, g) ==> g == f;
  }

  lemma {:induction false} NewOutputsFresh(st: Store, c: Pick, outputs: Files)
    requires Numbered(outputs, st.nextFileNumber)
    ensures NumbersFresh(st, c, outputs, st.nextFileNumber + |outputs|)
    ensures forall i, j :: 0 <= i < j < |outputs| ==> outputs[i].number != outputs[j].number
  {
  }

  /** A finished compaction whose results may be installed. */
  ghost predicate Installable(st: Store, c: Pick, input: seq<Entry>, outputs: Files, limit: nat) {
    && ValidPick(st.version, c) && NumbersFresh(st, c, outputs, limit)
    && (forall e :: e in input <==> InputEntry(c, e))
    && PreservesReads(input, Flatten(outputs), st.SmallestSnapshot(), st.version, c.level)
    && AllValid(outputs) && DisjointSorted(outputs)
    && forall i, j :: 0 <= i < j < |outputs| ==> outputs[i].number != outputs[j].number
  }

  /** The edit of a finished compaction may be applied, and the version it gives has the inputs
      replaced by the outputs. */
  lemma {:induction false} InstallApplies(st: Store, c: Pick, input: seq<Entry>, outputs: Files, limit: nat)
    requires st.Inv() && Installable(st, c, input, outputs, limit)
    ensures st.version.Valid() && forall l :: 0 <= l < NUM_LEVELS ==> BySmallest(st.version.levels[l])
    ensures FreshFor(st.version, CompactionEdit(c, outputs))
    ensures forall v' :: EditApplied(st.version, CompactionEdit(c, outputs), v') ==>
              ReplaceInputs(st, st.(version := v', nextFileNumber := limit), c, input, outputs)
  {
    hide Store.MemOk, Store.HistoryOk, PreservesReads, EditApplied;
    CompactionEditFresh(st, c, outputs, limit);
    forall v' | EditApplied(st.version, CompactionEdit(c, outputs), v')
      ensures ReplaceInputs(st, st.(version := v', nextFileNumber := limit), c, input, outputs)
    {
      CompactedVersion(st.version, v', c, outputs);
    }
  }

  lemma {:induction false} FlushApplied(st: Store, v': Version, level: nat, f: FileMeta)
    requires st.Inv() && st.imm == Some(f.entries) && f.number == st.nextFileNumber && level < NUM_LEVELS
    requires f.entries != [] && f.smallest == f.entries[0].key && f.largest == f.entries[|f.entries| - 1].key
    requires level > 0 ==> forall l :: 0 <= l <= level ==> NoOverlap(st.version.levels[l], f.smallest.user,
                                                                     f.largest.user)
    requires EditApplied(st.version, FileEdit([], Additions(level, [f])), v')
    ensures st.(imm := None, version := v', nextFileNumber := st.nextFileNumber + 1).Inv()
  {
    FlushedVersion(st.version, v', level, f);
    FlushKeepsInv(st, st.(imm := None, version := v', nextFileNumber := st.nextFileNumber + 1), level, f);
  }

  lemma {:induction false} TrivialMoveInstallable(st: Store, c: Pick, f: FileMeta)
    requires |st.version.levels| == NUM_LEVELS && st.version.Valid() && ValidPick(st.version, c)
    requires c.inputs == [f] && c.parentInputs == []
    ensures Installable(st, c, f.entries, [f], st.nextFileNumber)
  {
    hide PreservesReads, NumbersFresh, InputEntry, Flatten, FileMeta.Valid, ValidPick, Version.Valid;
    TrivialMoveFits(st, c, f);
    KeepingAllPreservesReads(f.entries, st.SmallestSnapshot(), st.version, c.level);
  }

  class DBImpl {
    var mem: seq<Entry>
    var imm: Option<seq<Entry>>
    var version: Version
    var lastSequence: nat
    var snapshots: seq<nat>
    var nextFileNumber: nat
    const maxFileSize: nat
    ghost var history: History

    ghost function View(): Store
      reads this
    {
      Store(mem, imm, version, lastSequence, snapshots, nextFileNumber, history)
    }

    ghost predicate Valid()
      reads this
    {
      View().Inv() && lastSequence == |history|
    }

    constructor (maxFileSize: nat)
      ensures Valid() && history == [] && this.maxFileSize == maxFileSize && Init(View())
    {
      mem, imm, version, lastSequence, snapshots, nextFileNumber := [], None, NoFiles(), 0, [], 2;
      this.maxFileSize := maxFileSize;
      history := [];
      new;
      InitInv(View());
    }

    // ---------- reads ----------

    /** MemTable::Get: the entry found by seeking, if it has the user key asked for. */
    method GetFromMemTable(table: seq<Entry>, k: UserKey, s: SequenceNumber) returns (hit: Option<Entry>)
      requires Sorted(table)
      ensures match hit case None => forall x :: x in table ==> !Candidate(x, k, s)
              case Some(e) => NewestIn(table, k, s, e)
    {
      SeekFindsNewest(table, k, s);
      var i := SeekIndex(table, LookupKey(k, s));
      hit := if i < |table| && table[i].key.user == k then Some(table[i]) else None;
    }

    /** A read at a live snapshot, or at the latest sequence, returns what the history says. */
    method Get(k: UserKey, snapshot: Option<nat>) returns (value: Option<Bytes>)
      requires Valid() && (snapshot.Some? ==> snapshot.value in snapshots)
      ensures value == SpecGet(history, k, if snapshot.Some? then snapshot.value else lastSequence)
    {
      var s: nat := if snapshot.Some? then snapshot.value else lastSequence;
      assert s <= lastSequence && s >= View().SmallestSnapshot();
      var m := GetFromMemTable(mem, k, s);
      var i: Option<Entry> := None;
      var f: Option<Entry> := None;
      if m.None? {
        i := GetFromMemTable(if imm.Some? then imm.value else [], k, s);
        if i.None? {
          f := Versions.Get(version, k, s);
        }
      }
      LayeredLookup(View(), k, s, m, i, f);
      var hit := if m.Some? then m else if i.Some? then i else f;
      ReadMatchesHistory(View(), k, s, hit);
      value := Outcome(hit);
    }

    method GetSnapshot() returns (s: nat)
      requires Valid()
      modifies this`snapshots
      ensures Valid() && s == lastSequence && snapshots == old(snapshots) + [s]
    {
      TakeSnapshotKeepsInv(View());
      snapshots := snapshots + [lastSequence];
      s := lastSequence;
    }

    method ReleaseSnapshot(i: nat)
      requires Valid() && i < |snapshots|
      modifies this`snapshots
      ensures Valid() && snapshots == old(snapshots[..i] + snapshots[i + 1..])
    {
      ReleaseSnapshotKeepsInv(View(), i);
      snapshots := snapshots[..i] + snapshots[i + 1..];
    }

    // ---------- writes ----------

    /** The leader's part of Write: the group is logged and applied, or its sequence numbers are lost. */
    method Write(batch: seq<Op>, logged: bool)
      requires Valid() && |history| + |batch| < MAX_SEQUENCE_NUMBER
      modifies this`mem, this`history, this`lastSequence
      ensures Valid() && history == old(history) + Slots(batch, logged) && lastSequence == |history|
      ensures !logged ==> mem == old(mem)
      ensures logged ==> forall e :: e in mem <==> e in old(mem) || FromBatch(e, batch, old(lastSequence) + 1)
    {
      hide Store.Inv, Insert, FromBatch;
      ghost var first := lastSequence + 1;
      NothingFromBatch(batch, first);
      for i := 0 to |batch|
        invariant View().Inv() && lastSequence == old(lastSequence)
        invariant history == old(history) + Slots(batch[..i], logged)
        invariant !logged ==> mem == old(mem)
        invariant logged ==> forall e :: e in mem <==> e in old(mem) || FromBatch(e, batch[..i], first)
      {
        SlotsNext(batch, i, logged);
        ghost var st := View();
        var op := batch[i];
        if logged {
          AddEntryKeepsInv(st, op.key, op.Kind(), op.Payload());
          AddEntryAddsOne(st, op.key, op.Kind(), op.Payload());
          forall e ensures FromBatch(e, batch[..i + 1], first) <==>
            FromBatch(e, batch[..i], first) || Records(e, op, first + i) {
            FromBatchNext(e, batch, i, first);
          }
          mem := Insert(mem, Entry(InternalKey(op.key, lastSequence + 1 + i, op.Kind()), op.Payload()));
          history := history + [Stores.Write(op.key, op.Kind(), op.Payload())];
          assert View() == AddEntry(st, op.key, op.Kind(), op.Payload());
        } else {
          LoseSequenceKeepsInv(st);
          history := history + [Void];
          assert View() == LoseSequence(st);
        }
      }
      assert batch[..|batch|] == batch;
      ghost var st := View();
      PublishKeepsInv(st);
      lastSequence := lastSequence + |batch|;
      assert View() == Publish(st);
    }

    static lemma {:induction false} NothingFromBatch(batch: seq<Op>, first: nat)
      ensures forall e :: !FromBatch(e, batch[..0], first)
    {
    }

    /** MakeRoomForWrite, once there is room for a new immutable memtable. */
    method SwitchMemTable()
      requires Valid() && imm.None?
      modifies this`mem, this`imm
      ensures Valid() && mem == [] && imm == Some(old(mem))
    {
      SwitchMemTableKeepsInv(View());
      imm := Some(mem);
      mem := [];
    }

    // ---------- background work ----------

    /** Build a file from a nonempty memtable, and pick the level it goes to. */
    method WriteLevel0Table(entries: seq<Entry>, tableSize: seq<Entry> -> nat) returns (f: FileMeta, level: nat)
      requires version.Valid() && entries != []
      ensures f == FileMeta(nextFileNumber, tableSize(entries), entries[0].key, entries[|entries| - 1].key, entries)
      ensures GoesTo(version, level, f.smallest.user, f.largest.user, maxFileSize)
      ensures level > 0 ==>
              forall l :: 0 <= l <= level ==> NoOverlap(version.levels[l], f.smallest.user, f.largest.user)
    {
      f := FileMeta(nextFileNumber, tableSize(entries), entries[0].key, entries[|entries| - 1].key, entries);
      level := PickLevelForMemTableOutput(version, f.smallest.user, f.largest.user, maxFileSize);
      forall l | 0 <= l <= level && level > 0 ensures NoOverlap(version.levels[l], f.smallest.user, f.largest.user) {
        assert l > 0 ==> MayPush(version, l - 1, f.smallest.user, f.largest.user, maxFileSize);
      }
    }

    /** Turn the immutable memtable into a file. */
    method CompactMemTable(tableSize: seq<Entry> -> nat)
      requires Valid() && imm.Some?
      modifies this`imm, this`version, this`nextFileNumber
      ensures Valid() && imm == None
      ensures if old(imm) == Some([]) then View() == DropEmptyImm(old(View()))
              else exists level, f ::
                   FlushTo(old(View()), View(), level, f)
                   && GoesTo(old(version), level, f.smallest.user, f.largest.user, maxFileSize)
                   && f.size == tableSize(f.entries)
    {
      hide EditApplied, FileAdded, NoOverlap, MayPush, Store.HistoryOk, Store.Covered;
      ghost var st := View();
      if imm == Some([]) {
        DropEmptyImmKeepsInv(st);
        imm, nextFileNumber := None, nextFileNumber + 1;
        assert View() == DropEmptyImm(st);
        return;
      }
      var f, level := WriteLevel0Table(imm.value, tableSize);
      FlushEditFresh(st, level, f);
      var v' := LogAndApply(version, FileEdit([], Additions(level, [f])));
      FlushApplied(st, v', level, f);
      FlushedVersion(version, v', level, f);
      imm, version, nextFileNumber := None, v', nextFileNumber + 1;
      assert View() == st.(imm := None, version := v', nextFileNumber := st.nextFileNumber + 1);
      assert FlushTo(st, View(), level, f);
    }

    /** Log and apply the edit of a finished compaction. */
    method InstallCompactionResults(c: Pick, ghost input: seq<Entry>, outputs: Files, limit: nat)
      requires Valid() && Installable(View(), c, input, outputs, limit)
      modifies this`version, this`nextFileNumber
      ensures nextFileNumber == limit && ReplaceInputs(old(View()), View(), c, input, outputs)
    {
      hide Installable, EditApplied, ReplaceInputs;
      ghost var st := View();
      InstallApplies(st, c, input, outputs, limit);
      var v' := LogAndApply(version, CompactionEdit(c, outputs));
      version, nextFileNumber := v', limit;
      assert View() == st.(version := v', nextFileNumber := limit);
    }

    /** Move the single input file one level down. */
    method TrivialMove(c: Pick)
      requires Valid() && ValidPick(version, c) && |c.inputs| == 1 && c.parentInputs == []
      modifies this`version, this`nextFileNumber
      ensures Moved(old(View()), View(), c) && (Valid() <==> MoveIsSafe(old(View()), c))
    {
      hide Store.MemOk, Store.HistoryOk, Installable, MoveIsSafe, Overlaps;
      ghost var st := View();
      TrivialMoveInstallable(View(), c, c.inputs[0]);
      InstallCompactionResults(c, c.inputs[0].entries, [c.inputs[0]], nextFileNumber);
      MoveKeepsInvIff(st, View(), c);
    }

    /** Merge the inputs and drop what no live snapshot needs. */
    method MergeInputs(c: Pick, tableSize: seq<Entry> -> nat) returns (outputs: Files, ghost input: seq<Entry>)
      requires Valid() && ValidPick(version, c)
      ensures (forall e :: e in input <==> InputEntry(c, e)) && WhatIsKept(View(), c, input, outputs)
      ensures PreservesReads(input, Flatten(outputs), View().SmallestSnapshot(), version, c.level)
      ensures AllValid(outputs) && DisjointSorted(outputs) && Numbered(outputs, nextFileNumber)
      ensures Cutting(c.grandparents, 10 * maxFileSize, tableSize, maxFileSize, input).WellCut(EntriesOf(outputs))
    {
      hide PreservesReads, DisjointSorted, Numbered, Flatten, Union, InputEntry, Cutting.WellCut, Sorted, AllValid,
           Version.LayersOrdered, UniqueNumbers, Kept;
      var merged := Union(EntryLists(c.inputs + c.parentInputs));
      InputMembers(View(), c);
      var smallestSnapshot := if snapshots == [] then lastSequence else snapshots[0];
      var compaction := new Compaction(version, c.level, c.inputs, c.parentInputs, c.grandparents, maxFileSize);
      outputs := compaction.DoCompactionWork(merged, smallestSnapshot, nextFileNumber, tableSize);
      DroppingPreservesReads(merged, smallestSnapshot, version, c.level);
      input := merged;
    }

    /** Compact the picked files into the next level. */
    method DoCompaction(c: Pick, tableSize: seq<Entry> -> nat)
      requires Valid() && ValidPick(version, c)
      modifies this`version, this`nextFileNumber
      ensures Compacted(old(View()), View(), c) && (Valid() <==> MergeIsSafe(old(View()), c))
    {
      hide PreservesReads, Kept, DisjointSorted, AllValid, Store.Inv, ReplaceInputs, WhatIsKept, InputEntry,
           NumbersFresh;
      ghost var st := View();
      var outputs, input := MergeInputs(c, tableSize);
      NewOutputsFresh(View(), c, outputs);
      InstallCompactionResults(c, input, outputs, nextFileNumber + |outputs|);
      assert WhatIsKept(st, c, input, outputs) && ReplaceInputs(st, View(), c, input, outputs);
      MergeKeepsInvIff(st, View(), c);
    }

    /** Run one picked compaction: a trivial move when it may be one, else the compaction loop. */
    method BackgroundCompaction(c: Pick, isManual: bool, tableSize: seq<Entry> -> nat)
      requires Valid() && ValidPick(version, c)
      modifies this`version, this`nextFileNumber
      ensures if !isManual && |c.inputs| == 1 && c.parentInputs == []
              && TotalFileSize(c.grandparents) <= 10 * maxFileSize
              then Moved(old(View()), View(), c) && (Valid() <==> MoveIsSafe(old(View()), c))
              else Compacted(old(View()), View(), c) && (Valid() <==> MergeIsSafe(old(View()), c))
    {
      hide Store.Inv, Moved, Compacted, MoveIsSafe, MergeIsSafe;
      if !isManual && |c.inputs| == 1 && |c.parentInputs| == 0 && TotalFileSize(c.grandparents) <= 10 * maxFileSize {
        TrivialMove(c);
      } else {
        DoCompaction(c, tableSize);
      }
    }
  }
}

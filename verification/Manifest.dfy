/** VersionSet::Recover (db/version_set.cc): the records of the manifest rebuild the file set
    and the counters. */
module Manifests {
  import opened Wrappers
  import opened Coding
  import opened InternalKeys
  import opened Versions
  import opened VersionBuilders
  import opened VersionEdits

  /** The table file that a record describes. */
  type Tables = FileRecord -> FileMeta

  ghost predicate Describes(tables: Tables) {
    forall r :: tables(r).number == r.number
  }

  function FileEditOf(e: Edit, tables: Tables): FileEdit {
    FileEdit(e.deletedFiles,
             seq(|e.newFiles|, i requires 0 <= i < |e.newFiles| => (e.newFiles[i].0, tables(e.newFiles[i].1))))
  }

  ghost function FileEdits(edits: seq<Edit>, tables: Tables): seq<FileEdit> {
    seq(|edits|, i requires 0 <= i < |edits| => FileEditOf(edits[i], tables))
  }

  /** Each edit adds numbers that are new at their levels. */
  ghost predicate FreshAt(edits: seq<Edit>, tables: Tables, n: nat)
    requires n < |edits|
  {
    var added := FileEditOf(edits[n], tables).newFiles;
    && (forall i :: 0 <= i < |added| ==> added[i].1.number !in NumbersAdded(FileEdits(edits, tables)[..n], added[i].0))
    && (forall i, j :: 0 <= i < j < |added| && added[i].0 == added[j].0 ==> added[i].1.number != added[j].1.number)
  }

  /** The value the last edit to have one gives. */
  ghost function LastOf(edits: seq<Edit>, get: Edit -> Option<nat>): Option<nat> {
    if edits == [] then None
    else if get(edits[|edits| - 1]).Some? then get(edits[|edits| - 1])
    else LastOf(edits[..|edits| - 1], get)
  }

  function Later(old': Option<nat>, new': Option<nat>): Option<nat> {
    if new'.Some? then new' else old'
  }

  datatype Counters = Counters(logNumber: Option<nat>, prevLogNumber: Option<nat>, nextFile: Option<nat>,
                               lastSequence: Option<nat>)

  ghost function CountersOf(edits: seq<Edit>): Counters {
    Counters(LastOf(edits, (e: Edit) => e.logNumber), LastOf(edits, (e: Edit) => e.prevLogNumber),
             LastOf(edits, (e: Edit) => e.nextFileNumber), LastOf(edits, (e: Edit) => e.lastSequence))
  }

  ghost predicate ComparatorsMatch(edits: seq<Edit>, name: Bytes) {
    forall i :: 0 <= i < |edits| && edits[i].comparator.Some? ==> edits[i].comparator.value == name
  }

  /** What the records decode to, whatever they hold. */
  ghost predicate DecodeTo(records: seq<Bytes>, edits: seq<Edit>) {
    |records| == |edits| && forall i :: 0 <= i < |edits| ==> edits[i] == Decoded(NO_EDIT, records[i]).0
  }

  ghost predicate AllDecode(records: seq<Bytes>) {
    forall i :: 0 <= i < |records| ==> Decoded(NO_EDIT, records[i]).1
  }

  ghost predicate RecordOf(record: Bytes, e: Edit) {
    e.Valid() && e.LevelsOk() && record == Encoded(e.Fields())
  }

  datatype Recovered = Recovered(version: Version, logNumber: nat, prevLogNumber: nat, nextFile: nat, lastSequence: nat)

  /** The version holds, at each level, the files left by applying the edits one at a time, and
      each counter has its last value. */
  ghost predicate Rebuilt(r: Recovered, edits: seq<Edit>, tables: Tables) {
    && |r.version.levels| == NUM_LEVELS
    && (forall l :: 0 <= l < NUM_LEVELS ==> LevelRebuilt(r.version.levels[l], l, edits, tables))
    && var c := CountersOf(edits);
       && c.logNumber == Some(r.logNumber) && c.nextFile == Some(r.nextFile) && c.lastSequence == Some(r.lastSequence)
       && r.prevLogNumber == if c.prevLogNumber.Some? then c.prevLogNumber.value else 0
  }

  ghost predicate LevelRebuilt(files: Files, l: nat, edits: seq<Edit>, tables: Tables) {
    BySmallest(files) && FileSet(files) == AfterEdits({}, l, FileEdits(edits, tables))
  }

  /** Replay, over any records: it fails exactly when a record does not decode, a comparator
      name differs or a counter is missing. */
  method Recover(records: seq<Bytes>, comparatorName: Bytes, tables: Tables, ghost edits: seq<Edit>)
    returns (r: Option<Recovered>)
    requires Describes(tables) && DecodeTo(records, edits)
    requires forall n :: 0 <= n < |edits| && AllDecode(records[..n + 1]) ==> FreshAt(edits, tables, n)
    ensures r.Some? ==> Rebuilt(r.value, edits, tables)
    ensures r.Some? <==>
              && AllDecode(records) && ComparatorsMatch(edits, comparatorName)
              && var c := CountersOf(edits); c.nextFile.Some? && c.logNumber.Some? && c.lastSequence.Some?
  {
    hide Builder.Valid, Edit.WithAll, Parse, Encoded, Edit.Fields, AfterEdits, BySmallest, FileEdits, FileEditOf,
         Builder.FreshAdditions, FreshAt, CountersOf, Rebuilt, Decoded, Edit.LevelsOk;
    var base := Version(seq(NUM_LEVELS, _ => []));
    NoEdits(tables, base);
    var builder := new Builder(base);
    var c := Counters(None, None, None, None);
    for i := 0 to |records|
      invariant builder.Valid() && fresh(builder) && fresh(builder.levels) && builder.base == base
      invariant builder.applied == FileEdits(edits[..i], tables)
      invariant ComparatorsMatch(edits[..i], comparatorName) && c == CountersOf(edits[..i])
      invariant AllDecode(records[..i])
    {
      var edit := new VersionEdit();
      var ok := edit.DecodeFrom(records[i]);
      assert (edit.View(), ok) == Decoded(NO_EDIT, records[i]);
      if !ok {
        return None;
      }
      DecodedLevels(NO_EDIT, records[i]);
      OneDecodes(records, i);
      if edit.comparator.Some? && edit.comparator.value != comparatorName {
        assert !ComparatorsMatch(edits, comparatorName);
        return None;
      }
      OneMore(edits, tables, i);
      ReadyToApply(builder, edits, tables, i);
      builder.Apply(FileEditOf(edit.View(), tables));
      c := Counters(Later(c.logNumber, edit.logNumber), Later(c.prevLogNumber, edit.prevLogNumber),
                    Later(c.nextFile, edit.nextFileNumber), Later(c.lastSequence, edit.lastSequence));
    }
    assert edits[..|edits|] == edits && records[..|records|] == records;
    if c.nextFile == None || c.logNumber == None || c.lastSequence == None {
      return None;
    }
    var v := builder.SaveTo();
    r := Some(Recovered(v, c.logNumber.value, if c.prevLogNumber.Some? then c.prevLogNumber.value else 0,
                        c.nextFile.value, c.lastSequence.value));
    RebuiltBy(r.value, edits, tables, base);
  }

  lemma {:induction false} NoEdits(tables: Tables, base: Version)
    requires base == Version(seq(NUM_LEVELS, _ => []))
    ensures base.Valid() && forall l :: 0 <= l < NUM_LEVELS ==> BySmallest(base.levels[l])
    ensures NO_EDIT.LevelsOk() && FileEdits([], tables) == [] && CountersOf([]) == Counters(None, None, None, None)
  {
  }

  lemma {:induction false} OneMore(edits: seq<Edit>, tables: Tables, i: nat)
    requires i < |edits|
    ensures FileEdits(edits[..i + 1], tables) == FileEdits(edits[..i], tables) + [FileEditOf(edits[i], tables)]
    ensures var c, e := CountersOf(edits[..i]), edits[i];
            CountersOf(edits[..i + 1]) == Counters(Later(c.logNumber, e.logNumber),
                                                   Later(c.prevLogNumber, e.prevLogNumber),
                                                   Later(c.nextFile, e.nextFileNumber),
                                                   Later(c.lastSequence, e.lastSequence))
  {
    assert edits[..i + 1][..i] == edits[..i];
  }

  lemma {:induction false} RebuiltBy(r: Recovered, edits: seq<Edit>, tables: Tables, base: Version)
    requires base == Version(seq(NUM_LEVELS, _ => [])) && |r.version.levels| == NUM_LEVELS
    requires forall l :: 0 <= l < NUM_LEVELS ==>
               BySmallest(r.version.levels[l]) && FileSet(r.version.levels[l]) ==
                 AfterEdits(FileSet(base.levels[l]), l, FileEdits(edits, tables))
    requires var c := CountersOf(edits);
             && c.logNumber == Some(r.logNumber) && c.nextFile == Some(r.nextFile)
             && c.lastSequence == Some(r.lastSequence)
             && r.prevLogNumber == if c.prevLogNumber.Some? then c.prevLogNumber.value else 0
    ensures Rebuilt(r, edits, tables)
  {
    hide AfterEdits, BySmallest, FileEdits, CountersOf;
    forall l | 0 <= l < NUM_LEVELS ensures LevelRebuilt(r.version.levels[l], l, edits, tables) {
      assert FileSet(base.levels[l]) == {};
    }
  }

  lemma {:induction false} DecodedRecord(record: Bytes, e: Edit)
    requires RecordOf(record, e)
    ensures Decoded(NO_EDIT, record) == (e, true)
  {
    hide Decoded, Encoded, Edit.Fields, Edit.Valid, Edit.LevelsOk;
    EditRoundTrip(e, NO_EDIT);
    assert [] + e.compactPointers == e.compactPointers;
  }

  lemma {:induction false} OneDecodes(records: seq<Bytes>, i: nat)
    requires i < |records| && AllDecode(records[..i]) && Decoded(NO_EDIT, records[i]).1
    ensures AllDecode(records[..i + 1])
  {
    hide Decoded;
  }

  /** A manifest that was written decodes to the edits that were written. */
  lemma {:induction false} WrittenRecordsDecode(records: seq<Bytes>, edits: seq<Edit>)
    requires |records| == |edits| && forall i :: 0 <= i < |edits| ==> RecordOf(records[i], edits[i])
    ensures DecodeTo(records, edits) && AllDecode(records)
  {
    hide Decoded, RecordOf;
    forall i | 0 <= i < |edits| ensures Decoded(NO_EDIT, records[i]) == (edits[i], true) {
      DecodedRecord(records[i], edits[i]);
    }
  }

  lemma {:induction false} ReadyToApply(builder: Builder, edits: seq<Edit>, tables: Tables, n: nat)
    requires builder.Valid() && n < |edits| && edits[n].LevelsOk() && FreshAt(edits, tables, n)
    requires builder.base == Version(seq(NUM_LEVELS, _ => [])) && builder.applied == FileEdits(edits[..n], tables)
    ensures FileEditOf(edits[n], tables).Valid() && builder.FreshAdditions(FileEditOf(edits[n], tables).newFiles)
  {
    assert FileEdits(edits[..n], tables) == FileEdits(edits, tables)[..n];
  }
}

/** VersionEdit (db/version_edit.cc): one record of the manifest, as tagged fields. */
module VersionEdits {
  import opened Wrappers
  import opened Coding
  import Versions

  datatype FileRecord = FileRecord(number: nat, fileSize: nat, smallest: Bytes, largest: Bytes)

  // ---------- fields ----------

  datatype Field =
    | Comparator(name: Bytes)
    | LogNumber(number: nat)
    | PrevLogNumber(number: nat)
    | NextFileNumber(number: nat)
    | LastSequence(number: nat)
    | CompactPointer(level: nat, key: Bytes)
    | DeletedFile(level: nat, number: nat)
    | NewFile(level: nat, file: FileRecord)
  {
    /** Its numbers and lengths fit their types. */
    predicate Fits() {
      match this
      case Comparator(name) => |name| < TWO32
      case CompactPointer(level, key) => level < TWO32 && |key| < TWO32
      case DeletedFile(level, number) => level < TWO32 && number < TWO64
      case NewFile(level, f) =>
        level < TWO32 && f.number < TWO64 && f.fileSize < TWO64 && |f.smallest| < TWO32 && |f.largest| < TWO32
      case _ => number < TWO64
    }

    predicate LevelOk() {
      match this
      case CompactPointer(level, _) => level < Versions.NUM_LEVELS
      case DeletedFile(level, _) => level < Versions.NUM_LEVELS
      case NewFile(level, _) => level < Versions.NUM_LEVELS
      case _ => true
    }

    function Tag(): nat {
      match this
      case Comparator(_) => 1
      case LogNumber(_) => 2
      case NextFileNumber(_) => 3
      case LastSequence(_) => 4
      case CompactPointer(_, _) => 5
      case DeletedFile(_, _) => 6
      case NewFile(_, _) => 7
      case PrevLogNumber(_) => 9
    }

    function Body(): Bytes {
      match this
      case Comparator(name) => LengthPrefixed(name)
      case CompactPointer(level, key) => Varint(level) + LengthPrefixed(key)
      case DeletedFile(level, number) => Varint(level) + Varint(number)
      case NewFile(level, f) =>
        Varint(level) +
        (Varint(f.number) + (Varint(f.fileSize) + (LengthPrefixed(f.smallest) + LengthPrefixed(f.largest))))
      case _ => Varint(number)
    }

    function Encode(): Bytes {
      Varint(Tag()) + Body()
    }
  }

  function GetLevel(input: Bytes): Option<(nat, Bytes)> {
    match GetVarint32(input)
    case None => None
    case Some(v) => if v.0 < Versions.NUM_LEVELS then Some(v) else None
  }

  function ParseNumber(input: Bytes, make: nat -> Field): Option<(Field, Bytes)> {
    match GetVarint64(input)
    case None => None
    case Some(n) => Some((make(n.0), n.1))
  }

  function ParseCompactPointer(input: Bytes): Option<(Field, Bytes)> {
    match GetLevel(input)
    case None => None
    case Some(level) =>
      match GetLengthPrefixed(level.1)
      case None => None
      case Some(key) => Some((CompactPointer(level.0, key.0), key.1))
  }

  function ParseDeletedFile(input: Bytes): Option<(Field, Bytes)> {
    match GetLevel(input)
    case None => None
    case Some(level) => ParseNumber(level.1, (n: nat) => DeletedFile(level.0, n))
  }

  function ParseFile(input: Bytes): Option<(FileRecord, Bytes)> {
    match GetVarint64(input)
    case None => None
    case Some(number) =>
      match GetVarint64(number.1)
      case None => None
      case Some(size) =>
        match GetLengthPrefixed(size.1)
        case None => None
        case Some(smallest) =>
          match GetLengthPrefixed(smallest.1)
          case None => None
          case Some(largest) => Some((FileRecord(number.0, size.0, smallest.0, largest.0), largest.1))
  }

  function ParseNewFile(input: Bytes): Option<(Field, Bytes)> {
    match GetLevel(input)
    case None => None
    case Some(level) =>
      match ParseFile(level.1)
      case None => None
      case Some(f) => Some((NewFile(level.0, f.0), f.1))
  }

  function ParseBody(tag: nat, input: Bytes): Option<(Field, Bytes)> {
    if tag == 1 then
      match GetLengthPrefixed(input)
      case None => None
      case Some(s) => Some((Comparator(s.0), s.1))
    else if tag == 2 then ParseNumber(input, (n: nat) => LogNumber(n))
    else if tag == 9 then ParseNumber(input, (n: nat) => PrevLogNumber(n))
    else if tag == 3 then ParseNumber(input, (n: nat) => NextFileNumber(n))
    else if tag == 4 then ParseNumber(input, (n: nat) => LastSequence(n))
    else if tag == 5 then ParseCompactPointer(input)
    else if tag == 6 then ParseDeletedFile(input)
    else if tag == 7 then ParseNewFile(input)
    else None
  }

  /** The field at the front of the input. */
  function ParseField(input: Bytes): (r: Option<(Field, Bytes)>)
    ensures r.Some? ==> |r.value.1| < |input|
  {
    match GetVarint32(input)
    case None => None
    case Some(tag) =>
      BodyShrinks(tag.0, tag.1);
      ParseBody(tag.0, tag.1)
  }

  lemma {:induction false} BodyShrinks(tag: nat, input: Bytes)
    ensures ParseBody(tag, input).Some? ==> |ParseBody(tag, input).value.1| <= |input|
  {
  }

  lemma {:induction false} LevelOf(level: nat, rest: Bytes)
    requires level < TWO32
    ensures GetLevel(Varint(level) + rest) == if level < Versions.NUM_LEVELS then Some((level, rest)) else None
  {
    GetVarint32Of(level, rest);
  }

  lemma {:induction false} FileOf(f: FileRecord, rest: Bytes)
    requires f.number < TWO64 && f.fileSize < TWO64 && |f.smallest| < TWO32 && |f.largest| < TWO32
    ensures ParseFile(Varint(f.number) +
                      (Varint(f.fileSize) + (LengthPrefixed(f.smallest) + LengthPrefixed(f.largest))) + rest) ==
            Some((f, rest))
  {
    hide Varint, LengthPrefixed, GetVarint64, GetLengthPrefixed;
    var d := LengthPrefixed(f.largest) + rest;
    var c := LengthPrefixed(f.smallest) + d;
    var b := Varint(f.fileSize) + c;
    assert Varint(f.number) + (Varint(f.fileSize) + (LengthPrefixed(f.smallest) + LengthPrefixed(f.largest)))
           + rest == Varint(f.number) + b;
    GetVarint64Of(f.number, b);
    GetVarint64Of(f.fileSize, c);
    GetLengthPrefixedOf(f.smallest, d);
    GetLengthPrefixedOf(f.largest, rest);
  }

  /** A field is read back exactly when its level exists. */
  lemma {:induction false} FieldRoundTrip(f: Field, rest: Bytes)
    requires f.Fits()
    ensures ParseField(f.Encode() + rest) == if f.LevelOk() then Some((f, rest)) else None
  {
    hide Varint, LengthPrefixed, GetVarint32, GetVarint64, GetLengthPrefixed, GetLevel, ParseFile;
    assert f.Encode() + rest == Varint(f.Tag()) + (f.Body() + rest);
    GetVarint32Of(f.Tag(), f.Body() + rest);
    match f
    case Comparator(name) => GetLengthPrefixedOf(name, rest);
    case CompactPointer(level, key) =>
      assert f.Body() + rest == Varint(level) + (LengthPrefixed(key) + rest);
      LevelOf(level, LengthPrefixed(key) + rest);
      GetLengthPrefixedOf(key, rest);
    case DeletedFile(level, number) =>
      assert f.Body() + rest == Varint(level) + (Varint(number) + rest);
      LevelOf(level, Varint(number) + rest);
      GetVarint64Of(number, rest);
    case NewFile(level, file) =>
      var tail := Varint(file.number) + (Varint(file.fileSize)
                                         + (LengthPrefixed(file.smallest) + LengthPrefixed(file.largest)));
      assert f.Body() + rest == Varint(level) + (tail + rest);
      LevelOf(level, tail + rest);
      FileOf(file, rest);
    case _ => GetVarint64Of(f.number, rest);
  }

  // ---------- records ----------

  function Encoded(fs: seq<Field>): Bytes {
    if fs == [] then [] else fs[0].Encode() + Encoded(fs[1..])
  }

  lemma {:induction false} EncodedAppend(fs: seq<Field>, gs: seq<Field>)
    ensures Encoded(fs + gs) == Encoded(fs) + Encoded(gs)
  {
    hide Field.Encode;
    if fs == [] {
      assert fs + gs == gs;
    } else {
      assert (fs + gs)[1..] == fs[1..] + gs;
      EncodedAppend(fs[1..], gs);
    }
  }

  lemma {:induction false} EncodedOne(fs: seq<Field>, f: Field)
    ensures Encoded(fs + [f]) == Encoded(fs) + f.Encode()
  {
    hide Field.Encode;
    EncodedAppend(fs, [f]);
    assert Encoded([f]) == f.Encode() + Encoded([f][1..]);
  }

  /** The fields up to the first that cannot be read, and whether that is the end. */
  function Parse(input: Bytes): (seq<Field>, bool)
    decreases |input|
  {
    match ParseField(input)
    case None => ([], input == [])
    case Some(f) => var rest := Parse(f.1); ([f.0] + rest.0, rest.1)
  }

  ghost predicate AllFit(fs: seq<Field>) {
    forall i :: 0 <= i < |fs| ==> fs[i].Fits()
  }

  ghost predicate AllLevelsOk(fs: seq<Field>) {
    forall i :: 0 <= i < |fs| ==> fs[i].LevelOk()
  }

  /** A record is accepted exactly when all its levels exist, and then read back whole. */
  lemma {:induction false} FieldsRoundTrip(fs: seq<Field>)
    requires AllFit(fs)
    ensures Parse(Encoded(fs)).1 <==> AllLevelsOk(fs)
    ensures AllLevelsOk(fs) ==> Parse(Encoded(fs)).0 == fs
  {
    hide ParseField, Field.Encode, Field.LevelOk, Field.Fits;
    if fs != [] {
      FieldRoundTrip(fs[0], Encoded(fs[1..]));
      EncodeNonempty(fs[0]);
      FieldsRoundTrip(fs[1..]);
    } else {
      NoField();
    }
  }

  lemma {:induction false} NoField()
    ensures ParseField([]) == None
  {
    NoByte([], 5);
  }

  lemma {:induction false} EncodeNonempty(f: Field)
    ensures f.Encode() != []
  {
  }

  // ---------- the set of deleted files, in order ----------

  predicate PairLess(a: (nat, nat), b: (nat, nat)) {
    a.0 < b.0 || (a.0 == b.0 && a.1 < b.1)
  }

  ghost predicate Ascending(s: seq<(nat, nat)>) {
    forall i, j :: 0 <= i < j < |s| ==> PairLess(s[i], s[j])
  }

  /** Insertion into a std::set. */
  function InsertPair(s: seq<(nat, nat)>, p: (nat, nat)): (r: seq<(nat, nat)>)
    ensures forall q :: q in r <==> q in s || q == p
    ensures Ascending(s) ==> Ascending(r)
  {
    if s == [] || PairLess(p, s[0]) then [p] + s
    else if p == s[0] then s
    else
      var rest := InsertPair(s[1..], p);
      assert forall i :: 0 <= i < |rest| ==> rest[i] in rest;
      assert s == [s[0]] + s[1..];
      [s[0]] + rest
  }

  lemma {:induction false} InsertLast(s: seq<(nat, nat)>, p: (nat, nat))
    requires Ascending(s + [p])
    ensures InsertPair(s, p) == s + [p]
  {
    if s != [] {
      assert PairLess((s + [p])[0], (s + [p])[|s|]);
      assert forall i :: 0 <= i < |s[1..] + [p]| ==> (s[1..] + [p])[i] == (s + [p])[i + 1];
      InsertLast(s[1..], p);
    }
  }

  // ---------- edits ----------

  function OptionalField(f: Option<Field>): seq<Field> {
    if f.Some? then [f.value] else []
  }

  /** The value of an edit; an optional number stands for a number and its has_ flag. */
  datatype Edit = Edit(comparator: Option<Bytes>, logNumber: Option<nat>, prevLogNumber: Option<nat>,
                       nextFileNumber: Option<nat>, lastSequence: Option<nat>, compactPointers: seq<(nat, Bytes)>,
                       deletedFiles: seq<(nat, nat)>, newFiles: seq<(nat, FileRecord)>)
  {
    /** The fields that EncodeTo writes, in its order. */
    function Fields(): seq<Field> {
      Numbers() + Pointers(|compactPointers|) + Deletions(|deletedFiles|) + Additions(|newFiles|)
    }

    function Numbers(): seq<Field> {
      NumbersTo(5)
    }

    /** The first n of the five optional fields. */
    function NumbersTo(n: nat): seq<Field>
      requires n <= 5
    {
      if n == 0 then [] else NumbersTo(n - 1) + OptionalField(Number(n - 1))
    }

    function Number(i: nat): Option<Field>
      requires i < 5
    {
      match i
      case 0 => if comparator.Some? then Some(Comparator(comparator.value)) else None
      case 1 => if logNumber.Some? then Some(LogNumber(logNumber.value)) else None
      case 2 => if prevLogNumber.Some? then Some(PrevLogNumber(prevLogNumber.value)) else None
      case 3 => if nextFileNumber.Some? then Some(NextFileNumber(nextFileNumber.value)) else None
      case _ => if lastSequence.Some? then Some(LastSequence(lastSequence.value)) else None
    }

    function Pointers(n: nat): seq<Field>
      requires n <= |compactPointers|
    {
      seq(n, i requires 0 <= i < n => CompactPointer(compactPointers[i].0, compactPointers[i].1))
    }

    function Deletions(n: nat): seq<Field>
      requires n <= |deletedFiles|
    {
      seq(n, i requires 0 <= i < n => DeletedFile(deletedFiles[i].0, deletedFiles[i].1))
    }

    function Additions(n: nat): seq<Field>
      requires n <= |newFiles|
    {
      seq(n, i requires 0 <= i < n => NewFile(newFiles[i].0, newFiles[i].1))
    }

    /** What Clear leaves: it does not touch the compaction pointers. */
    function Cleared(): Edit {
      Edit(None, None, None, None, None, compactPointers, [], [])
    }

    function With(f: Field): Edit {
      match f
      case Comparator(name) => this.(comparator := Some(name))
      case LogNumber(n) => this.(logNumber := Some(n))
      case PrevLogNumber(n) => this.(prevLogNumber := Some(n))
      case NextFileNumber(n) => this.(nextFileNumber := Some(n))
      case LastSequence(n) => this.(lastSequence := Some(n))
      case CompactPointer(level, key) => this.(compactPointers := compactPointers + [(level, key)])
      case DeletedFile(level, n) => this.(deletedFiles := InsertPair(deletedFiles, (level, n)))
      case NewFile(level, file) => this.(newFiles := newFiles + [(level, file)])
    }

    function WithAll(fs: seq<Field>): Edit {
      if fs == [] then this else WithAll(fs[..|fs| - 1]).With(fs[|fs| - 1])
    }

    lemma {:induction false} WithAllAppend(fs: seq<Field>, gs: seq<Field>)
      ensures WithAll(fs + gs) == WithAll(fs).WithAll(gs)
    {
      if gs == [] {
        assert fs + gs == fs;
      } else {
        assert (fs + gs)[..|fs + gs| - 1] == fs + gs[..|gs| - 1];
        WithAllAppend(fs, gs[..|gs| - 1]);
      }
    }

    /** Numbers and lengths fit their types, and the deleted files are in set order. */
    ghost predicate Valid() {
      AllFit(Fields()) && Ascending(deletedFiles)
    }

    ghost predicate LevelsOk() {
      && (forall p <- compactPointers :: p.0 < Versions.NUM_LEVELS)
      && (forall d <- deletedFiles :: d.0 < Versions.NUM_LEVELS)
      && (forall a <- newFiles :: a.0 < Versions.NUM_LEVELS)
    }

    /** Decoding this edit's fields into edit d. */
    lemma {:induction false} FieldsRebuild(d: Edit)
      requires Ascending(deletedFiles)
      ensures d.Cleared().WithAll(Fields()) == this.(compactPointers := d.compactPointers + compactPointers)
    {
      var a := d.Cleared().WithAll(Numbers());
      NumbersRebuild(d.Cleared());
      d.Cleared().WithAllAppend(Numbers() + Pointers(|compactPointers|) + Deletions(|deletedFiles|),
                                Additions(|newFiles|));
      d.Cleared().WithAllAppend(Numbers() + Pointers(|compactPointers|), Deletions(|deletedFiles|));
      d.Cleared().WithAllAppend(Numbers(), Pointers(|compactPointers|));
      PointersRebuild(a, |compactPointers|);
      var b := a.WithAll(Pointers(|compactPointers|));
      DeletionsRebuild(b, |deletedFiles|);
      AdditionsRebuild(b.WithAll(Deletions(|deletedFiles|)), |newFiles|);
      assert compactPointers[..|compactPointers|] == compactPointers;
      assert deletedFiles[..|deletedFiles|] == deletedFiles;
      assert newFiles[..|newFiles|] == newFiles;
    }

    lemma {:induction false} NumbersRebuild(d: Edit)
      requires d == d.Cleared()
      ensures d.WithAll(Numbers()) == Edit(comparator, logNumber, prevLogNumber, nextFileNumber, lastSequence,
                                           d.compactPointers, [], [])
    {
      hide WithAll;
      d.AtMostOne([], []);
      d.AtMostOne(NumbersTo(0), OptionalField(Number(0)));
      d.AtMostOne(NumbersTo(1), OptionalField(Number(1)));
      d.AtMostOne(NumbersTo(2), OptionalField(Number(2)));
      d.AtMostOne(NumbersTo(3), OptionalField(Number(3)));
      d.AtMostOne(NumbersTo(4), OptionalField(Number(4)));
    }

    /** With no more field, or one more. */
    lemma {:induction false} AtMostOne(fs: seq<Field>, gs: seq<Field>)
      requires |gs| <= 1
      ensures WithAll(fs + gs) == if gs == [] then WithAll(fs) else WithAll(fs).With(gs[0])
      ensures WithAll([]) == this
    {
      if gs == [] {
        assert fs + gs == fs;
      } else {
        assert (fs + gs)[..|fs|] == fs;
      }
    }

    lemma {:induction false} PointersRebuild(d: Edit, n: nat)
      requires n <= |compactPointers|
      ensures d.WithAll(Pointers(n)) == d.(compactPointers := d.compactPointers + compactPointers[..n])
    {
      if n > 0 {
        assert Pointers(n)[..n - 1] == Pointers(n - 1);
        PointersRebuild(d, n - 1);
        assert compactPointers[..n] == compactPointers[..n - 1] + [compactPointers[n - 1]];
      } else {
        assert d.compactPointers + compactPointers[..0] == d.compactPointers;
      }
    }

    lemma {:induction false} DeletionsRebuild(d: Edit, n: nat)
      requires n <= |deletedFiles| && Ascending(deletedFiles) && d.deletedFiles == []
      ensures d.WithAll(Deletions(n)) == d.(deletedFiles := deletedFiles[..n])
    {
      if n > 0 {
        assert Deletions(n)[..n - 1] == Deletions(n - 1);
        DeletionsRebuild(d, n - 1);
        assert deletedFiles[..n] == deletedFiles[..n - 1] + [deletedFiles[n - 1]];
        InsertLast(deletedFiles[..n - 1], deletedFiles[n - 1]);
      }
    }

    lemma {:induction false} AdditionsRebuild(d: Edit, n: nat)
      requires n <= |newFiles| && d.newFiles == []
      ensures d.WithAll(Additions(n)) == d.(newFiles := newFiles[..n])
    {
      if n > 0 {
        assert Additions(n)[..n - 1] == Additions(n - 1);
        AdditionsRebuild(d, n - 1);
        assert newFiles[..n] == newFiles[..n - 1] + [newFiles[n - 1]];
      }
    }

    lemma {:induction false} NumbersHaveNoLevel(n: nat)
      requires n <= 5
      ensures AllLevelsOk(NumbersTo(n))
    {
      if n > 0 {
        NumbersHaveNoLevel(n - 1);
      }
    }

    lemma {:induction false} FieldLevels()
      ensures AllLevelsOk(Fields()) <==> LevelsOk()
    {
      hide NumbersTo;
      var fs, n, p, q := Fields(), |Numbers()|, |compactPointers|, |deletedFiles|;
      NumbersHaveNoLevel(5);
      if AllLevelsOk(fs) {
        forall x <- compactPointers ensures x.0 < Versions.NUM_LEVELS {
          var i :| 0 <= i < p && compactPointers[i] == x;
          assert fs[n + i] == CompactPointer(x.0, x.1) && fs[n + i].LevelOk();
        }
        forall x <- deletedFiles ensures x.0 < Versions.NUM_LEVELS {
          var i :| 0 <= i < q && deletedFiles[i] == x;
          assert fs[n + p + i] == DeletedFile(x.0, x.1) && fs[n + p + i].LevelOk();
        }
        forall x <- newFiles ensures x.0 < Versions.NUM_LEVELS {
          var i :| 0 <= i < |newFiles| && newFiles[i] == x;
          assert fs[n + p + q + i] == NewFile(x.0, x.1) && fs[n + p + q + i].LevelOk();
        }
      }
    }
  }

  /** Decoding into edit d what was encoded from e. */
  ghost function Decoded(d: Edit, src: Bytes): (Edit, bool) {
    (d.Cleared().WithAll(Parse(src).0), Parse(src).1)
  }

  lemma {:induction false} FieldLevel(input: Bytes)
    ensures ParseField(input).Some? ==> ParseField(input).value.0.LevelOk()
  {
    hide GetVarint32, GetVarint64, GetLengthPrefixed, ParseFile;
  }

  /** A field with a level that does not exist is never accepted. */
  lemma {:induction false} ParsedLevels(input: Bytes)
    ensures AllLevelsOk(Parse(input).0)
    decreases |input|
  {
    hide ParseField, Field.LevelOk;
    FieldLevel(input);
    if ParseField(input).Some? {
      ParsedLevels(ParseField(input).value.1);
    }
  }

  lemma {:induction false} LevelsStayOk(d: Edit, fs: seq<Field>)
    requires d.LevelsOk() && AllLevelsOk(fs)
    ensures d.WithAll(fs).LevelsOk()
  {
    if fs != [] {
      LevelsStayOk(d, fs[..|fs| - 1]);
      var e, f := d.WithAll(fs[..|fs| - 1]), fs[|fs| - 1];
      assert f.LevelOk();
    }
  }

  /** So whatever bytes are decoded, all levels of the edit exist. */
  lemma {:induction false} DecodedLevels(d: Edit, src: Bytes)
    requires d.LevelsOk()
    ensures Decoded(d, src).0.LevelsOk()
  {
    hide Parse;
    ParsedLevels(src);
    LevelsStayOk(d.Cleared(), Parse(src).0);
  }

  /** Decoding succeeds exactly when all levels exist.  It then gives the edit back, after the
      compaction pointers that were there before. */
  lemma {:induction false} EditRoundTrip(e: Edit, d: Edit)
    requires e.Valid()
    ensures Decoded(d, Encoded(e.Fields())).1 <==> e.LevelsOk()
    ensures e.LevelsOk() ==>
            Decoded(d, Encoded(e.Fields())).0 == e.(compactPointers := d.compactPointers + e.compactPointers)
  {
    hide Parse, Encoded, Edit.Fields, Edit.WithAll;
    FieldsRoundTrip(e.Fields());
    e.FieldLevels();
    e.FieldsRebuild(d);
  }

  /** So it is exact if and only if d had no compaction pointers. */
  lemma {:induction false} ExactIffNoPointers(e: Edit, d: Edit)
    requires e.Valid() && e.LevelsOk()
    ensures Decoded(d, Encoded(e.Fields())).0 == e <==> d.compactPointers == []
  {
    EditRoundTrip(e, d);
    assert |d.compactPointers + e.compactPointers| == |d.compactPointers| + |e.compactPointers|;
    assert d.compactPointers == [] ==> d.compactPointers + e.compactPointers == e.compactPointers;
  }

  const NO_EDIT: Edit := Edit(None, None, None, None, None, [], [], [])

  /** Decoding the empty edit into one that has a pointer. */
  lemma {:induction false} PointersSurviveClear()
    ensures Decoded(NO_EDIT.(compactPointers := [(1, [])]), Encoded(NO_EDIT.Fields())).0 != NO_EDIT
  {
    ExactIffNoPointers(NO_EDIT, NO_EDIT.(compactPointers := [(1, [])]));
  }

  // ---------- the class ----------

  class VersionEdit {
    var comparator: Option<Bytes>
    var logNumber: Option<nat>
    var prevLogNumber: Option<nat>
    var nextFileNumber: Option<nat>
    var lastSequence: Option<nat>
    var compactPointers: seq<(nat, Bytes)>
    var deletedFiles: seq<(nat, nat)>
    var newFiles: seq<(nat, FileRecord)>

    function View(): Edit
      reads this
    {
      Edit(comparator, logNumber, prevLogNumber, nextFileNumber, lastSequence, compactPointers, deletedFiles, newFiles)
    }

    constructor ()
      ensures View() == NO_EDIT
    {
      comparator, logNumber, prevLogNumber, nextFileNumber, lastSequence := None, None, None, None, None;
      compactPointers, deletedFiles, newFiles := [], [], [];
    }

    method Clear()
      modifies this
      ensures View() == old(View()).Cleared()
    {
      comparator, logNumber, prevLogNumber, nextFileNumber, lastSequence := None, None, None, None, None;
      deletedFiles, newFiles := [], [];
    }

    method AddFile(level: nat, file: nat, fileSize: nat, smallest: Bytes, largest: Bytes)
      modifies this`newFiles
      ensures View() == old(View()).With(NewFile(level, FileRecord(file, fileSize, smallest, largest)))
    {
      newFiles := newFiles + [(level, FileRecord(file, fileSize, smallest, largest))];
    }

    method DeleteFile(level: nat, file: nat)
      modifies this`deletedFiles
      ensures View() == old(View()).With(DeletedFile(level, file))
    {
      deletedFiles := InsertPair(deletedFiles, (level, file));
    }

    method EncodeTo(dst: Bytes) returns (r: Bytes)
      requires View().Valid()
      ensures r == dst + Encoded(View().Fields())
    {
      hide Field.Encode, Encoded, Field.Fits, Edit.Numbers;
      ghost var e := View();
      FitsInParts(e);
      r := EncodeNumbers(dst);
      assert e.Numbers() == e.Numbers() + e.Pointers(0);
      for i := 0 to |compactPointers|
        invariant r == dst + Encoded(e.Numbers() + e.Pointers(i))
      {
        ghost var f := CompactPointer(compactPointers[i].0, compactPointers[i].1);
        assert e.Pointers(i + 1) == e.Pointers(i) + [f];
        r := PutField(r, dst, e.Numbers() + e.Pointers(i), CompactPointer(compactPointers[i].0, compactPointers[i].1));
        assert e.Numbers() + e.Pointers(i + 1) == e.Numbers() + e.Pointers(i) + [f];
      }
      ghost var pointers := e.Numbers() + e.Pointers(|compactPointers|);
      assert pointers == pointers + e.Deletions(0);
      for i := 0 to |deletedFiles|
        invariant r == dst + Encoded(pointers + e.Deletions(i))
      {
        ghost var f := DeletedFile(deletedFiles[i].0, deletedFiles[i].1);
        assert e.Deletions(i + 1) == e.Deletions(i) + [f];
        r := PutField(r, dst, pointers + e.Deletions(i), DeletedFile(deletedFiles[i].0, deletedFiles[i].1));
        assert pointers + e.Deletions(i + 1) == pointers + e.Deletions(i) + [f];
      }
      ghost var deletions := pointers + e.Deletions(|deletedFiles|);
      assert deletions == deletions + e.Additions(0);
      for i := 0 to |newFiles|
        invariant r == dst + Encoded(deletions + e.Additions(i))
      {
        ghost var f := NewFile(newFiles[i].0, newFiles[i].1);
        assert e.Additions(i + 1) == e.Additions(i) + [f];
        r := PutField(r, dst, deletions + e.Additions(i), NewFile(newFiles[i].0, newFiles[i].1));
        assert deletions + e.Additions(i + 1) == deletions + e.Additions(i) + [f];
      }
    }

    static lemma {:induction false} FitsInParts(e: Edit)
      requires e.Valid()
      ensures AllFit(e.Numbers())
      ensures forall i :: 0 <= i < |e.compactPointers| ==> CompactPointer(e.compactPointers[i].0,
                                                                          e.compactPointers[i].1).Fits()
      ensures forall i :: 0 <= i < |e.deletedFiles| ==> DeletedFile(e.deletedFiles[i].0, e.deletedFiles[i].1).Fits()
      ensures forall i :: 0 <= i < |e.newFiles| ==> NewFile(e.newFiles[i].0, e.newFiles[i].1).Fits()
    {
      hide Field.Fits, Edit.Numbers;
      var fs, n, p, q := e.Fields(), |e.Numbers()|, |e.compactPointers|, |e.deletedFiles|;
      assert forall i :: 0 <= i < n ==> e.Numbers()[i] == fs[i];
      assert forall i :: 0 <= i < p ==> CompactPointer(e.compactPointers[i].0, e.compactPointers[i].1) == fs[n + i];
      assert forall i :: 0 <= i < q ==> DeletedFile(e.deletedFiles[i].0, e.deletedFiles[i].1) == fs[n + p + i];
      assert forall i :: 0 <= i < |e.newFiles| ==> NewFile(e.newFiles[i].0, e.newFiles[i].1) == fs[n + p + q + i];
    }

    /** One field after those already written behind dst. */
    static method PutField(r: Bytes, ghost dst: Bytes, ghost fs: seq<Field>, f: Field) returns (r': Bytes)
      requires f.Fits() && r == dst + Encoded(fs)
      ensures r' == dst + Encoded(fs + [f])
    {
      hide Encoded, Varint, Field.Body, Field.Fits;
      EncodedOne(fs, f);
      r' := PutVarint32(r, f.Tag());
      r' := PutBody(r', f);
    }

    static method PutBody(r: Bytes, f: Field) returns (r': Bytes)
      requires f.Fits()
      ensures r' == r + f.Body()
    {
      hide Varint, LengthPrefixed;
      match f {
        case Comparator(name) =>
          r' := PutLengthPrefixed(r, name);
        case CompactPointer(level, key) =>
          r' := PutVarint32(r, level);
          r' := PutLengthPrefixed(r', key);
        case DeletedFile(level, number) =>
          r' := PutVarint32(r, level);
          r' := PutVarint64(r', number);
        case NewFile(level, file) =>
          r' := PutVarint32(r, level);
          r' := PutFile(r', file);
        case _ =>
          r' := PutVarint64(r, f.number);
      }
    }

    static method PutFile(r: Bytes, file: FileRecord) returns (r': Bytes)
      requires file.number < TWO64 && file.fileSize < TWO64 && |file.smallest| < TWO32 && |file.largest| < TWO32
      ensures r' == r + (Varint(file.number) + (Varint(file.fileSize)
                                                + (LengthPrefixed(file.smallest) + LengthPrefixed(file.largest))))
    {
      hide Varint, LengthPrefixed;
      r' := PutVarint64(r, file.number);
      r' := PutVarint64(r', file.fileSize);
      r' := PutLengthPrefixed(r', file.smallest);
      r' := PutLengthPrefixed(r', file.largest);
    }

    /** PutLengthPrefixedSlice. */
    static method PutLengthPrefixed(dst: Bytes, s: Bytes) returns (r: Bytes)
      requires |s| < TWO32
      ensures r == dst + LengthPrefixed(s)
    {
      r := PutVarint32(dst, |s|);
      r := r + s;
    }

    method EncodeNumbers(dst: Bytes) returns (r: Bytes)
      requires AllFit(View().Numbers())
      ensures r == dst + Encoded(View().Numbers())
    {
      hide Encoded, Field.Fits;
      NothingEncoded();
      NumbersFit(View(), 0);
      r := PutOptional(dst, dst, View().NumbersTo(0), if comparator.Some? then Some(Comparator(comparator.value))
                       else None);
      NumbersFit(View(), 1);
      r := PutOptional(r, dst, View().NumbersTo(1), if logNumber.Some? then Some(LogNumber(logNumber.value)) else None);
      NumbersFit(View(), 2);
      r := PutOptional(r, dst, View().NumbersTo(2), if prevLogNumber.Some?
                       then Some(PrevLogNumber(prevLogNumber.value)) else None);
      NumbersFit(View(), 3);
      r := PutOptional(r, dst, View().NumbersTo(3), if nextFileNumber.Some?
                       then Some(NextFileNumber(nextFileNumber.value)) else None);
      NumbersFit(View(), 4);
      r := PutOptional(r, dst, View().NumbersTo(4), if lastSequence.Some? then Some(LastSequence(lastSequence.value))
                       else None);
    }

    static lemma {:induction false} NumbersFit(e: Edit, i: nat)
      requires AllFit(e.Numbers()) && i < 5
      ensures e.Number(i).Some? ==> e.Number(i).value.Fits()
    {
      NumbersPrefix(e, i + 1, 5);
      if e.Number(i).Some? {
        assert e.NumbersTo(i + 1)[|e.NumbersTo(i)|] == e.Number(i).value;
        assert e.NumbersTo(5)[|e.NumbersTo(i)|] == e.Number(i).value;
      }
    }

    static lemma {:induction false} NumbersPrefix(e: Edit, i: nat, n: nat)
      requires i <= n <= 5
      ensures e.NumbersTo(i) <= e.NumbersTo(n)
    {
      if i < n {
        NumbersPrefix(e, i, n - 1);
      }
    }

    static method PutOptional(r: Bytes, ghost dst: Bytes, ghost fs: seq<Field>, f: Option<Field>) returns (r': Bytes)
      requires r == dst + Encoded(fs) && (f.Some? ==> f.value.Fits())
      ensures r' == dst + Encoded(fs + OptionalField(f))
    {
      hide Encoded, Field.Fits;
      if f.Some? {
        r' := PutField(r, dst, fs, f.value);
      } else {
        r' := r;
        assert fs + [] == fs;
      }
    }

    static lemma {:induction false} NothingEncoded()
      ensures Encoded([]) == []
    {
    }

    method DecodeFrom(src: Bytes) returns (ok: bool)
      modifies this
      ensures (View(), ok) == Decoded(old(View()), src)
    {
      hide Parse, ParseBody, GetVarint32, Edit.With, Edit.WithAll, Edit.Cleared;
      Clear();
      ghost var start := View();
      var input := src;
      ghost var done: seq<Field> := [];
      NoneApplied(start);
      assert done + Parse(src).0 == Parse(src).0;
      var msg := false;
      while !msg
        invariant View() == start.WithAll(done)
        invariant Parse(src) == if msg then (done, false) else (done + Parse(input).0, Parse(input).1)
        decreases !msg, |input|
      {
        ParseStep(input);
        assert done + [] == done;
        var tag := GetVarint32(input);
        if tag == None {
          break;
        }
        ghost var field := ParseField(input);
        BodyShrinks(tag.value.0, tag.value.1);
        var rest := DecodeField(tag.value.0, tag.value.1);
        if rest == None {
          msg := true;
        } else {
          start.AtMostOne(done, [field.value.0]);
          ghost var more := Parse(rest.value).0;
          assert done + ([field.value.0] + more) == done + [field.value.0] + more;
          done := done + [field.value.0];
          input := rest.value;
        }
      }
      ok := !msg && input == [];
    }

    static lemma {:induction false} NoneApplied(e: Edit)
      ensures e.WithAll([]) == e
    {
    }

    static lemma {:induction false} ParseStep(input: Bytes)
      ensures match ParseField(input)
              case None => Parse(input) == ([], input == [])
              case Some(f) => Parse(input) == ([f.0] + Parse(f.1).0, Parse(f.1).1)
      ensures GetVarint32(input).Some? ==> input != []
      ensures ParseField(input) == match GetVarint32(input) case None => None case Some(tag) => ParseBody(tag.0, tag.1)
    {
      hide ParseBody;
    }

    /** The switch of DecodeFrom: on success, what is left of the input. */
    method DecodeField(tag: nat, input: Bytes) returns (rest: Option<Bytes>)
      modifies this
      ensures match ParseBody(tag, input)
              case None => rest == None && View() == old(View())
              case Some(f) => rest == Some(f.1) && View() == old(View()).With(f.0)
    {
      hide GetVarint64, GetLengthPrefixed, GetLevel, ParseFile;
      rest := None;
      if tag == 1 {
        var str := GetLengthPrefixed(input);
        if str.Some? {
          comparator := Some(str.value.0);
          rest := Some(str.value.1);
        }
      } else if tag == 2 || tag == 9 || tag == 3 || tag == 4 {
        var number := GetVarint64(input);
        if number.Some? {
          if tag == 2 {
            logNumber := Some(number.value.0);
          } else if tag == 9 {
            prevLogNumber := Some(number.value.0);
          } else if tag == 3 {
            nextFileNumber := Some(number.value.0);
          } else {
            lastSequence := Some(number.value.0);
          }
          rest := Some(number.value.1);
        }
      } else if tag == 5 || tag == 6 || tag == 7 {
        var level := GetLevel(input);
        if level.Some? {
          rest := DecodeAtLevel(tag, level.value.0, level.value.1);
        }
      }
    }

    method DecodeAtLevel(tag: nat, level: nat, input: Bytes) returns (rest: Option<Bytes>)
      requires tag == 5 || tag == 6 || tag == 7
      modifies this`compactPointers, this`deletedFiles, this`newFiles
      ensures if tag == 5 then
                match GetLengthPrefixed(input)
                case None => rest == None && View() == old(View())
                case Some(key) => rest == Some(key.1) && View() == old(View()).With(CompactPointer(level, key.0))
              else if tag == 6 then
                match GetVarint64(input)
                case None => rest == None && View() == old(View())
                case Some(number) => rest == Some(number.1) && View() == old(View()).With(DeletedFile(level, number.0))
              else
                match ParseFile(input)
                case None => rest == None && View() == old(View())
                case Some(f) => rest == Some(f.1) && View() == old(View()).With(NewFile(level, f.0))
    {
      hide GetVarint64, GetLengthPrefixed, ParseFile;
      rest := None;
      if tag == 5 {
        var key := GetLengthPrefixed(input);
        if key.Some? {
          compactPointers := compactPointers + [(level, key.value.0)];
          rest := Some(key.value.1);
        }
      } else if tag == 6 {
        var number := GetVarint64(input);
        if number.Some? {
          deletedFiles := InsertPair(deletedFiles, (level, number.value.0));
          rest := Some(number.value.1);
        }
      } else {
        var f := ParseFile(input);
        if f.Some? {
          newFiles := newFiles + [(level, f.value.0)];
          rest := Some(f.value.1);
        }
      }
    }
  }
}

/** Versions: the immutable set of table files of a database, and the searches
    over them (db/version_set.cc).  A file carries its sorted entries. */
module Versions {
  import opened Wrappers
  import opened InternalKeys

  const NUM_LEVELS := 7
  const MAX_MEM_COMPACT_LEVEL := 2

  datatype FileMeta = FileMeta(number: nat, size: nat, smallest: InternalKey, largest: InternalKey,
                               entries: seq<Entry>)
  {
    ghost predicate Valid() {
      && entries != [] && Sorted(entries)
      && smallest == entries[0].key && largest == entries[|entries| - 1].key
    }
  }

  type Files = seq<FileMeta>

  ghost predicate AllValid(files: Files) {
    forall i :: 0 <= i < |files| ==> files[i].Valid()
  }

  ghost predicate DisjointSorted(files: Files) {
    forall i, j :: 0 <= i < j < |files| ==> Before(files[i].largest, files[j].smallest)
  }

  datatype Version = Version(levels: seq<Files>) {
    ghost predicate Valid() {
      && |levels| == NUM_LEVELS
      && (forall l :: 0 <= l < NUM_LEVELS ==> AllValid(levels[l]))
      && (forall l :: 1 <= l < NUM_LEVELS ==> DisjointSorted(levels[l]))
    }

    ghost predicate Holds(e: Entry) {
      exists l, f :: 0 <= l < |levels| && f in levels[l] && e in f.entries
    }

    /** Files that a read consults earlier hold younger versions. */
    ghost predicate LayersOrdered() {
      && (forall l, m :: 0 <= l < m < |levels| ==> LevelNewer(levels[l], levels[m]))
      && (|levels| > 0 ==> NewestFirstOrdered(levels[0]))
    }
  }

  ghost predicate LevelNewer(upper: Files, lower: Files) {
    forall f, g :: f in upper && g in lower ==> Newer(f.entries, g.entries)
  }

  ghost predicate NewestFirstOrdered(files: Files) {
    forall f, g :: f in files && g in files && f != g ==>
      f.number != g.number && (f.number > g.number ==> Newer(f.entries, g.entries))
  }

  lemma {:induction false} FileBounds(f: FileMeta, e: Entry)
    requires f.Valid() && e in f.entries
    ensures !Before(e.key, f.smallest) && !Before(f.largest, e.key)
    ensures f.smallest.user <= e.key.user <= f.largest.user
  {
  }

  // ---------- binary search over a level ----------

  /** Where the search ends, on any list of files. */
  function SearchFiles(files: Files, key: InternalKey, left: nat, right: nat): (r: nat)
    requires left <= right <= |files|
    ensures left <= r <= right
    decreases right - left
  {
    if left == right then left else
    var mid := (left + right) / 2;
    if Before(files[mid].largest, key) then SearchFiles(files, key, mid + 1, right)
    else SearchFiles(files, key, left, mid)
  }

  /** In a sorted level, the earliest file whose largest key is at or after the target. */
  method FindFile(files: Files, key: InternalKey) returns (right: nat)
    ensures right <= |files| && right == SearchFiles(files, key, 0, |files|)
    ensures AllValid(files) && DisjointSorted(files) ==>
              && (forall i :: 0 <= i < right ==> Before(files[i].largest, key))
              && (forall i :: right <= i < |files| ==> !Before(files[i].largest, key))
  {
    hide SearchFiles, AllValid, DisjointSorted;
    ghost var sorted := AllValid(files) && DisjointSorted(files);
    if sorted {
      LargestIncreases(files);
    }
    var left := 0;
    right := |files|;
    while left < right
      invariant left <= right <= |files|
      invariant SearchFiles(files, key, left, right) == SearchFiles(files, key, 0, |files|)
      invariant sorted ==> forall i :: 0 <= i < left ==> Before(files[i].largest, key)
      invariant sorted ==> forall i :: right <= i < |files| ==> !Before(files[i].largest, key)
    {
      SearchStep(files, key, left, right);
      var mid := (left + right) / 2;
      if Before(files[mid].largest, key) {
        left := mid + 1;
      } else {
        right := mid;
      }
    }
    SearchStep(files, key, left, right);
  }

  lemma {:induction false} SearchStep(files: Files, key: InternalKey, left: nat, right: nat)
    requires left <= right <= |files|
    ensures left == right ==> SearchFiles(files, key, left, right) == left
    ensures left < right ==>
              var mid := (left + right) / 2;
              SearchFiles(files, key, left, right) ==
              if Before(files[mid].largest, key) then SearchFiles(files, key, mid + 1, right)
              else SearchFiles(files, key, left, mid)
  {
  }

  lemma {:induction false} LargestIncreases(files: Files)
    requires AllValid(files) && DisjointSorted(files)
    ensures forall i, j :: 0 <= i < j < |files| ==> Before(files[i].largest, files[j].largest)
  {
    forall i, j | 0 <= i < j < |files| ensures Before(files[i].largest, files[j].largest) {
      FileBounds(files[j], files[j].entries[0]);
    }
  }

  // ---------- overlap of a user-key range ----------

  predicate AfterFile(user: Option<UserKey>, f: FileMeta) {
    user.Some? && user.value > f.largest.user
  }

  predicate BeforeFile(user: Option<UserKey>, f: FileMeta) {
    user.Some? && user.value < f.smallest.user
  }

  /** The file meets the closed user-key range; a missing bound is unbounded. */
  predicate Overlaps(f: FileMeta, lo: Option<UserKey>, hi: Option<UserKey>) {
    !AfterFile(lo, f) && !BeforeFile(hi, f)
  }

  method SomeFileOverlapsRange(disjointSorted: bool, files: Files, lo: Option<UserKey>, hi: Option<UserKey>)
    returns (overlap: bool)
    requires AllValid(files)
    requires disjointSorted ==> DisjointSorted(files)
    ensures overlap <==> exists i :: 0 <= i < |files| && Overlaps(files[i], lo, hi)
  {
    if !disjointSorted {
      for i := 0 to |files|
        invariant forall j :: 0 <= j < i ==> !Overlaps(files[j], lo, hi)
      {
        if AfterFile(lo, files[i]) || BeforeFile(hi, files[i]) {
          // no overlap
        } else {
          return true;
        }
      }
      return false;
    }
    var index := 0;
    if lo.Some? {
      index := FindFile(files, LookupKey(lo.value, MAX_SEQUENCE_NUMBER));
    }
    SmallestIncreases(files);
    if index >= |files| {
      assert forall j :: 0 <= j < |files| ==> AfterFile(lo, files[j]);
      return false;
    }
    assert !AfterFile(lo, files[index]);
    assert forall j :: 0 <= j < index ==> AfterFile(lo, files[j]);
    return !BeforeFile(hi, files[index]);
  }

  lemma {:induction false} SmallestIncreases(files: Files)
    requires AllValid(files) && DisjointSorted(files)
    ensures forall i, j :: 0 <= i < j < |files| ==> files[i].smallest.user <= files[j].smallest.user
  {
    forall i, j | 0 <= i < j < |files| ensures files[i].smallest.user <= files[j].smallest.user {
      FileBounds(files[i], files[i].entries[0]);
    }
  }

  // ---------- files overlapping a range, closed at level 0 ----------

  /** The files, in order, that meet the range. */
  function Overlapping(files: Files, lo: Option<UserKey>, hi: Option<UserKey>): (r: Files)
    ensures forall f :: f in r <==> f in files && Overlaps(f, lo, hi)
  {
    if files == [] then [] else
    var n := |files| - 1;
    Overlapping(files[..n], lo, hi) + if Overlaps(files[n], lo, hi) then [files[n]] else []
  }

  /** Every file that meets the range lies inside it. */
  ghost predicate ClosedRange(files: Files, lo: Option<UserKey>, hi: Option<UserKey>) {
    forall f :: f in files && Overlaps(f, lo, hi) ==>
      (lo.Some? ==> lo.value <= f.smallest.user) && (hi.Some? ==> f.largest.user <= hi.value)
  }

  /** Range (lo, hi) contains range (a, b), with the same sides unbounded. */
  ghost predicate Contains(lo: Option<UserKey>, hi: Option<UserKey>, a: Option<UserKey>, b: Option<UserKey>) {
    && lo.Some? == a.Some? && hi.Some? == b.Some?
    && (lo.Some? ==> lo.value <= a.value) && (hi.Some? ==> b.value <= hi.value)
  }

  /** Every closed range around (a, b) contains (lo, hi). */
  ghost predicate Least(files: Files, a: Option<UserKey>, b: Option<UserKey>,
                        lo: Option<UserKey>, hi: Option<UserKey>)
  {
    forall x, y :: Contains(x, y, a, b) && ClosedRange(files, x, y) ==> Contains(x, y, lo, hi)
  }

  /** The least closed range around (a, b): what the level-0 restarts compute. */
  ghost predicate LeastClosedRange(files: Files, a: Option<UserKey>, b: Option<UserKey>,
                                   lo: Option<UserKey>, hi: Option<UserKey>)
  {
    Contains(lo, hi, a, b) && ClosedRange(files, lo, hi) && Least(files, a, b, lo, hi)
  }

  function UserOf(k: Option<InternalKey>): Option<UserKey> {
    if k.None? then None else Some(k.value.user)
  }

  /** How many ends of the file stick out of the range. */
  ghost function EndsOutside(f: FileMeta, lo: Option<UserKey>, hi: Option<UserKey>): nat {
    (if lo.Some? && f.smallest.user < lo.value then 1 else 0) +
    (if hi.Some? && f.largest.user > hi.value then 1 else 0)
  }

  /** The termination measure of the restarts: file ends still outside the range. */
  ghost function Outside(files: Files, lo: Option<UserKey>, hi: Option<UserKey>): nat {
    if files == [] then 0 else EndsOutside(files[0], lo, hi) + Outside(files[1..], lo, hi)
  }

  lemma {:induction false} OutsideFalls(files: Files, lo: Option<UserKey>, hi: Option<UserKey>,
                                        x: Option<UserKey>, y: Option<UserKey>, f: FileMeta)
    requires Contains(x, y, lo, hi)
    ensures Outside(files, x, y) <= Outside(files, lo, hi)
    ensures f in files && EndsOutside(f, x, y) < EndsOutside(f, lo, hi)
            ==> Outside(files, x, y) < Outside(files, lo, hi)
  {
    if files != [] {
      OutsideFalls(files[1..], lo, hi, x, y, f);
      assert EndsOutside(files[0], x, y) <= EndsOutside(files[0], lo, hi);
    }
  }

  /** What holds of the range at every restart. */
  ghost predicate Grown(files: Files, a: Option<UserKey>, b: Option<UserKey>,
                        lo: Option<UserKey>, hi: Option<UserKey>)
  {
    Contains(lo, hi, a, b) && Least(files, a, b, lo, hi)
  }

  /** Growing the range to take in a file that sticks out of it keeps it least. */
  lemma {:induction false} GrowOnce(files: Files, a: Option<UserKey>, b: Option<UserKey>,
                 lo: Option<UserKey>, hi: Option<UserKey>, f: FileMeta, x: Option<UserKey>, y: Option<UserKey>)
    requires Grown(files, a, b, lo, hi) && f in files && Overlaps(f, lo, hi)
    requires (x == Some(f.smallest.user) && y == hi && lo.Some? && x.value < lo.value) ||
             (x == lo && y == Some(f.largest.user) && hi.Some? && y.value > hi.value)
    ensures Grown(files, a, b, x, y) && Outside(files, x, y) < Outside(files, lo, hi)
  {
    OutsideFalls(files, lo, hi, x, y, f);
    forall p, q | Contains(p, q, a, b) && ClosedRange(files, p, q) ensures Contains(p, q, x, y) {
      assert Overlaps(f, p, q);
    }
  }

  lemma {:induction false} ExtendPrefix(files: Files, i: nat, lo: Option<UserKey>, hi: Option<UserKey>)
    requires i < |files|
    ensures Overlapping(files[..i + 1], lo, hi) ==
            Overlapping(files[..i], lo, hi) + if Overlaps(files[i], lo, hi) then [files[i]] else []
    ensures ClosedRange(files[..i], lo, hi) && ClosedRange([files[i]], lo, hi) ==> ClosedRange(files[..i + 1], lo, hi)
  {
    assert files[..i + 1][..i] == files[..i];
    assert files[..i + 1] == files[..i] + [files[i]];
  }

  method GetOverlappingInputs(level: nat, files: Files, begin: Option<InternalKey>, end: Option<InternalKey>)
    returns (inputs: Files, ghost lo: Option<UserKey>, ghost hi: Option<UserKey>)
    ensures inputs == Overlapping(files, lo, hi)
    ensures level > 0 ==> lo == UserOf(begin) && hi == UserOf(end)
    ensures level == 0 ==> LeastClosedRange(files, UserOf(begin), UserOf(end), lo, hi)
  {
    var userBegin, userEnd := UserOf(begin), UserOf(end);
    inputs := [];
    var i := 0;
    while i < |files|
      invariant i <= |files|
      invariant inputs == Overlapping(files[..i], userBegin, userEnd)
      invariant level > 0 ==> userBegin == UserOf(begin) && userEnd == UserOf(end)
      invariant level == 0 ==> ClosedRange(files[..i], userBegin, userEnd)
      invariant Grown(files, UserOf(begin), UserOf(end), userBegin, userEnd)
      decreases Outside(files, userBegin, userEnd), |files| - i
    {
      var f := files[i];
      ExtendPrefix(files, i, userBegin, userEnd);
      i := i + 1;
      if userBegin.Some? && f.largest.user < userBegin.value {
        // before the range
      } else if userEnd.Some? && f.smallest.user > userEnd.value {
        // after the range
      } else {
        inputs := inputs + [f];
        if level == 0 {
          ghost var a, b := userBegin, userEnd;
          if userBegin.Some? && f.smallest.user < userBegin.value {
            userBegin := Some(f.smallest.user);
            inputs := [];
            i := 0;
            GrowOnce(files, UserOf(begin), UserOf(end), a, b, f, userBegin, userEnd);
          } else if userEnd.Some? && f.largest.user > userEnd.value {
            userEnd := Some(f.largest.user);
            inputs := [];
            i := 0;
            GrowOnce(files, UserOf(begin), UserOf(end), a, b, f, userBegin, userEnd);
          }
        }
      }
    }
    assert files[..i] == files;
    lo, hi := userBegin, userEnd;
  }

  // ---------- where a flushed memtable goes ----------

  function TotalFileSize(files: Files): nat {
    if files == [] then 0 else files[0].size + TotalFileSize(files[1..])
  }

  ghost predicate NoOverlap(files: Files, lo: UserKey, hi: UserKey) {
    forall i :: 0 <= i < |files| ==> !Overlaps(files[i], Some(lo), Some(hi))
  }

  /** A new file for the range may be pushed from `level` to the next one. */
  ghost predicate MayPush(v: Version, level: nat, lo: UserKey, hi: UserKey, maxFileSize: nat)
    requires |v.levels| == NUM_LEVELS && level + 1 < NUM_LEVELS
  {
    && NoOverlap(v.levels[level + 1], lo, hi)
    && (level + 2 < NUM_LEVELS ==>
          TotalFileSize(Overlapping(v.levels[level + 2], Some(lo), Some(hi))) <= 10 * maxFileSize)
  }

  /** A new file for the range goes to `level`: to level 0 if it overlaps a file there, else as
      deep as it may be pushed, and no deeper than level 2. */
  ghost predicate GoesTo(v: Version, level: nat, lo: UserKey, hi: UserKey, maxFileSize: nat)
    requires |v.levels| == NUM_LEVELS
  {
    && level <= MAX_MEM_COMPACT_LEVEL
    && (level > 0 ==> NoOverlap(v.levels[0], lo, hi))
    && (forall l :: 0 <= l < level ==> MayPush(v, l, lo, hi, maxFileSize))
    && (level < MAX_MEM_COMPACT_LEVEL && NoOverlap(v.levels[0], lo, hi) ==> !MayPush(v, level, lo, hi, maxFileSize))
  }

  /** There is one such level. */
  lemma {:induction false} GoesToOneLevel(v: Version, a: nat, b: nat, lo: UserKey, hi: UserKey, maxFileSize: nat)
    requires |v.levels| == NUM_LEVELS && GoesTo(v, a, lo, hi, maxFileSize) && GoesTo(v, b, lo, hi, maxFileSize)
    ensures a == b
  {
  }

  /** The one level that the new file goes to. */
  method PickLevelForMemTableOutput(v: Version, lo: UserKey, hi: UserKey, maxFileSize: nat) returns (level: nat)
    requires v.Valid()
    ensures GoesTo(v, level, lo, hi, maxFileSize)
  {
    hide Overlaps, FileMeta.Valid, Before, TotalFileSize, Sorted;
    level := 0;
    var overlap := SomeFileOverlapsRange(false, v.levels[0], Some(lo), Some(hi));
    if !overlap {
      while level < MAX_MEM_COMPACT_LEVEL
        invariant level <= MAX_MEM_COMPACT_LEVEL
        invariant forall l :: 0 <= l < level ==> MayPush(v, l, lo, hi, maxFileSize)
      {
        overlap := SomeFileOverlapsRange(true, v.levels[level + 1], Some(lo), Some(hi));
        if overlap {
          break;
        }
        if level + 2 < NUM_LEVELS {
          var start := InternalKey(lo, MAX_SEQUENCE_NUMBER, Value);
          var limit := InternalKey(hi, 0, Deletion);
          var overlaps, _, _ := GetOverlappingInputs(level + 2, v.levels[level + 2], Some(start), Some(limit));
          if TotalFileSize(overlaps) > 10 * maxFileSize {
            break;
          }
        }
        level := level + 1;
      }
    }
  }

  // ---------- point lookup ----------

  /** What a table reports to the saver for lookup key (k, s): the first entry at or after
      it, when that entry has the same user key. */
  function TableGet(f: FileMeta, k: UserKey, s: SequenceNumber): Option<Entry> {
    var i := SeekIndex(f.entries, LookupKey(k, s));
    if i < |f.entries| && f.entries[i].key.user == k then Some(f.entries[i]) else None
  }

  ghost predicate NoCandidate(files: Files, k: UserKey, s: nat) {
    forall f, x :: f in files && x in f.entries ==> !Candidate(x, k, s)
  }

  ghost predicate NewestInFiles(files: Files, k: UserKey, s: nat, e: Entry) {
    && (exists f :: f in files && e in f.entries) && Candidate(e, k, s)
    && forall f, x :: f in files && x in f.entries && Candidate(x, k, s) ==> x.key.Tag() <= e.key.Tag()
  }

  /** What one file contributes to a read of k at s. */
  ghost predicate Answers(f: FileMeta, k: UserKey, s: SequenceNumber) {
    && (TableGet(f, k, s).Some? ==> NewestIn(f.entries, k, s, TableGet(f, k, s).value))
    && (forall x :: x in f.entries && Candidate(x, k, s) ==> TableGet(f, k, s).Some? && Overlaps(f, Some(k), Some(k)))
  }

  lemma {:induction false} AllAnswer(files: Files, k: UserKey, s: SequenceNumber)
    requires AllValid(files)
    ensures forall f :: f in files ==> Answers(f, k, s)
  {
    forall f | f in files ensures Answers(f, k, s) {
      SeekFindsNewest(f.entries, k, s);
      forall x | x in f.entries && Candidate(x, k, s) ensures Overlaps(f, Some(k), Some(k)) {
        FileBounds(f, x);
      }
    }
  }

  /** In a level of disjoint sorted files only the first file whose largest key is at or
      after the lookup key can answer. */
  lemma {:induction false} LevelLookup(files: Files, index: nat, k: UserKey, s: SequenceNumber)
    requires AllValid(files) && DisjointSorted(files) && index <= |files|
    requires forall i :: 0 <= i < index ==> Before(files[i].largest, LookupKey(k, s))
    requires forall i :: index <= i < |files| ==> !Before(files[i].largest, LookupKey(k, s))
    ensures index == |files| || k < files[index].smallest.user ==> NoCandidate(files, k, s)
    ensures index < |files| ==>
      match TableGet(files[index], k, s)
      case None => NoCandidate(files, k, s)
      case Some(e) => NewestInFiles(files, k, s, e)
  {
    AllAnswer(files, k, s);
    if index < |files| {
      var f := files[index];
      assert Answers(f, k, s);
      forall g, x | g in files && x in g.entries && Candidate(x, k, s)
        ensures k >= f.smallest.user
        ensures TableGet(f, k, s).Some? && x.key.Tag() <= TableGet(f, k, s).value.key.Tag()
      {
        var i :| 0 <= i < |files| && files[i] == g;
        FileBounds(g, x);
        assert index <= i;
        if index < i {
          FirstFileDecides(f, g, k, s, x);
        }
      }
    } else {
      forall g, x | g in files && x in g.entries ensures !Candidate(x, k, s) {
        var i :| 0 <= i < |files| && files[i] == g;
        FileBounds(g, x);
      }
    }
  }

  /** A visible version in a later file has a younger visible one in the first candidate file. */
  lemma {:induction false} FirstFileDecides(f: FileMeta, g: FileMeta, k: UserKey, s: SequenceNumber, x: Entry)
    requires f.Valid() && g.Valid() && Before(f.largest, g.smallest) && !Before(f.largest, LookupKey(k, s))
    requires x in g.entries && Candidate(x, k, s)
    ensures TableGet(f, k, s).Some? && x.key.Tag() < TableGet(f, k, s).value.key.Tag()
    ensures k >= f.smallest.user
  {
    FileBounds(g, x);
    var i := SeekIndex(f.entries, LookupKey(k, s));
    assert i < |f.entries| by {
      assert f.entries[|f.entries| - 1].key == f.largest;
    }
    assert f.entries[i] in f.entries;
    FileBounds(f, f.entries[i]);
  }

  ghost predicate NewestFirst(files: Files) {
    forall i, j :: 0 <= i < j < |files| ==> files[i].number >= files[j].number
  }

  /** std::sort with NewestFirst. */
  function SortNewestFirst(files: Files): (r: Files)
    ensures NewestFirst(r)
    ensures forall g :: g in r <==> g in files
  {
    if files == [] then [] else InsertNewestFirst(files[0], SortNewestFirst(files[1..]))
  }

  function InsertNewestFirst(f: FileMeta, files: Files): (r: Files)
    requires NewestFirst(files)
    ensures NewestFirst(r)
    ensures forall g :: g in r <==> g == f || g in files
  {
    if files == [] || f.number >= files[0].number then [f] + files
    else
      var rest := InsertNewestFirst(f, files[1..]);
      assert forall i :: 0 <= i < |rest| ==> rest[i] in rest;
      [files[0]] + rest
  }

  ghost predicate NewestInVersion(v: Version, k: UserKey, s: nat, e: Entry) {
    && v.Holds(e) && Candidate(e, k, s)
    && forall x :: v.Holds(x) && Candidate(x, k, s) ==> x.key.Tag() <= e.key.Tag()
  }

  /** The entry that decides a read of k at s: the newest visible version in any file. */
  method Get(v: Version, k: UserKey, s: SequenceNumber) returns (hit: Option<Entry>)
    requires v.Valid() && v.LayersOrdered()
    ensures hit.None? ==> forall x :: v.Holds(x) ==> !Candidate(x, k, s)
    ensures hit.Some? ==> NewestInVersion(v, k, s, hit.value)
  {
    var level := 0;
    while level < NUM_LEVELS
      invariant level <= NUM_LEVELS
      invariant forall l :: 0 <= l < level ==> NoCandidate(v.levels[l], k, s)
    {
      var files := v.levels[level];
      if level == 0 {
        hit := GetFromLevelZero(files, k, s);
      } else {
        var index := FindFile(files, LookupKey(k, s));
        LevelLookup(files, index, k, s);
        hit := if index < |files| && k >= files[index].smallest.user then TableGet(files[index], k, s) else None;
      }
      if hit.Some? {
        UpperLevelDecides(v, level, k, s, hit.value);
        return;
      }
      level := level + 1;
    }
    return None;
  }

  method FilesCovering(files: Files, k: UserKey) returns (r: Files)
    ensures r == Overlapping(files, Some(k), Some(k))
  {
    r := [];
    for i := 0 to |files|
      invariant r == Overlapping(files[..i], Some(k), Some(k))
    {
      assert files[..i + 1][..i] == files[..i];
      if k >= files[i].smallest.user && k <= files[i].largest.user {
        r := r + [files[i]];
      }
    }
    assert files[..|files|] == files;
  }

  method FirstHit(files: Files, k: UserKey, s: SequenceNumber) returns (i: nat)
    ensures i <= |files|
    ensures forall j :: 0 <= j < i ==> TableGet(files[j], k, s).None?
    ensures i < |files| ==> TableGet(files[i], k, s).Some?
  {
    i := 0;
    while i < |files| && TableGet(files[i], k, s).None?
      invariant i <= |files|
      invariant forall j :: 0 <= j < i ==> TableGet(files[j], k, s).None?
    {
      i := i + 1;
    }
  }

  /** Level-0 files may overlap: search those whose range covers k from newest to oldest. */
  method GetFromLevelZero(files: Files, k: UserKey, s: SequenceNumber) returns (hit: Option<Entry>)
    requires AllValid(files) && NewestFirstOrdered(files)
    ensures hit.None? ==> NoCandidate(files, k, s)
    ensures hit.Some? ==> NewestInFiles(files, k, s, hit.value)
  {
    var tmp := FilesCovering(files, k);
    var sorted := SortNewestFirst(tmp);
    var i := FirstHit(sorted, k, s);
    LevelZeroSearch(files, sorted, i, k, s);
    hit := if i < |sorted| then TableGet(sorted[i], k, s) else None;
  }

  /** A search of the covering files, newest first, that succeeds at position n, or never (n == |sorted|). */
  lemma {:induction false} LevelZeroSearch(files: Files, sorted: Files, n: nat, k: UserKey, s: SequenceNumber)
    requires AllValid(files) && NewestFirstOrdered(files) && n <= |sorted| && NewestFirst(sorted)
    requires forall g :: g in sorted <==> g in Overlapping(files, Some(k), Some(k))
    requires forall i :: 0 <= i < n ==> TableGet(sorted[i], k, s).None?
    requires n < |sorted| ==> TableGet(sorted[n], k, s).Some?
    ensures if n < |sorted| then NewestInFiles(files, k, s, TableGet(sorted[n], k, s).value)
            else NoCandidate(files, k, s)
  {
    hide TableGet, Overlaps, AllValid;
    AllAnswer(files, k, s);
    if n < |sorted| {
      var g := sorted[n];
      assert g in sorted && g in files && Answers(g, k, s);
      forall f, x | f in files && x in f.entries && Candidate(x, k, s)
        ensures x.key.Tag() <= TableGet(g, k, s).value.key.Tag()
      {
        assert f in Overlapping(files, Some(k), Some(k));
        var j :| 0 <= j < |sorted| && sorted[j] == f;
        assert j >= n && g.number >= f.number;
        assert f != g ==> Newer(g.entries, f.entries);
      }
    } else {
      forall f, x | f in files && x in f.entries ensures !Candidate(x, k, s) {
        assert Overlaps(f, Some(k), Some(k)) ==> f in sorted;
      }
    }
  }

  lemma {:induction false} UpperLevelDecides(v: Version, level: nat, k: UserKey, s: SequenceNumber, e: Entry)
    requires v.LayersOrdered() && level < |v.levels|
    requires forall l :: 0 <= l < level ==> NoCandidate(v.levels[l], k, s)
    requires NewestInFiles(v.levels[level], k, s, e)
    ensures NewestInVersion(v, k, s, e)
  {
    hide Newer;
    var f :| f in v.levels[level] && e in f.entries;
    forall x | v.Holds(x) && Candidate(x, k, s) ensures x.key.Tag() <= e.key.Tag() {
      var m, g :| 0 <= m < |v.levels| && g in v.levels[m] && x in g.entries;
      assert m >= level;
      if m > level {
        assert LevelNewer(v.levels[level], v.levels[m]);
        NewerDecides(f.entries, g.entries, e, x);
      }
    }
  }

  lemma {:induction false} NewerDecides(es: seq<Entry>, xs: seq<Entry>, e: Entry, x: Entry)
    requires Newer(es, xs) && e in es && x in xs && e.key.user == x.key.user
    ensures x.key.Tag() <= e.key.Tag()
  {
  }
}

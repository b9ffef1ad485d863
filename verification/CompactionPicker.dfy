/** Choosing the inputs of a compaction (VersionSet in db/version_set.cc). */
module CompactionPickers {
  import opened Wrappers
  import opened InternalKeys
  import opened Versions

  /** The inputs of one compaction; smallest and largest span the files taken from `level`. */
  datatype Pick = Pick(level: nat, inputs: Files, parentInputs: Files, grandparents: Files,
                       smallest: InternalKey, largest: InternalKey)

  ghost predicate Spans(files: Files, smallest: InternalKey, largest: InternalKey) {
    && (forall f :: f in files ==> !Before(f.smallest, smallest) && !Before(largest, f.largest))
    && (exists f :: f in files && f.smallest == smallest) && (exists f :: f in files && f.largest == largest)
  }

  /** No file left behind meets the user-key range of a file taken. */
  ghost predicate NothingOverlapsLeft(files: Files, taken: Files) {
    forall f, g :: f in files && f !in taken && g in taken ==> !Overlaps(f, Some(g.smallest.user), Some(g.largest.user))
  }

  ghost predicate Subset(xs: Files, ys: Files) {
    forall f :: f in xs ==> f in ys
  }

  /** What every way of picking a compaction guarantees. */
  ghost predicate ValidPick(v: Version, c: Pick) {
    && |v.levels| == NUM_LEVELS && c.level + 1 < NUM_LEVELS
    && c.inputs != [] && Subset(c.inputs, v.levels[c.level])
    && Spans(c.inputs, c.smallest, c.largest)
    && c.parentInputs == Overlapping(v.levels[c.level + 1], Some(c.smallest.user), Some(c.largest.user))
    && (c.level == 0 ==> NothingOverlapsLeft(v.levels[0], c.inputs))
  }

  /** The least internal-key range that covers the inputs. */
  method GetRange(inputs: Files) returns (smallest: InternalKey, largest: InternalKey)
    requires inputs != []
    ensures Spans(inputs, smallest, largest)
  {
    smallest, largest := inputs[0].smallest, inputs[0].largest;
    for i := 1 to |inputs|
      invariant forall j :: 0 <= j < i ==> !Before(inputs[j].smallest, smallest) && !Before(largest, inputs[j].largest)
      invariant exists f :: f in inputs && f.smallest == smallest
      invariant exists f :: f in inputs && f.largest == largest
    {
      if Before(inputs[i].smallest, smallest) {
        smallest := inputs[i].smallest;
      }
      if Before(largest, inputs[i].largest) {
        largest := inputs[i].largest;
      }
    }
  }

  /** The level-0 restarts leave nothing behind that overlaps what they take. */
  lemma {:induction false} ClosedRangeTakesAll(files: Files, lo: Option<UserKey>, hi: Option<UserKey>)
    requires ClosedRange(files, lo, hi)
    ensures NothingOverlapsLeft(files, Overlapping(files, lo, hi))
  {
  }

  /** A nonempty file inside the range is among the overlapping ones. */
  lemma {:induction false} InputsOverlapOwnRange(files: Files, inputs: Files, smallest: InternalKey,
                                                 largest: InternalKey,
                                                 lo: Option<UserKey>, hi: Option<UserKey>)
    requires AllValid(files) && Subset(inputs, files)
    requires forall f :: f in inputs ==> !Before(f.smallest, smallest) && !Before(largest, f.largest)
    requires Contains(lo, hi, Some(smallest.user), Some(largest.user))
    ensures Subset(inputs, Overlapping(files, lo, hi))
  {
    forall f | f in inputs ensures f in Overlapping(files, lo, hi) {
      FileBounds(f, f.entries[0]);
    }
  }

  /** Inputs and parent files that fit together. */
  ghost predicate Matched(v: Version, level: nat, picked: Files, inputs: Files, parents: Files,
                          smallest: InternalKey, largest: InternalKey)
    requires |v.levels| == NUM_LEVELS && level + 1 < NUM_LEVELS
  {
    && inputs != [] && Subset(picked, inputs)
    && ValidPick(v, Pick(level, inputs, parents, [], smallest, largest))
  }

  lemma {:induction false} ExpandedMatches(v: Version, level: nat, picked: Files, parents: Files,
                                           allStart: InternalKey, allLimit: InternalKey,
                                           lo: Option<UserKey>, hi: Option<UserKey>,
                                           newParents: Files, start: InternalKey, limit: InternalKey)
    requires v.Valid() && level + 1 < NUM_LEVELS && picked != [] && Subset(picked, v.levels[level])
    requires Spans(picked + parents, allStart, allLimit)
    requires Contains(lo, hi, Some(allStart.user), Some(allLimit.user))
    requires level == 0 ==> ClosedRange(v.levels[0], lo, hi)
    requires Spans(Overlapping(v.levels[level], lo, hi), start, limit)
    requires newParents == Overlapping(v.levels[level + 1], Some(start.user), Some(limit.user))
    ensures Matched(v, level, picked, Overlapping(v.levels[level], lo, hi), newParents, start, limit)
  {
    InputsOverlapOwnRange(v.levels[level], picked, allStart, allLimit, lo, hi);
    assert picked[0] in picked;
    if level == 0 {
      ClosedRangeTakesAll(v.levels[0], lo, hi);
    }
  }

  /** The files of a level that the range of other files brings in; at level 0 until that range
      is closed under overlap. */
  ghost predicate BroughtIn(v: Version, level: nat, others: Files, r: Files)
    requires |v.levels| == NUM_LEVELS && level < NUM_LEVELS
  {
    exists smallest, largest :: Spans(others, smallest, largest) &&
      if level > 0 then r == Overlapping(v.levels[level], Some(smallest.user), Some(largest.user))
      else IsClosure(v.levels[level], Some(smallest.user), Some(largest.user), r)
  }

  /** More files are taken than picked if they fit the size limit and bring in no further parent. */
  ghost predicate MayExpand(v: Version, level: nat, picked: Files, parents: Files, expanded: Files, maxFileSize: nat)
    requires |v.levels| == NUM_LEVELS && level + 1 < NUM_LEVELS
  {
    && |expanded| > |picked| && TotalFileSize(parents) + TotalFileSize(expanded) < 25 * maxFileSize
    && exists more :: BroughtIn(v, level + 1, expanded, more) && |more| == |parents|
  }

  /** The inputs are all files that picked files and parents bring in, or just those picked. */
  ghost predicate Expansion(v: Version, level: nat, picked: Files, parents: Files, inputs: Files, maxFileSize: nat)
    requires |v.levels| == NUM_LEVELS && level + 1 < NUM_LEVELS
  {
    exists expanded :: BroughtIn(v, level, picked + parents, expanded) &&
      inputs == if MayExpand(v, level, picked, parents, expanded, maxFileSize) then expanded else picked
  }

  /** The files two levels down that meet the range of everything compacted. */
  ghost predicate GrandparentsOk(v: Version, c: Pick)
    requires |v.levels| == NUM_LEVELS
  {
    if c.level + 2 >= NUM_LEVELS then c.grandparents == []
    else BroughtIn(v, c.level + 2, c.inputs + c.parentInputs, c.grandparents)
  }

  /** Which inputs go with the files picked and the parents they bring in. */
  ghost predicate GrownFrom(v: Version, level: nat, picked: Files, parents: Files, inputs: Files, maxFileSize: nat)
    requires |v.levels| == NUM_LEVELS && level + 1 < NUM_LEVELS
  {
    && BroughtIn(v, level + 1, picked, parents)
    && if parents == [] then inputs == picked else Expansion(v, level, picked, parents, inputs, maxFileSize)
  }

  /** What SetupOtherInputs makes of the files picked. */
  ghost predicate SetUp(v: Version, picked: Files, c: Pick, maxFileSize: nat)
    requires |v.levels| == NUM_LEVELS && c.level + 1 < NUM_LEVELS
  {
    && Subset(picked, c.inputs) && GrandparentsOk(v, c)
    && exists parents :: GrownFrom(v, c.level, picked, parents, c.inputs, maxFileSize)
  }

  lemma {:induction false} SpanIsUnique(files: Files, a: InternalKey, b: InternalKey, c: InternalKey, d: InternalKey)
    requires Spans(files, a, b) && Spans(files, c, d)
    ensures a.user == c.user && b.user == d.user
  {
  }

  lemma {:induction false} BroughtInIs(v: Version, level: nat, others: Files, smallest: InternalKey,
                                       largest: InternalKey)
    requires |v.levels| == NUM_LEVELS && 0 < level < NUM_LEVELS && Spans(others, smallest, largest)
    ensures forall r :: BroughtIn(v, level, others, r) <==>
                        r == Overlapping(v.levels[level], Some(smallest.user), Some(largest.user))
  {
    hide Spans, Overlapping;
    forall x, y | Spans(others, x, y) ensures x.user == smallest.user && y.user == largest.user {
      SpanIsUnique(others, smallest, largest, x, y);
    }
  }

  lemma {:induction false} BroughtInHere(v: Version, level: nat, others: Files, smallest: InternalKey,
                                         largest: InternalKey, r: Files, lo: Option<UserKey>, hi: Option<UserKey>)
    requires |v.levels| == NUM_LEVELS && level < NUM_LEVELS && Spans(others, smallest, largest)
    requires r == Overlapping(v.levels[level], lo, hi)
    requires level > 0 ==> lo == Some(smallest.user) && hi == Some(largest.user)
    requires level == 0 ==> LeastClosedRange(v.levels[level], Some(smallest.user), Some(largest.user), lo, hi)
    ensures BroughtIn(v, level, others, r)
  {
    hide Spans, Overlapping, LeastClosedRange;
  }

  /** See if more input files can be taken without changing the number of parent files. */
  method ExpandInputs(v: Version, level: nat, picked: Files, parents: Files,
                      smallest: InternalKey, largest: InternalKey, maxFileSize: nat)
    returns (newInputs: Files, newParents: Files, newSmallest: InternalKey, newLargest: InternalKey)
    requires v.Valid() && level + 1 < NUM_LEVELS && Matched(v, level, picked, picked, parents, smallest, largest)
    ensures Matched(v, level, picked, newInputs, newParents, newSmallest, newLargest)
    ensures Expansion(v, level, picked, parents, newInputs, maxFileSize)
  {
    hide Spans, Matched, BroughtIn, LeastClosedRange, Overlapping;
    MatchedFacts(v, level, picked, picked, parents, smallest, largest);
    newInputs, newParents, newSmallest, newLargest := picked, parents, smallest, largest;
    var allStart, allLimit := GetRange(picked + parents);
    var expanded, lo, hi := GetOverlappingInputs(level, v.levels[level], Some(allStart), Some(allLimit));
    BroughtInHere(v, level, picked + parents, allStart, allLimit, expanded, lo, hi);
    if |expanded| > |picked| && TotalFileSize(parents) + TotalFileSize(expanded) < 25 * maxFileSize {
      var start, limit := GetRange(expanded);
      var expandedParents, _, _ := GetOverlappingInputs(level + 1, v.levels[level + 1], Some(start), Some(limit));
      BroughtInIs(v, level + 1, expanded, start, limit);
      if |expandedParents| == |parents| {
        ExpandedMatches(v, level, picked, parents, allStart, allLimit, lo, hi, expandedParents, start, limit);
        newInputs, newParents, newSmallest, newLargest := expanded, expandedParents, start, limit;
      }
    }
  }

  /** Add the parent files, and more input files when that brings in no further parent. */
  method SetupOtherInputs(v: Version, level: nat, picked: Files, maxFileSize: nat) returns (c: Pick)
    requires v.Valid() && level + 1 < NUM_LEVELS
    requires picked != [] && Subset(picked, v.levels[level])
    requires level == 0 ==> NothingOverlapsLeft(v.levels[0], picked)
    ensures ValidPick(v, c) && c.level == level && SetUp(v, picked, c, maxFileSize)
  {
    hide Overlaps, Before, NothingOverlapsLeft, AllValid, DisjointSorted, Expansion, BroughtIn, ValidPick, Spans,
         Subset, Matched;
    var inputs := picked;
    var smallest, largest := GetRange(inputs);
    var parents, _, _ := GetOverlappingInputs(level + 1, v.levels[level + 1], Some(smallest), Some(largest));
    ghost var found := parents;
    BroughtInIs(v, level + 1, picked, smallest, largest);
    PickedMatches(v, level, picked, parents, smallest, largest);
    if parents != [] {
      inputs, parents, smallest, largest := ExpandInputs(v, level, inputs, parents, smallest, largest, maxFileSize);
    }
    MatchedFacts(v, level, picked, inputs, parents, smallest, largest);
    var grandparents := FindGrandparents(v, level, inputs, parents);
    c := Pick(level, inputs, parents, grandparents, smallest, largest);
    GrandparentsAside(v, c);
    assert GrownFrom(v, level, picked, found, inputs, maxFileSize);
  }

  lemma {:induction false} PickedMatches(v: Version, level: nat, picked: Files, parents: Files,
                                         smallest: InternalKey, largest: InternalKey)
    requires |v.levels| == NUM_LEVELS && level + 1 < NUM_LEVELS
    requires picked != [] && Subset(picked, v.levels[level]) && Spans(picked, smallest, largest)
    requires parents == Overlapping(v.levels[level + 1], Some(smallest.user), Some(largest.user))
    requires level == 0 ==> NothingOverlapsLeft(v.levels[0], picked)
    ensures Matched(v, level, picked, picked, parents, smallest, largest)
  {
    hide Overlaps, Overlapping, NothingOverlapsLeft, Spans;
  }

  lemma {:induction false} MatchedFacts(v: Version, level: nat, picked: Files, inputs: Files, parents: Files,
                                        smallest: InternalKey, largest: InternalKey)
    requires |v.levels| == NUM_LEVELS && level + 1 < NUM_LEVELS
    requires Matched(v, level, picked, inputs, parents, smallest, largest)
    ensures inputs != [] && Subset(picked, inputs)
    ensures ValidPick(v, Pick(level, inputs, parents, [], smallest, largest))
  {
    hide ValidPick, Subset;
  }

  /** The grandparents play no part in what makes a pick valid. */
  lemma {:induction false} GrandparentsAside(v: Version, c: Pick)
    ensures ValidPick(v, c) <==> ValidPick(v, c.(grandparents := []))
  {
    hide Overlapping, NothingOverlapsLeft, Spans, Subset;
  }

  method FindGrandparents(v: Version, level: nat, inputs: Files, parents: Files) returns (grandparents: Files)
    requires v.Valid() && inputs != []
    ensures if level + 2 >= NUM_LEVELS then grandparents == []
            else BroughtIn(v, level + 2, inputs + parents, grandparents)
  {
    grandparents := [];
    if level + 2 < NUM_LEVELS {
      var allStart, allLimit := GetRange(inputs + parents);
      var overlaps, _, _ := GetOverlappingInputs(level + 2, v.levels[level + 2], Some(allStart), Some(allLimit));
      BroughtInIs(v, level + 2, inputs + parents, allStart, allLimit);
      grandparents := overlaps;
    }
  }

  /** The first file past the compaction pointer, or the first of all if there is none. */
  ghost predicate IsSeed(files: Files, compactPointer: Option<InternalKey>, f: FileMeta) {
    || (exists i :: 0 <= i < |files| && files[i] == f && PastPointer(f, compactPointer) &&
          forall j :: 0 <= j < i ==> !PastPointer(files[j], compactPointer))
    || (files != [] && f == files[0] && forall j :: 0 <= j < |files| ==> !PastPointer(files[j], compactPointer))
  }

  predicate PastPointer(f: FileMeta, compactPointer: Option<InternalKey>) {
    compactPointer.None? || Before(compactPointer.value, f.largest)
  }

  /** Start from the first file past the level's compaction pointer, wrapping around. */
  method PickBySize(v: Version, level: nat, compactPointer: Option<InternalKey>, maxFileSize: nat) returns (c: Pick)
    requires v.Valid() && level + 1 < NUM_LEVELS && v.levels[level] != []
    ensures ValidPick(v, c) && c.level == level
    ensures PickedBySize(v, c, compactPointer, maxFileSize)
  {
    hide Before, ValidPick, AllValid, DisjointSorted, PickedFrom;
    var files := v.levels[level];
    var seed := files[0];
    var i := 0;
    while i < |files| && !PastPointer(files[i], compactPointer)
      invariant i <= |files| && forall j :: 0 <= j < i ==> !PastPointer(files[j], compactPointer)
    {
      i := i + 1;
    }
    if i < |files| {
      seed := files[i];
    }
    c := PickFromFile(v, level, seed, maxFileSize);
    assert IsSeed(files, compactPointer, seed);
  }

  /** The pick starts from the seed. */
  ghost predicate PickedBySize(v: Version, c: Pick, compactPointer: Option<InternalKey>, maxFileSize: nat)
    requires |v.levels| == NUM_LEVELS && c.level + 1 < NUM_LEVELS
  {
    exists f :: IsSeed(v.levels[c.level], compactPointer, f) && PickedFrom(v, f, c, maxFileSize)
  }

  /** The pick starts from one file, at level 0 with all files its range grows to overlap. */
  ghost predicate PickedFrom(v: Version, f: FileMeta, c: Pick, maxFileSize: nat)
    requires |v.levels| == NUM_LEVELS && c.level + 1 < NUM_LEVELS
  {
    exists picked ::
      && SetUp(v, picked, c, maxFileSize) && f in picked
      && if c.level > 0 then picked == [f]
         else IsClosure(v.levels[0], Some(f.smallest.user), Some(f.largest.user), picked)
  }

  /** The files that meet the least range around (a, b) that is closed under overlap. */
  ghost predicate IsClosure(files: Files, a: Option<UserKey>, b: Option<UserKey>, picked: Files) {
    exists lo, hi :: LeastClosedRange(files, a, b, lo, hi) && picked == Overlapping(files, lo, hi)
  }

  /** Compact one file; at level 0 together with everything its range grows to overlap. */
  method PickFromFile(v: Version, level: nat, f: FileMeta, maxFileSize: nat) returns (c: Pick)
    requires v.Valid() && level + 1 < NUM_LEVELS && f in v.levels[level]
    ensures ValidPick(v, c) && c.level == level && f in c.inputs && PickedFrom(v, f, c, maxFileSize)
  {
    var picked := [f];
    assert f in picked;
    if level == 0 {
      var smallest, largest := GetRange(picked);
      assert smallest == f.smallest && largest == f.largest;
      var overlaps, lo, hi := GetOverlappingInputs(0, v.levels[0], Some(smallest), Some(largest));
      InputsOverlapOwnRange(v.levels[0], [f], smallest, largest, lo, hi);
      ClosedRangeTakesAll(v.levels[0], lo, hi);
      assert f in [f];
      picked := overlaps;
      assert IsClosure(v.levels[0], Some(f.smallest.user), Some(f.largest.user), picked);
    }
    c := SetupOtherInputs(v, level, picked, maxFileSize);
  }

  /** A manual compaction takes a prefix of the overlapping files, except at level 0. */
  method CompactRange(v: Version, level: nat, begin: Option<InternalKey>, end: Option<InternalKey>, maxFileSize: nat)
    returns (c: Option<Pick>)
    requires v.Valid() && level + 1 < NUM_LEVELS
    ensures c.None? <==> Overlapping(v.levels[level], UserOf(begin), UserOf(end)) == []
    ensures c.Some? ==> ValidPick(v, c.value) && c.value.level == level
    ensures c.Some? ==> PickedInRange(v, UserOf(begin), UserOf(end), c.value, maxFileSize)
  {
    hide ValidPick, AllValid, DisjointSorted, SetUp, Least;
    var inputs, lo, hi := GetOverlappingInputs(level, v.levels[level], begin, end);
    if level == 0 {
      EmptyClosure(v.levels[0], UserOf(begin), UserOf(end), lo, hi);
    }
    if inputs == [] {
      return None;
    }
    if level > 0 {
      inputs := CutInputs(inputs, maxFileSize);
    } else {
      ClosedRangeTakesAll(v.levels[0], lo, hi);
    }
    var pick := SetupOtherInputs(v, level, inputs, maxFileSize);
    return Some(pick);
  }

  /** The pick starts from a front part of the files that meet the range, at level 0 from all
      files that the range grows to overlap. */
  ghost predicate PickedInRange(v: Version, begin: Option<UserKey>, end: Option<UserKey>, c: Pick, maxFileSize: nat)
    requires |v.levels| == NUM_LEVELS && c.level + 1 < NUM_LEVELS
  {
    exists picked ::
      && SetUp(v, picked, c, maxFileSize)
      && if c.level > 0 then CutOff(Overlapping(v.levels[c.level], begin, end), maxFileSize, picked)
         else IsClosure(v.levels[0], begin, end, picked)
  }

  /** The shortest front part of the files that reaches the limit, or all of them. */
  ghost predicate CutOff(files: Files, limit: nat, picked: Files) {
    && picked != [] && picked <= files
    && (|picked| < |files| ==> TotalFileSize(picked) >= limit)
    && forall n :: 0 < n < |picked| ==> TotalFileSize(files[..n]) < limit
  }

  /** Avoid compacting too much in one shot. */
  method CutInputs(inputs: Files, limit: nat) returns (picked: Files)
    requires inputs != []
    ensures CutOff(inputs, limit, picked)
  {
    var total := 0;
    for i := 0 to |inputs|
      invariant total == TotalFileSize(inputs[..i])
      invariant forall n :: 0 < n <= i ==> TotalFileSize(inputs[..n]) < limit
    {
      TotalNext(inputs, i);
      total := total + inputs[i].size;
      if total >= limit {
        return inputs[..i + 1];
      }
    }
    picked := inputs;
  }

  lemma {:induction false} TotalNext(files: Files, i: nat)
    requires i < |files|
    ensures TotalFileSize(files[..i + 1]) == TotalFileSize(files[..i]) + files[i].size
  {
    if i > 0 {
      TotalNext(files[1..], i - 1);
      assert files[..i + 1][1..] == files[1..][..i] && files[..i][1..] == files[1..][..i - 1];
    }
  }

  /** Growing the range finds a first file only if one meets it from the start. */
  lemma {:induction false} EmptyClosure(files: Files, a: Option<UserKey>, b: Option<UserKey>, lo: Option<UserKey>,
                                        hi: Option<UserKey>)
    requires LeastClosedRange(files, a, b, lo, hi)
    ensures Overlapping(files, lo, hi) == [] <==> Overlapping(files, a, b) == []
  {
    if Overlapping(files, a, b) == [] {
      assert forall f :: f in files ==> f !in Overlapping(files, a, b);
      assert Contains(a, b, a, b) && ClosedRange(files, a, b);
    } else {
      var f := Overlapping(files, a, b)[0];
      assert f in Overlapping(files, a, b);
      assert f in Overlapping(files, lo, hi);
    }
  }
}

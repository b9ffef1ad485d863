/** Compactions: the base-level test with its advancing file pointers, and the
    loop that drops superseded entries (db/db_impl.cc, db/version_set.cc). */
module Compactions {
  import opened Wrappers
  import opened InternalKeys
  import opened Versions

  /** No file two or more levels below `level` has k in its range. */
  ghost predicate BaseLevelForKey(v: Version, level: nat, k: UserKey)
    requires |v.levels| == NUM_LEVELS
  {
    forall l, i :: level + 2 <= l < NUM_LEVELS && 0 <= i < |v.levels[l]| ==>
      !(v.levels[l][i].smallest.user <= k <= v.levels[l][i].largest.user)
  }

  /** Rule A: an earlier (newer) entry of the same user key is visible to every live snapshot. */
  ghost predicate Hidden(input: seq<Entry>, i: nat, smallestSnapshot: nat)
    requires i < |input|
  {
    exists j :: 0 <= j < i && input[j].key.user == input[i].key.user && input[j].key.sequence <= smallestSnapshot
  }

  /** Rule B: a deletion marker visible to every live snapshot with nothing below it to hide. */
  ghost predicate Obsolete(e: Entry, smallestSnapshot: nat, v: Version, level: nat)
    requires |v.levels| == NUM_LEVELS
  {
    e.key.kind == Deletion && e.key.sequence <= smallestSnapshot && BaseLevelForKey(v, level, e.key.user)
  }

  /** The entries among the first n that neither rule drops. */
  ghost function Kept(input: seq<Entry>, n: nat, smallestSnapshot: nat, v: Version, level: nat): seq<Entry>
    requires n <= |input| && |v.levels| == NUM_LEVELS
  {
    if n == 0 then [] else
    Kept(input, n - 1, smallestSnapshot, v, level) +
    if Hidden(input, n - 1, smallestSnapshot) || Obsolete(input[n - 1], smallestSnapshot, v, level)
    then [] else [input[n - 1]]
  }

  lemma {:induction false} KeptMembers(input: seq<Entry>, n: nat, smallestSnapshot: nat, v: Version, level: nat)
    requires n <= |input| && |v.levels| == NUM_LEVELS
    ensures forall e :: e in Kept(input, n, smallestSnapshot, v, level) <==>
              exists i :: 0 <= i < n && input[i] == e &&
                !Hidden(input, i, smallestSnapshot) && !Obsolete(e, smallestSnapshot, v, level)
  {
    if n > 0 {
      KeptMembers(input, n - 1, smallestSnapshot, v, level);
    }
  }

  /** A reader at or above the smallest snapshot loses nothing: the version it should see is
      kept, or it is a dropped deletion marker and no older version resurfaces. */
  lemma {:induction false} DropRulesPreserveReads(input: seq<Entry>, smallestSnapshot: nat, v: Version, level: nat,
                                                  k: UserKey, s: nat, e: Entry)
    requires |v.levels| == NUM_LEVELS && Sorted(input) && NewestIn(input, k, s, e) && s >= smallestSnapshot
    ensures var kept := Kept(input, |input|, smallestSnapshot, v, level);
            NewestIn(kept, k, s, e) ||
            (Obsolete(e, smallestSnapshot, v, level) && forall x :: x in kept ==> !Candidate(x, k, s))
  {
    KeptMembers(input, |input|, smallestSnapshot, v, level);
    var i :| 0 <= i < |input| && input[i] == e;
    assert !Hidden(input, i, smallestSnapshot);
    if Obsolete(e, smallestSnapshot, v, level) {
      forall j | 0 <= j < |input| && Candidate(input[j], k, s) && input[j] != e
        ensures Hidden(input, j, smallestSnapshot)
      {
        if j < i {
          assert false;
        }
      }
    }
  }

  // ---------- output files ----------

  ghost function Flatten(files: Files): seq<Entry> {
    if files == [] then [] else Flatten(files[..|files| - 1]) + files[|files| - 1].entries
  }

  lemma {:induction false} FlattenMembers(files: Files)
    ensures forall e :: e in Flatten(files) <==> exists f :: f in files && e in f.entries
  {
    if files != [] {
      var front, last := files[..|files| - 1], files[|files| - 1];
      FlattenMembers(front);
      assert files == front + [last];
      forall e ensures e in Flatten(files) <==> exists f :: f in files && e in f.entries {
        assert e in Flatten(files) <==> e in Flatten(front) || e in last.entries;
      }
    }
  }

  /** Files whose concatenation is sorted are disjoint and sorted. */
  lemma {:induction false} SortedFilesDisjoint(files: Files)
    requires AllValid(files) && Sorted(Flatten(files))
    ensures DisjointSorted(files)
  {
    forall i, j | 0 <= i < j < |files| ensures Before(files[i].largest, files[j].smallest) {
      SortedFilesPair(files, i, j);
    }
  }

  lemma {:induction false} SortedFilesPair(files: Files, i: nat, j: nat)
    requires AllValid(files) && Sorted(Flatten(files)) && i < j < |files|
    ensures Before(files[i].largest, files[j].smallest)
  {
    var front, last := files[..|files| - 1], files[|files| - 1];
    SortedConcat(Flatten(front), last.entries);
    if j < |front| {
      SortedFilesPair(front, i, j);
    } else {
      LastAndFirst(front, i, last);
    }
  }

  lemma {:induction false} LastAndFirst(front: Files, i: nat, last: FileMeta)
    requires i < |front| && front[i].Valid() && last.Valid()
    requires forall x, y :: x in Flatten(front) && y in last.entries ==> Before(x.key, y.key)
    ensures Before(front[i].largest, last.smallest)
  {
    hide Before, Sorted;
    var es := front[i].entries;
    FlattenMembers(front);
    assert front[i] in front && es[|es| - 1] in es && last.entries[0] in last.entries;
    assert es[|es| - 1] in Flatten(front);
  }

  lemma {:induction false} SortedConcat(xs: seq<Entry>, ys: seq<Entry>)
    ensures Sorted(xs + ys) <==>
              (Sorted(xs) && Sorted(ys) && forall x, y :: x in xs && y in ys ==> Before(x.key, y.key))
  {
    var zs := xs + ys;
    if Sorted(zs) {
      assert forall i :: 0 <= i < |xs| ==> zs[i] == xs[i];
      assert forall i :: 0 <= i < |ys| ==> zs[|xs| + i] == ys[i];
      forall x, y | x in xs && y in ys ensures Before(x.key, y.key) {
        var i :| 0 <= i < |xs| && xs[i] == x;
        var j :| 0 <= j < |ys| && ys[j] == y;
        assert Before(zs[i].key, zs[|xs| + j].key);
      }
    }
  }

  lemma {:induction false} KeptSorted(input: seq<Entry>, n: nat, smallestSnapshot: nat, v: Version, level: nat)
    requires n <= |input| && |v.levels| == NUM_LEVELS && Sorted(input)
    ensures Sorted(Kept(input, n, smallestSnapshot, v, level))
  {
    if n > 0 {
      KeptSorted(input, n - 1, smallestSnapshot, v, level);
      KeptMembers(input, n - 1, smallestSnapshot, v, level);
      SortedConcat(Kept(input, n - 1, smallestSnapshot, v, level), [input[n - 1]]);
    }
  }

  // ---------- where outputs are cut ----------

  /** What ShouldStopBefore remembers. */
  datatype Stopper = Stopper(index: nat, seen: bool, bytes: nat)

  /** The first grandparent from `index` on that does not end before the key. */
  ghost function NextIndex(grandparents: Files, index: nat, key: InternalKey): (r: nat)
    ensures index <= |grandparents| ==> index <= r <= |grandparents|
    decreases |grandparents| - index
  {
    if index < |grandparents| && Before(grandparents[index].largest, key) then NextIndex(grandparents, index + 1, key)
    else index
  }

  /** The bytes of the grandparents passed since the last cut; those before the first key do
      not count. */
  ghost function Overlap(grandparents: Files, st: Stopper, key: InternalKey): nat
    requires st.index <= |grandparents|
  {
    st.bytes +
    if st.seen then TotalFileSize(grandparents[st.index..NextIndex(grandparents, st.index, key)]) else 0
  }

  lemma {:induction false} NextPassed(files: Files, a: nat, b: nat)
    requires a <= b < |files|
    ensures TotalFileSize(files[a..b + 1]) == TotalFileSize(files[a..b]) + files[b].size
    decreases b - a
  {
    if a < b {
      NextPassed(files, a + 1, b);
      assert files[a..b + 1][1..] == files[a + 1..b + 1] && files[a..b][1..] == files[a + 1..b];
    } else {
      assert files[a..b] == [] && files[a..b + 1][1..] == [];
    }
  }

  ghost function NextStopper(grandparents: Files, max: nat, st: Stopper, key: InternalKey): (r: Stopper)
    requires st.index <= |grandparents|
    ensures r.index <= |grandparents|
  {
    var bytes := Overlap(grandparents, st, key);
    Stopper(NextIndex(grandparents, st.index, key), true, if bytes > max then 0 else bytes)
  }

  /** After the first n keys of the input. */
  ghost function StopperAt(grandparents: Files, max: nat, input: seq<Entry>, n: nat): (r: Stopper)
    requires n <= |input|
    ensures r.index <= |grandparents|
  {
    if n == 0 then Stopper(0, false, 0)
    else NextStopper(grandparents, max, StopperAt(grandparents, max, input, n - 1), input[n - 1].key)
  }

  /** The output has to stop before key n of the input: it overlaps too many grandparent bytes. */
  ghost predicate StopsAt(grandparents: Files, max: nat, input: seq<Entry>, n: nat)
    requires n < |input|
  {
    Overlap(grandparents, StopperAt(grandparents, max, input, n), input[n].key) > max
  }

  /** How outputs are to be cut. */
  datatype Cutting = Cutting(grandparents: Files, maxOverlap: nat, tableSize: seq<Entry> -> nat, maxSize: nat,
                             input: seq<Entry>)
  {
    ghost predicate AllBefore(es: seq<Entry>, j: nat)
      requires j < |input|
    {
      forall e :: e in es ==> Before(e.key, input[j].key)
    }

    ghost predicate NoneBefore(es: seq<Entry>, j: nat)
      requires j < |input|
    {
      forall e :: e in es ==> !Before(e.key, input[j].key)
    }

    ghost predicate Stop(j: nat) {
      j < |input| && StopsAt(grandparents, maxOverlap, input, j)
    }

    /** No front part would have been big enough. */
    ghost predicate NotOver(es: seq<Entry>) {
      forall n :: 0 < n < |es| ==> tableSize(es[..n]) < maxSize
    }

    /** No stop among the first n keys is inside. */
    ghost predicate Uncut(es: seq<Entry>, n: nat) {
      forall j :: 0 <= j < n && Stop(j) ==> AllBefore(es, j) || NoneBefore(es, j)
    }

    /** The file was closed for a reason: its size, or a stop between it and what follows. */
    ghost predicate Closed(es: seq<Entry>, next: seq<Entry>, n: nat) {
      tableSize(es) >= maxSize || exists j: nat :: j < n && Stop(j) && AllBefore(es, j) && NoneBefore(next, j)
    }

    ghost function Next(files: seq<seq<Entry>>, open: seq<Entry>, i: nat): seq<Entry> {
      if i + 1 < |files| then files[i + 1] else open
    }

    /** Outputs, and the open one, after n keys. */
    ghost predicate Cut(files: seq<seq<Entry>>, open: seq<Entry>, n: nat) {
      && (forall i :: 0 <= i < |files| ==> NotOver(files[i]) && Uncut(files[i], n))
      && (forall i :: 0 <= i < |files| ==> Closed(files[i], Next(files, open, i), n))
      && NotOver(open) && (open != [] ==> tableSize(open) < maxSize)
      && (forall j :: 0 <= j < n && Stop(j) ==> NoneBefore(open, j))
    }

    /** The files so far hold only keys passed, and are cut as they should be. */
    ghost predicate CutSoFar(files: seq<seq<Entry>>, open: seq<Entry>, n: nat) {
      n <= |input| && Cut(files, open, n) && Front(open, n) && forall i :: 0 <= i < |files| ==> Front(files[i], n)
    }

    /** The finished outputs: none is too long, each but the last was closed for a reason, and
        every stop was obeyed. */
    ghost predicate WellCut(files: seq<seq<Entry>>) {
      && (forall i :: 0 <= i < |files| ==> NotOver(files[i]) && Uncut(files[i], |input|))
      && (forall i :: 0 <= i < |files| - 1 ==> Closed(files[i], files[i + 1], |input|))
    }

    ghost predicate Front(es: seq<Entry>, n: nat)
      requires n <= |input|
    {
      forall e :: e in es ==> e in input[..n]
    }

    lemma {:induction false} ClosedLater(es: seq<Entry>, next: seq<Entry>, n: nat, n': nat)
      requires Closed(es, next, n) && n <= n'
      ensures Closed(es, next, n')
    {
      hide Stop, AllBefore, NoneBefore;
    }

    /** One key more. */
    lemma {:induction false} FrontNext(files: seq<seq<Entry>>, open: seq<Entry>, n: nat)
      requires n < |input| && Front(open, n) && forall i :: 0 <= i < |files| ==> Front(files[i], n)
      ensures Front(open, n + 1) && forall i :: 0 <= i < |files| ==> Front(files[i], n + 1)
    {
      var next := input[..n + 1];
      assert next == input[..n] + [input[n]];
      forall i | 0 <= i < |files| ensures Front(files[i], n + 1) {
        assert Front(files[i], n);
      }
    }

    lemma {:induction false} FrontBefore(es: seq<Entry>, n: nat)
      requires n < |input| && Sorted(input) && Front(es, n)
      ensures AllBefore(es, n)
    {
      forall e | e in es ensures Before(e.key, input[n].key) {
        var i :| 0 <= i < n && input[..n][i] == e;
        assert input[i] == e;
      }
    }

    /** Past key n: the open file has been closed if the key is a stop. */
    lemma {:induction false} PassNext(files: seq<seq<Entry>>, open: seq<Entry>, n: nat)
      requires n < |input| && Sorted(input) && CutSoFar(files, open, n)
      ensures if Stop(n) && open != [] then CutSoFar(files + [open], [], n + 1) else CutSoFar(files, open, n + 1)
    {
      hide Stop, Front, Cut;
      PassKey(files, open, n);
      FrontNext(files, open, n);
      NothingBefore();
    }

    /** One more entry in the open file, which is closed if it is big enough then. */
    lemma {:induction false} AddNext(files: seq<seq<Entry>>, open: seq<Entry>, n: nat)
      requires n < |input| && Sorted(input) && CutSoFar(files, open, n + 1)
      ensures var more := open + [input[n]];
              if tableSize(more) >= maxSize then CutSoFar(files + [more], [], n + 1) else CutSoFar(files, more, n + 1)
    {
      hide Cut;
      AddKept(files, open, n);
      assert input[..n + 1][n] == input[n];
    }

    lemma {:induction false} PassKey(files: seq<seq<Entry>>, open: seq<Entry>, n: nat)
      requires n < |input| && Sorted(input) && Cut(files, open, n) && Front(open, n)
      requires forall i :: 0 <= i < |files| ==> Front(files[i], n)
      ensures Stop(n) && open != [] ==> Cut(files + [open], [], n + 1)
      ensures !Stop(n) || open == [] ==> Cut(files, open, n + 1)
    {
      hide Stop, AllBefore, NoneBefore, NotOver, Closed, Front;
      FrontBefore(open, n);
      NothingBefore();
      forall i | 0 <= i < |files|
        ensures Uncut(files[i], n + 1)
        ensures Closed(files[i], Next(files, open, i), n + 1)
      {
        FrontBefore(files[i], n);
        ClosedLater(files[i], Next(files, open, i), n, n + 1);
      }
      if Stop(n) && open != [] {
        ClosedByStop(open, n);
        assert Uncut(open, n + 1);
        var all := files + [open];
        assert forall i :: 0 <= i < |files| ==> all[i] == files[i] && Next(all, [], i) == Next(files, open, i);
        assert Next(all, [], |files|) == [];
      }
    }

    lemma {:induction false} NothingBefore()
      ensures NotOver([]) && forall j: nat :: j <= |input| ==> Front([], j) && (j < |input| ==> NoneBefore([], j))
    {
    }

    lemma {:induction false} ClosedByStop(es: seq<Entry>, n: nat)
      requires Stop(n) && AllBefore(es, n)
      ensures Closed(es, [], n + 1)
    {
      hide Stop;
      NothingBefore();
    }

    lemma {:induction false} AddKept(files: seq<seq<Entry>>, open: seq<Entry>, n: nat)
      requires n < |input| && Sorted(input) && Cut(files, open, n + 1)
      ensures var more := open + [input[n]];
              if tableSize(more) >= maxSize then Cut(files + [more], [], n + 1) else Cut(files, more, n + 1)
    {
      hide Stop, Closed, AllBefore;
      var more := open + [input[n]];
      NothingBefore();
      forall k | 0 < k < |more| ensures tableSize(more[..k]) < maxSize {
        assert more[..k] == open[..k];
        assert k == |open| ==> open[..k] == open;
      }
      forall j | 0 <= j < n + 1 && Stop(j) ensures NoneBefore(more, j) {
        assert j < n ==> Before(input[j].key, input[n].key);
        assert NoneBefore(open, j);
      }
      forall i | 0 <= i < |files| ensures Closed(files[i], Next(files, more, i), n + 1) {
        assert Closed(files[i], Next(files, open, i), n + 1);
        if i + 1 == |files| {
          ClosedNext(files[i], open, more, n + 1);
        }
      }
      if tableSize(more) >= maxSize {
        ClosedBySize(more, n + 1);
        assert Uncut(more, n + 1);
        var all := files + [more];
        assert forall i :: 0 <= i < |files| ==> all[i] == files[i] && Next(all, [], i) == Next(files, more, i);
        assert Next(all, [], |files|) == [];
      }
    }

    lemma {:induction false} ClosedBySize(es: seq<Entry>, n: nat)
      requires tableSize(es) >= maxSize
      ensures Closed(es, [], n)
    {
    }

    lemma {:induction false} ClosedNext(es: seq<Entry>, open: seq<Entry>, more: seq<Entry>, n: nat)
      requires Closed(es, open, n) && n <= |input| && forall j :: 0 <= j < n && Stop(j) ==> NoneBefore(more, j)
      ensures Closed(es, more, n)
    {
      hide Stop, AllBefore, NoneBefore;
    }

    lemma {:induction false} CutIsWellCut(files: seq<seq<Entry>>, open: seq<Entry>)
      requires CutSoFar(files, open, |input|)
      ensures WellCut(if open == [] then files else files + [open])
    {
      hide Stop, AllBefore, NoneBefore, NotOver, Closed, Uncut, Front;
      var all := if open == [] then files else files + [open];
      NeverCut(open);
      forall i | 0 <= i < |all| ensures NotOver(all[i]) && Uncut(all[i], |input|) {
        assert all[i] == if i < |files| then files[i] else open;
      }
      forall i | 0 <= i < |all| - 1 ensures Closed(all[i], all[i + 1], |input|) {
        assert all[i] == files[i] && all[i + 1] == Next(files, open, i);
      }
    }

    lemma {:induction false} NeverCut(open: seq<Entry>)
      requires forall j :: 0 <= j < |input| && Stop(j) ==> NoneBefore(open, j)
      ensures Uncut(open, |input|)
    {
      hide Stop, AllBefore, NoneBefore;
    }
  }

  ghost function EntriesOf(files: Files): (r: seq<seq<Entry>>)
    ensures |r| == |files| && forall i :: 0 <= i < |r| ==> r[i] == files[i].entries
  {
    seq(|files|, i requires 0 <= i < |files| => files[i].entries)
  }

  /** Add an entry to the open output file and close the file once it is big enough. */
  method AddToOutput(outputs: Files, builder: seq<Entry>, e: Entry, nextFileNumber: nat,
                     tableSize: seq<Entry> -> nat, maxOutputFileSize: nat) returns (r: Files, open: seq<Entry>)
    requires AllValid(outputs) && Numbered(outputs, nextFileNumber) && Sorted(Flatten(outputs) + builder + [e])
    ensures AllValid(r) && Numbered(r, nextFileNumber) && Flatten(r) + open == Flatten(outputs) + builder + [e]
    ensures if tableSize(builder + [e]) >= maxOutputFileSize then
              EntriesOf(r) == EntriesOf(outputs) + [builder + [e]] && open == []
            else r == outputs && open == builder + [e]
  {
    r, open := outputs, builder + [e];
    assert Flatten(outputs) + builder + [e] == Flatten(outputs) + open;
    if tableSize(open) >= maxOutputFileSize {
      r := FinishOutputFile(r, open, nextFileNumber, tableSize);
      open := [];
    }
  }

  /** Close the current output file and add it to the outputs. */
  method FinishOutputFile(outputs: Files, builder: seq<Entry>, nextFileNumber: nat, tableSize: seq<Entry> -> nat)
    returns (r: Files)
    requires AllValid(outputs) && Numbered(outputs, nextFileNumber)
    requires builder != [] && Sorted(Flatten(outputs) + builder)
    ensures Numbered(r, nextFileNumber)
    ensures r == outputs + [FileMeta(nextFileNumber + |outputs|, tableSize(builder),
                                     builder[0].key, builder[|builder| - 1].key, builder)]
    ensures AllValid(r) && Flatten(r) == Flatten(outputs) + builder
  {
    SortedConcat(Flatten(outputs), builder);
    r := outputs + [FileMeta(nextFileNumber + |outputs|, tableSize(builder),
                             builder[0].key, builder[|builder| - 1].key, builder)];
    assert r[..|r| - 1] == outputs;
  }

  ghost predicate Numbered(files: Files, first: nat) {
    forall i :: 0 <= i < |files| ==> files[i].number == first + i
  }

  class Compaction {
    const version: Version
    const level: nat
    const inputs: Files
    const parentInputs: Files
    const grandparents: Files
    const maxOutputFileSize: nat
    const maxGrandParentOverlapBytes: nat
    const levelPtrs: array<nat>
    var grandparentIndex: nat
    var seenKey: bool
    var overlappedBytes: nat

    constructor (v: Version, level: nat, inputs: Files, parentInputs: Files, grandparents: Files, maxFileSize: nat)
      requires v.Valid()
      ensures fresh(levelPtrs) && Valid()
      ensures version == v && this.level == level && this.inputs == inputs && this.parentInputs == parentInputs
      ensures this.grandparents == grandparents
      ensures maxOutputFileSize == maxFileSize && maxGrandParentOverlapBytes == 10 * maxFileSize
      ensures (forall k :: PassedOnly(k)) && State() == Stopper(0, false, 0)
    {
      version, this.level, this.inputs, this.parentInputs, this.grandparents :=
        v, level, inputs, parentInputs, grandparents;
      maxOutputFileSize, maxGrandParentOverlapBytes := maxFileSize, 10 * maxFileSize;
      levelPtrs := new nat[NUM_LEVELS](_ => 0);
      grandparentIndex, seenKey, overlappedBytes := 0, false, 0;
    }

    ghost function State(): Stopper
      reads this`grandparentIndex, this`seenKey, this`overlappedBytes
    {
      Stopper(grandparentIndex, seenKey, overlappedBytes)
    }

    ghost function CuttingOf(input: seq<Entry>, tableSize: seq<Entry> -> nat): Cutting {
      Cutting(grandparents, maxGrandParentOverlapBytes, tableSize, maxOutputFileSize, input)
    }

    ghost predicate Valid()
      reads this, levelPtrs
    {
      && version.Valid() && levelPtrs.Length == NUM_LEVELS
      && grandparentIndex <= |grandparents|
      && forall l :: 0 <= l < NUM_LEVELS ==> levelPtrs[l] <= |version.levels[l]|
    }

    /** Every file a pointer has passed ends before k. */
    ghost predicate PassedOnly(k: UserKey)
      requires Valid()
      reads this, levelPtrs
    {
      forall l, i :: level + 2 <= l < NUM_LEVELS && 0 <= i < levelPtrs[l] ==> version.levels[l][i].largest.user < k
    }

    /** With keys asked in nondecreasing order, the advancing pointers give the stateless answer. */
    method IsBaseLevelForKey(k: UserKey) returns (base: bool)
      requires Valid() && PassedOnly(k)
      modifies levelPtrs
      ensures Valid() && PassedOnly(k)
      ensures base <==> BaseLevelForKey(version, level, k)
    {
      var lvl := level + 2;
      while lvl < NUM_LEVELS
        invariant level + 2 <= lvl
        invariant Valid() && PassedOnly(k)
        invariant forall l, i :: level + 2 <= l < lvl && l < NUM_LEVELS && 0 <= i < |version.levels[l]| ==>
          !(version.levels[l][i].smallest.user <= k <= version.levels[l][i].largest.user)
      {
        var files := version.levels[lvl];
        while levelPtrs[lvl] < |files|
          invariant Valid() && PassedOnly(k)
          decreases |files| - levelPtrs[lvl]
        {
          var f := files[levelPtrs[lvl]];
          if k <= f.largest.user {
            if k >= f.smallest.user {
              return false;
            }
            SmallestIncreases(files);
            break;
          }
          levelPtrs[lvl] := levelPtrs[lvl] + 1;
        }
        lvl := lvl + 1;
      }
      return true;
    }

    /** True when the output built so far overlaps too many grandparent bytes. */
    method ShouldStopBefore(key: InternalKey) returns (stop: bool)
      requires Valid()
      modifies this`grandparentIndex, this`seenKey, this`overlappedBytes
      ensures Valid() && forall k :: old(PassedOnly(k)) ==> PassedOnly(k)
      ensures stop <==> Overlap(grandparents, old(State()), key) > maxGrandParentOverlapBytes
      ensures State() == NextStopper(grandparents, maxGrandParentOverlapBytes, old(State()), key)
    {
      while grandparentIndex < |grandparents| && Before(grandparents[grandparentIndex].largest, key)
        invariant old(grandparentIndex) <= grandparentIndex <= |grandparents| && seenKey == old(seenKey)
        invariant NextIndex(grandparents, grandparentIndex, key) == NextIndex(grandparents, old(grandparentIndex), key)
        invariant overlappedBytes == old(overlappedBytes) +
                    if seenKey then TotalFileSize(grandparents[old(grandparentIndex)..grandparentIndex]) else 0
      {
        NextPassed(grandparents, old(grandparentIndex), grandparentIndex);
        if seenKey {
          overlappedBytes := overlappedBytes + grandparents[grandparentIndex].size;
        }
        grandparentIndex := grandparentIndex + 1;
      }
      seenKey := true;
      if overlappedBytes > maxGrandParentOverlapBytes {
        overlappedBytes := 0;
        stop := true;
      } else {
        stop := false;
      }
    }

    /** The drop decision for one entry, given what the loop remembers of the one before it. */
    method ShouldDrop(input: seq<Entry>, i: nat, smallestSnapshot: nat, lastSequenceForKey: nat) returns (drop: bool)
      requires i < |input| && Sorted(input) && smallestSnapshot < MAX_SEQUENCE_NUMBER
      requires lastSequenceForKey == if i > 0 && input[i - 1].key.user == input[i].key.user
                                     then input[i - 1].key.sequence else MAX_SEQUENCE_NUMBER
      requires Valid() && PassedOnly(input[i].key.user)
      modifies levelPtrs
      ensures Valid() && PassedOnly(input[i].key.user)
      ensures drop <==> Hidden(input, i, smallestSnapshot) || Obsolete(input[i], smallestSnapshot, version, level)
    {
      var key := input[i].key;
      assert lastSequenceForKey <= smallestSnapshot <==> Hidden(input, i, smallestSnapshot) by {
        forall j | 0 <= j < i && input[j].key.user == key.user
          ensures input[i - 1].key.user == key.user && input[i - 1].key.sequence <= input[j].key.sequence
        {
          assert j < i - 1 ==> Before(input[j].key, input[i - 1].key);
          assert Before(input[i - 1].key, key);
        }
      }
      if lastSequenceForKey <= smallestSnapshot {
        drop := true;
      } else if key.kind == Deletion && key.sequence <= smallestSnapshot {
        drop := IsBaseLevelForKey(key.user);
      } else {
        drop := false;
      }
    }

    lemma {:induction false} PassedFurther(k: UserKey, k': UserKey)
      requires Valid() && PassedOnly(k) && k <= k'
      ensures PassedOnly(k')
    {
    }

    static lemma {:induction false} KeptNext(input: seq<Entry>, i: nat, smallestSnapshot: nat, v: Version, level: nat)
      requires i < |input| && |v.levels| == NUM_LEVELS && Sorted(input)
      ensures var written := Kept(input, i, smallestSnapshot, v, level);
              && Kept(input, i + 1, smallestSnapshot, v, level) ==
                   (if Hidden(input, i, smallestSnapshot) || Obsolete(input[i], smallestSnapshot, v, level) then written
                    else written + [input[i]])
              && Sorted(written) && Sorted(Kept(input, i + 1, smallestSnapshot, v, level))
    {
      hide Hidden, Obsolete, Sorted;
      KeptSorted(input, i, smallestSnapshot, v, level);
      KeptSorted(input, i + 1, smallestSnapshot, v, level);
    }

    lemma {:induction false} NoOutputs(input: seq<Entry>, smallestSnapshot: nat, first: nat)
      requires |version.levels| == NUM_LEVELS
      ensures Kept(input, 0, smallestSnapshot, version, level) == []
      ensures AllValid([]) && Numbered([], first) && Flatten([]) == []
    {
    }

    lemma {:induction false} NothingCut(c: Cutting, input: seq<Entry>, tableSize: seq<Entry> -> nat)
      requires c == CuttingOf(input, tableSize)
      ensures c.input == input && c.tableSize == tableSize && c.maxSize == maxOutputFileSize
      ensures EntriesOf([]) == [] && c.CutSoFar([], [], 0)
      ensures StopperAt(grandparents, maxGrandParentOverlapBytes, input, 0) == Stopper(0, false, 0)
    {
    }

    lemma {:induction false} StopperNext(c: Cutting, input: seq<Entry>, tableSize: seq<Entry> -> nat, i: nat)
      requires c == CuttingOf(input, tableSize) && i < |input|
      ensures var st := StopperAt(grandparents, maxGrandParentOverlapBytes, input, i);
              && StopperAt(grandparents, maxGrandParentOverlapBytes, input, i + 1) ==
                   NextStopper(grandparents, maxGrandParentOverlapBytes, st, input[i].key)
              && (c.Stop(i) <==> Overlap(grandparents, st, input[i].key) > maxGrandParentOverlapBytes)
    {
      hide NextStopper, Overlap;
    }

    /** The compaction loop: writes exactly the kept entries, in order, into valid disjoint files. */
    method DoCompactionWork(input: seq<Entry>, smallestSnapshot: nat, nextFileNumber: nat, tableSize: seq<Entry> -> nat)
      returns (outputs: Files)
      requires Valid() && Sorted(input) && smallestSnapshot < MAX_SEQUENCE_NUMBER
      requires (forall k :: PassedOnly(k)) && State() == Stopper(0, false, 0)
      modifies this, levelPtrs
      ensures Flatten(outputs) == Kept(input, |input|, smallestSnapshot, version, level)
      ensures AllValid(outputs) && DisjointSorted(outputs)
      ensures Numbered(outputs, nextFileNumber) && CuttingOf(input, tableSize).WellCut(EntriesOf(outputs))
    {
      hide Cutting.CutSoFar, Cutting.Stop, NextStopper, Overlap, CuttingOf;
      hide Kept, Numbered, AllValid, Hidden, Obsolete, Sorted, Flatten, PassedOnly, BaseLevelForKey;
      NoOutputs(input, smallestSnapshot, nextFileNumber);
      outputs := [];
      var builder: seq<Entry> := [];
      var currentUserKey: Option<UserKey> := None;
      var lastSequenceForKey := MAX_SEQUENCE_NUMBER;
      ghost var c := CuttingOf(input, tableSize);
      NothingCut(c, input, tableSize);
      var i := 0;
      while i < |input|
        invariant i <= |input|
        invariant Valid()
        invariant State() == StopperAt(grandparents, maxGrandParentOverlapBytes, input, i)
        invariant c.CutSoFar(EntriesOf(outputs), builder, i)
        invariant i < |input| ==> PassedOnly(input[i].key.user)
        invariant currentUserKey.None? <==> i == 0
        invariant i > 0 ==>
                  currentUserKey == Some(input[i - 1].key.user) && lastSequenceForKey == input[i - 1].key.sequence
        invariant Flatten(outputs) + builder == Kept(input, i, smallestSnapshot, version, level)
        invariant AllValid(outputs)
        invariant Numbered(outputs, nextFileNumber)
      {
        var key := input[i].key;
        ghost var written := Kept(input, i, smallestSnapshot, version, level);
        KeptNext(input, i, smallestSnapshot, version, level);
        StopperNext(c, input, tableSize, i);
        c.PassNext(EntriesOf(outputs), builder, i);
        var stop := ShouldStopBefore(key);
        if stop && builder != [] {
          ghost var files := EntriesOf(outputs) + [builder];
          outputs := FinishOutputFile(outputs, builder, nextFileNumber, tableSize);
          assert EntriesOf(outputs) == files;
          builder := [];
        }
        if currentUserKey != Some(key.user) {
          currentUserKey := Some(key.user);
          lastSequenceForKey := MAX_SEQUENCE_NUMBER;
        }
        var drop := ShouldDrop(input, i, smallestSnapshot, lastSequenceForKey);
        lastSequenceForKey := key.sequence;
        if !drop {
          assert Flatten(outputs) + builder == written;
          c.AddNext(EntriesOf(outputs), builder, i);
          outputs, builder := AddToOutput(outputs, builder, input[i], nextFileNumber, tableSize, maxOutputFileSize);
        }
        if i + 1 < |input| {
          InOrder(input, i, i + 1);
          PassedFurther(key.user, input[i + 1].key.user);
        }
        i := i + 1;
      }
      KeptSorted(input, |input|, smallestSnapshot, version, level);
      c.CutIsWellCut(EntriesOf(outputs), builder);
      if builder != [] {
        ghost var files := EntriesOf(outputs) + [builder];
        outputs := FinishOutputFile(outputs, builder, nextFileNumber, tableSize);
        assert EntriesOf(outputs) == files;
      }
      assert Flatten(outputs) == Flatten(outputs) + [];
      SortedFilesDisjoint(outputs);
    }
  }
}

/** Compactions picked by size have no gap: what is compacted is brought in file by file, each
    overlapping what is there (db/version_set.cc). */
module CompactionGaps {
  import opened Wrappers
  import opened InternalKeys
  import opened Versions
  import opened CompactionPickers

  /** Every user key between the ends of two of the files is in the range of one of them. */
  ghost predicate Gapless(files: Files) {
    forall f, g, k :: f in files && g in files && f.smallest.user <= k <= g.largest.user ==> Covers(files, k)
  }

  ghost predicate Covers(files: Files, k: UserKey) {
    exists h :: h in files && h.smallest.user <= k <= h.largest.user
  }

  ghost predicate Joined(xs: Files, y: FileMeta) {
    exists f, g :: f in xs && g in xs && f.smallest.user <= y.largest.user && y.smallest.user <= g.largest.user
  }

  lemma {:induction false} GaplessMembers(xs: Files, ys: Files)
    requires Gapless(xs) && forall f :: f in xs <==> f in ys
    ensures Gapless(ys)
  {
    forall f, g, k | f in ys && g in ys && f.smallest.user <= k <= g.largest.user ensures Covers(ys, k) {
      assert Covers(xs, k);
    }
  }

  lemma {:induction false} OneIsGapless(f: FileMeta)
    ensures Gapless([f])
  {
    assert f in [f];
  }

  /** Files that each overlap the span of gapless ones leave no gap. */
  lemma {:induction false} JoinKeepsGapless(xs: Files, ys: Files)
    requires Gapless(xs) && forall y :: y in ys ==> Joined(xs, y)
    ensures Gapless(xs + ys)
  {
    forall f, g, k | f in xs + ys && g in xs + ys && f.smallest.user <= k <= g.largest.user
      ensures Covers(xs + ys, k)
    {
      if f !in xs && k <= f.largest.user {
      } else if g !in xs && k >= g.smallest.user {
      } else {
        var a := f;
        if f !in xs {
          var x, y :| x in xs && y in xs && x.smallest.user <= f.largest.user && f.smallest.user <= y.largest.user;
          a := x;
        }
        var b := g;
        if g !in xs {
          var x, y :| x in xs && y in xs && x.smallest.user <= g.largest.user && g.smallest.user <= y.largest.user;
          b := y;
        }
        assert Covers(xs, k);
      }
    }
  }

  /** The files that a range grows to overlap leave no gap either: at a gap it could have
      stopped growing. */
  lemma {:induction false} ClosureKeepsGapless(files: Files, xs: Files, a: UserKey, b: UserKey, lo: Option<UserKey>,
                                               hi: Option<UserKey>)
    requires AllValid(files) && Gapless(xs) && LeastClosedRange(files, Some(a), Some(b), lo, hi)
    requires (exists f :: f in xs && f.smallest.user == a) && (exists f :: f in xs && f.largest.user == b)
    requires forall f :: f in xs ==> a <= f.smallest.user && f.largest.user <= b
    ensures Gapless(xs + Overlapping(files, lo, hi))
  {
    hide Least, Overlapping;
    var ys := Overlapping(files, lo, hi);
    forall f, g, k | f in xs + ys && g in xs + ys && f.smallest.user <= k <= g.largest.user
      ensures Covers(xs + ys, k)
    {
      if a <= k <= b {
        assert Covers(xs, k);
      } else if !Covers(xs + ys, k) {
        if k > b {
          StopsGrowingRight(files, xs, a, b, lo, hi, k);
        } else {
          StopsGrowingLeft(files, xs, a, b, lo, hi, k);
        }
      }
    }
  }

  lemma {:induction false} StopsGrowingRight(files: Files, xs: Files, a: UserKey, b: UserKey, lo: Option<UserKey>,
                                             hi: Option<UserKey>, k: UserKey)
    requires AllValid(files) && LeastClosedRange(files, Some(a), Some(b), lo, hi) && b < k
    requires forall g :: g in Overlapping(files, lo, hi) ==> !(g.smallest.user <= k <= g.largest.user)
    ensures forall g :: g in Overlapping(files, lo, hi) ==> g.largest.user < k
  {
    if k <= hi.value {
      forall g | g in files && Overlaps(g, lo, Some(k))
        ensures lo.value <= g.smallest.user && g.largest.user <= k
      {
        assert g in Overlapping(files, lo, hi);
      }
      assert ClosedRange(files, lo, Some(k)) && Contains(lo, Some(k), Some(a), Some(b));
    }
  }

  lemma {:induction false} StopsGrowingLeft(files: Files, xs: Files, a: UserKey, b: UserKey, lo: Option<UserKey>,
                                            hi: Option<UserKey>, k: UserKey)
    requires AllValid(files) && LeastClosedRange(files, Some(a), Some(b), lo, hi) && k < a
    requires forall g :: g in Overlapping(files, lo, hi) ==> !(g.smallest.user <= k <= g.largest.user)
    ensures forall g :: g in Overlapping(files, lo, hi) ==> k < g.smallest.user
  {
    if lo.value <= k {
      forall g | g in files && Overlaps(g, Some(k), hi)
        ensures k <= g.smallest.user && g.largest.user <= hi.value
      {
        assert g in Overlapping(files, lo, hi);
      }
      assert ClosedRange(files, Some(k), hi) && Contains(Some(k), hi, Some(a), Some(b));
    }
  }

  lemma {:induction false} SpanEnds(files: Files, smallest: InternalKey, largest: InternalKey)
    requires Spans(files, smallest, largest)
    ensures (exists f :: f in files && f.smallest.user == smallest.user)
            && (exists f :: f in files && f.largest.user == largest.user)
    ensures forall f :: f in files ==> smallest.user <= f.smallest.user && f.largest.user <= largest.user
  {
  }

  lemma {:induction false} OverlapIsJoined(xs: Files, smallest: InternalKey, largest: InternalKey, y: FileMeta)
    requires Spans(xs, smallest, largest) && Overlaps(y, Some(smallest.user), Some(largest.user))
    ensures Joined(xs, y)
  {
    SpanEnds(xs, smallest, largest);
    var f :| f in xs && f.smallest.user == smallest.user;
    var g :| g in xs && g.largest.user == largest.user;
  }

  lemma {:induction false} BroughtInKeepsGapless(v: Version, level: nat, others: Files, r: Files)
    requires v.Valid() && level < NUM_LEVELS && BroughtIn(v, level, others, r) && Gapless(others)
    ensures Gapless(others + r)
  {
    hide Gapless, Spans, Overlaps, LeastClosedRange;
    var smallest, largest :| Spans(others, smallest, largest) &&
      if level > 0 then r == Overlapping(v.levels[level], Some(smallest.user), Some(largest.user))
      else IsClosure(v.levels[level], Some(smallest.user), Some(largest.user), r);
    if level > 0 {
      forall y | y in r ensures Joined(others, y) {
        OverlapIsJoined(others, smallest, largest, y);
      }
      JoinKeepsGapless(others, r);
    } else {
      var lo, hi :| LeastClosedRange(v.levels[0], Some(smallest.user), Some(largest.user), lo, hi)
                    && r == Overlapping(v.levels[0], lo, hi);
      SpanEnds(others, smallest, largest);
      ClosureKeepsGapless(v.levels[0], others, smallest.user, largest.user, lo, hi);
    }
  }

  /** Whatever grows from gapless files is gapless. */
  lemma {:induction false} GrownIsGapless(v: Version, picked: Files, c: Pick, maxFileSize: nat)
    requires v.Valid() && ValidPick(v, c) && SetUp(v, picked, c, maxFileSize) && Gapless(picked) && picked != []
    ensures Gapless(c.inputs + c.parentInputs)
  {
    hide Gapless, Spans, Overlapping, BroughtIn, GrandparentsOk, NothingOverlapsLeft, IsClosure;
    var parents :| GrownFrom(v, c.level, picked, parents, c.inputs, maxFileSize);
    BroughtInIs(v, c.level + 1, c.inputs, c.smallest, c.largest);
    if c.inputs == picked {
      BroughtInKeepsGapless(v, c.level + 1, picked, c.parentInputs);
    } else {
      var expanded :| BroughtIn(v, c.level, picked + parents, expanded) && c.inputs == expanded;
      BroughtInKeepsGapless(v, c.level + 1, picked, parents);
      BroughtInKeepsGapless(v, c.level, picked + parents, expanded);
      ExpandedIsGapless(v, picked, parents, c);
    }
  }

  lemma {:induction false} ExpandedIsGapless(v: Version, picked: Files, parents: Files, c: Pick)
    requires v.Valid() && ValidPick(v, c) && Subset(picked, c.inputs) && BroughtIn(v, c.level + 1, picked, parents)
    requires Gapless(picked + parents + c.inputs)
    ensures Gapless(c.inputs + c.parentInputs)
  {
    hide Gapless, Overlapping, NothingOverlapsLeft, IsClosure;
    var all := picked + parents + c.inputs;
    forall y | y in c.parentInputs ensures Joined(all, y) {
      OverlapIsJoined(c.inputs, c.smallest, c.largest, y);
      var f, g :| f in c.inputs && g in c.inputs && f.smallest.user <= y.largest.user
        && y.smallest.user <= g.largest.user;
      assert f in all && g in all;
    }
    JoinKeepsGapless(all, c.parentInputs);
    ParentsStay(v, picked, parents, c);
    GaplessMembers(all + c.parentInputs, c.inputs + c.parentInputs);
  }

  /** The parents of the picked files are parents of the inputs. */
  lemma {:induction false} ParentsStay(v: Version, picked: Files, parents: Files, c: Pick)
    requires ValidPick(v, c) && Subset(picked, c.inputs) && BroughtIn(v, c.level + 1, picked, parents)
    ensures Subset(parents, c.parentInputs)
  {
    hide Overlapping, NothingOverlapsLeft, IsClosure;
    var smallest, largest :| Spans(picked, smallest, largest) &&
      parents == Overlapping(v.levels[c.level + 1], Some(smallest.user), Some(largest.user));
    SpanEnds(picked, smallest, largest);
    SpanEnds(c.inputs, c.smallest, c.largest);
  }

  /** A compaction that starts from one file has no gap. */
  lemma {:induction false} SizePicksAreGapless(v: Version, c: Pick, compactPointer: Option<InternalKey>,
                                               maxFileSize: nat)
    requires v.Valid() && ValidPick(v, c) && PickedBySize(v, c, compactPointer, maxFileSize)
    ensures Gapless(c.inputs + c.parentInputs)
  {
    hide Gapless, Subset, Spans, IsSeed, SetUp, LeastClosedRange, Overlapping;
    var f :| IsSeed(v.levels[c.level], compactPointer, f) && PickedFrom(v, f, c, maxFileSize);
    var picked :|
      && SetUp(v, picked, c, maxFileSize) && f in picked
      && if c.level > 0 then picked == [f]
         else IsClosure(v.levels[0], Some(f.smallest.user), Some(f.largest.user), picked);
    OneIsGapless(f);
    if c.level == 0 {
      var lo, hi :| LeastClosedRange(v.levels[0], Some(f.smallest.user), Some(f.largest.user), lo, hi)
                    && picked == Overlapping(v.levels[0], lo, hi);
      assert f in [f];
      ClosureKeepsGapless(v.levels[0], [f], f.smallest.user, f.largest.user, lo, hi);
      GaplessMembers([f] + picked, picked);
    }
    GrownIsGapless(v, picked, c, maxFileSize);
  }
}

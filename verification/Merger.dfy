/** MergingIterator (table/merger.cc): several sorted children walked as one list. */
module MergingIterators {
  import opened Wrappers
  import opened InternalKeys
  import opened SortedLists
  import opened Cursors

  datatype Direction = Forward | Reverse

  function Contents(children: seq<Cursor>): seq<seq<Entry>> {
    seq(|children|, i requires 0 <= i < |children| => children[i].entries)
  }

  ghost predicate SortedChildren(lists: seq<seq<Entry>>) {
    forall c :: 0 <= c < |lists| ==> Sorted(lists[c])
  }

  /** No key occurs in two children. */
  ghost predicate DistinctKeys(lists: seq<seq<Entry>>) {
    forall c, d, x, y :: 0 <= c < |lists| && 0 <= d < |lists| && x in lists[c] && y in lists[d] && x.key == y.key ==>
      c == d
  }

  /** The place of an entry in the union.  Comparing keys is comparing places. */
  function Rank(union: seq<Entry>, e: Entry): (r: nat)
    ensures r <= |union|
  {
    SeekIndex(union, e.key)
  }

  lemma {:induction false} RankIsPlace(union: seq<Entry>, e: Entry)
    requires Sorted(union) && e in union
    ensures Rank(union, e) < |union| && union[Rank(union, e)] == e
  {
    var i :| 0 <= i < |union| && union[i] == e;
    var r := Rank(union, e);
    InOrder(union, i, i);
    InOrder(union, r, i);
  }

  lemma {:induction false} RankOrder(union: seq<Entry>, a: Entry, b: Entry)
    requires Sorted(union) && a in union && b in union
    ensures Before(a.key, b.key) <==> Rank(union, a) < Rank(union, b)
  {
    RankIsPlace(union, a);
    RankIsPlace(union, b);
  }

  /** The union of the children: sorted, each child's entries in it, nothing else. */
  ghost predicate IsUnion(union: seq<Entry>, lists: seq<seq<Entry>>) {
    && Sorted(union)
    && (forall c, e :: 0 <= c < |lists| && e in lists[c] ==> e in union)
    && (forall r :: 0 <= r < |union| ==> exists c :: 0 <= c < |lists| && union[r] in lists[c])
  }

  ghost predicate InSome(lists: seq<seq<Entry>>, e: Entry) {
    exists es :: es in lists && e in es
  }

  lemma {:induction false} UnionIsUnion(lists: seq<seq<Entry>>)
    requires SortedChildren(lists) && DistinctKeys(lists)
    ensures IsUnion(Union(lists), lists)
  {
    var all := iset e | InSome(lists, e);
    forall x, y | x in all && y in all && x.key == y.key ensures x == y {
      var xs :| xs in lists && x in xs;
      var ys :| ys in lists && y in ys;
      var c :| 0 <= c < |lists| && lists[c] == xs;
      var d :| 0 <= d < |lists| && lists[d] == ys;
      SameKeySameEntry(xs, x, y);
    }
    UnionMembers(lists, all);
    forall r | 0 <= r < |Union(lists)| ensures exists c :: 0 <= c < |lists| && Union(lists)[r] in lists[c] {
      assert Union(lists)[r] in Union(lists);
      var es :| es in lists && Union(lists)[r] in es;
      var c :| 0 <= c < |lists| && lists[c] == es;
    }
  }

  lemma {:induction false} SameKeySameEntry(es: seq<Entry>, x: Entry, y: Entry)
    requires Sorted(es) && x in es && y in es && x.key == y.key
    ensures x == y
  {
    var i :| 0 <= i < |es| && es[i] == x;
    var j :| 0 <= j < |es| && es[j] == y;
    InOrder(es, i, j);
    InOrder(es, j, i);
  }

  /** Position n of a child lies where the union is cut at p: what comes before is of
      smaller rank, the rest is not. */
  ghost predicate Cut(union: seq<Entry>, es: seq<Entry>, n: nat, p: nat)
    requires n <= |es|
  {
    && (forall j :: 0 <= j < n ==> Rank(union, es[j]) < p)
    && (forall j :: n <= j < |es| ==> Rank(union, es[j]) >= p)
  }

  /** The first entry not before the key of rank p is where the cut at p is. */
  lemma {:induction false} SeekCuts(union: seq<Entry>, es: seq<Entry>, p: nat)
    requires Sorted(union) && Sorted(es) && (forall e :: e in es ==> e in union) && p < |union|
    ensures Cut(union, es, SeekIndex(es, union[p].key), p)
  {
    RankIsPlace(union, union[p]);
    RankUnique(union, p);
    var n := SeekIndex(es, union[p].key);
    forall j | 0 <= j < |es| ensures j < n <==> Rank(union, es[j]) < p {
      assert es[j] in es;
      RankOrder(union, es[j], union[p]);
      if j >= n {
        InOrder(es, n, j);
      }
    }
  }

  lemma {:induction false} RankUnique(union: seq<Entry>, p: nat)
    requires Sorted(union) && p < |union|
    ensures Rank(union, union[p]) == p
  {
    var r := Rank(union, union[p]);
    InOrder(union, p, p);
    InOrder(union, r, p);
  }

  /** Seeking every child to a target cuts the union where the target would go. */
  lemma {:induction false} SeekTargetCuts(union: seq<Entry>, es: seq<Entry>, target: InternalKey)
    requires Sorted(union) && Sorted(es) && forall e :: e in es ==> e in union
    ensures Cut(union, es, SeekIndex(es, target), SeekIndex(union, target))
  {
    var n, p := SeekIndex(es, target), SeekIndex(union, target);
    forall j | 0 <= j < |es| ensures j < n <==> Rank(union, es[j]) < p {
      assert es[j] in es;
      RankIsPlace(union, es[j]);
      var r := Rank(union, es[j]);
      if j >= n {
        InOrder(es, n, j);
      }
      if r >= p {
        InOrder(union, p, r);
      }
    }
  }

  /** A cut leaves room for the entry of rank p in exactly one place: at some child's position. */
  lemma {:induction false} NextInUnion(union: seq<Entry>, lists: seq<seq<Entry>>, pos: seq<nat>, p: nat)
    returns (c: nat)
    requires SortedChildren(lists) && IsUnion(union, lists) && p < |union| && |pos| == |lists|
    requires forall c :: 0 <= c < |lists| ==> pos[c] <= |lists[c]| && Cut(union, lists[c], pos[c], p)
    ensures c < |lists| && pos[c] < |lists[c]| && Rank(union, lists[c][pos[c]]) == p
  {
    hide Cut, Sorted, DistinctKeys;
    c :| 0 <= c < |lists| && union[p] in lists[c];
    NextAtOwnCut(union, lists[c], pos[c], p);
  }

  /** The child that has the entry of rank p stands on it. */
  lemma {:induction false} NextAtOwnCut(union: seq<Entry>, es: seq<Entry>, n: nat, p: nat)
    requires Sorted(union) && Sorted(es) && (forall e :: e in es ==> e in union)
    requires n <= |es| && p < |union| && Cut(union, es, n, p) && union[p] in es
    ensures n < |es| && Rank(union, es[n]) == p
  {
    hide Sorted, Rank;
    var j: nat :| j < |es| && es[j] == union[p];
    RankUnique(union, p);
    InOrder(es, n, j);
    RankOrder(union, es[n], es[j]);
  }

  /** The child that has the entry of rank p - 1 has just passed it. */
  lemma {:induction false} LastBeforeOwnCut(union: seq<Entry>, es: seq<Entry>, n: nat, p: nat)
    requires Sorted(union) && Sorted(es) && (forall e :: e in es ==> e in union)
    requires n <= |es| && 0 < p <= |union| && Cut(union, es, n, p) && union[p - 1] in es
    ensures 0 < n && Rank(union, es[n - 1]) == p - 1
  {
    hide Sorted, Rank;
    var j: nat :| j < |es| && es[j] == union[p - 1];
    RankUnique(union, p - 1);
    InOrder(es, j, n - 1);
    RankOrder(union, es[j], es[n - 1]);
  }

  /** Likewise the entry of rank p - 1 is just before some child's cut. */
  lemma {:induction false} LastInUnion(union: seq<Entry>, lists: seq<seq<Entry>>, edge: seq<nat>, p: nat)
    returns (c: nat)
    requires SortedChildren(lists) && IsUnion(union, lists) && 0 < p <= |union| && |edge| == |lists|
    requires forall c :: 0 <= c < |lists| ==> edge[c] <= |lists[c]| && Cut(union, lists[c], edge[c], p)
    ensures c < |lists| && 0 < edge[c] && Rank(union, lists[c][edge[c] - 1]) == p - 1
  {
    hide Cut, Sorted, DistinctKeys;
    c :| 0 <= c < |lists| && union[p - 1] in lists[c];
    LastBeforeOwnCut(union, lists[c], edge[c], p);
  }

  lemma {:induction false} OwnCut(union: seq<Entry>, es: seq<Entry>, n: nat)
    requires Sorted(union) && Sorted(es) && n < |es| && forall e :: e in es ==> e in union
    ensures Cut(union, es, n, Rank(union, es[n])) && Cut(union, es, n + 1, Rank(union, es[n]) + 1)
  {
    forall j | 0 <= j < |es|
      ensures j < n <==> Rank(union, es[j]) < Rank(union, es[n])
      ensures j > n <==> Rank(union, es[j]) > Rank(union, es[n])
    {
      InOrder(es, j, n);
      InOrder(es, n, j);
      RankOrder(union, es[j], es[n]);
      RankOrder(union, es[n], es[j]);
    }
  }

  lemma {:induction false} OtherCut(union: seq<Entry>, lists: seq<seq<Entry>>, c: nat, d: nat, n: nat, p: nat)
    requires IsUnion(union, lists) && DistinctKeys(lists) && c < |lists| && d < |lists| && c != d
    requires n <= |lists[c]| && p < |union| && union[p] in lists[d]
    ensures Cut(union, lists[c], n, p) <==> Cut(union, lists[c], n, p + 1)
  {
    forall j | 0 <= j < |lists[c]| ensures Rank(union, lists[c][j]) != p {
      assert lists[c][j] in lists[c];
      RankIsPlace(union, lists[c][j]);
    }
  }

  class MergingIterator {
    const children: seq<Cursor>
    /** Index of the child that holds the current entry, if there is one. */
    var current: Option<nat>
    var direction: Direction

    /** The list this iterator walks. */
    ghost const list: seq<Entry>

    ghost predicate Shape() {
      && (forall c, d :: 0 <= c < d < |children| ==> children[c] != children[d])
      && SortedChildren(Contents(children)) && DistinctKeys(Contents(children))
      && IsUnion(list, Contents(children))
    }

    ghost predicate ChildrenOk()
      reads children
    {
      forall c :: 0 <= c < |children| ==> children[c].Ok()
    }

    ghost function Position(): nat
      reads this, children
    {
      match current
      case None => |list|
      case Some(c) =>
        if c < |children| && children[c].Valid() then Rank(list, children[c].entries[children[c].pos]) else 0
    }

    /** Where a child's cut is: at its entry when moving forward, after it when moving back. */
    ghost function Edge(c: nat): nat
      requires c < |children|
      reads this, children
    {
      if direction == Forward then children[c].pos
      else if children[c].Valid() then children[c].pos + 1 else 0
    }

    ghost function Edges(): seq<nat>
      reads this, children
    {
      seq(|children|, c requires 0 <= c < |children| reads this, children => Edge(c))
    }

    ghost predicate CutAt(p: nat)
      requires ChildrenOk()
      reads this, children
    {
      forall c :: 0 <= c < |children| ==> Cut(list, children[c].entries, Edge(c), p)
    }

    ghost predicate Valid()
      reads this, children
    {
      && Shape() && ChildrenOk()
      && (current.Some? ==>
            && current.value < |children| && children[current.value].Valid()
            && CutAt(if direction == Forward then Position() else Position() + 1))
    }

    /** The rank of the entry a child stands on. */
    ghost function RankAt(c: nat): nat
      requires c < |children| && children[c].Valid()
      reads children
    {
      Rank(list, children[c].entries[children[c].pos])
    }

    lemma {:induction false} CompareIsRank(c: nat, d: nat)
      requires Shape() && c < |children| && d < |children| && children[c].Valid() && children[d].Valid()
      ensures Before(children[c].Key(), children[d].Key()) <==> RankAt(c) < RankAt(d)
    {
      assert children[c].entries[children[c].pos] in Contents(children)[c];
      assert children[d].entries[children[d].pos] in Contents(children)[d];
      RankOrder(list, children[c].entries[children[c].pos], children[d].entries[children[d].pos]);
    }

    /** The child at the smallest place; the loop of FindSmallest. */
    method Smallest() returns (smallest: Option<nat>)
      requires Shape()
      ensures match smallest
              case None => forall c :: 0 <= c < |children| ==> !children[c].Valid()
              case Some(s) =>
                && s < |children| && children[s].Valid()
                && forall c :: 0 <= c < |children| && children[c].Valid() ==> RankAt(s) <= RankAt(c)
    {
      hide IsUnion, DistinctKeys, SortedChildren, Rank;
      smallest := None;
      for i := 0 to |children|
        invariant match smallest
                  case None => forall c :: 0 <= c < i ==> !children[c].Valid()
                  case Some(s) =>
                    && s < i && children[s].Valid()
                    && forall c :: 0 <= c < i && children[c].Valid() ==> RankAt(s) <= RankAt(c)
      {
        if children[i].Valid() {
          if smallest == None {
            smallest := Some(i);
          } else {
            CompareIsRank(i, smallest.value);
            if Before(children[i].Key(), children[smallest.value].Key()) {
              smallest := Some(i);
            }
          }
        }
      }
    }

    /** The child at the largest place; the loop of FindLargest. */
    method Largest() returns (largest: Option<nat>)
      requires Shape()
      ensures match largest
              case None => forall c :: 0 <= c < |children| ==> !children[c].Valid()
              case Some(s) =>
                && s < |children| && children[s].Valid()
                && forall c :: 0 <= c < |children| && children[c].Valid() ==> RankAt(s) >= RankAt(c)
    {
      hide IsUnion, DistinctKeys, SortedChildren, Rank;
      largest := None;
      for i := |children| downto 0
        invariant match largest
                  case None => forall c :: i <= c < |children| ==> !children[c].Valid()
                  case Some(s) =>
                    && i <= s < |children| && children[s].Valid()
                    && forall c :: i <= c < |children| && children[c].Valid() ==> RankAt(s) >= RankAt(c)
      {
        if children[i].Valid() {
          if largest == None {
            largest := Some(i);
          } else {
            CompareIsRank(largest.value, i);
            if Before(children[largest.value].Key(), children[i].Key()) {
              largest := Some(i);
            }
          }
        }
      }
    }

    method FindSmallest(ghost p: nat)
      requires Shape() && ChildrenOk() && direction == Forward && p <= |list| && CutAt(p)
      modifies `current
      ensures Valid() && Position() == p
    {
      hide Shape, Cut, Rank;
      current := Smallest();
      if current.Some? {
        NothingAfter(current.value);
        AtOrAboveCut(current.value, p);
      }
      if p < |list| {
        ghost var c := NextAtCut(p);
      }
    }

    lemma {:induction false} AtOrAboveCut(c: nat, p: nat)
      requires ChildrenOk() && CutAt(p) && c < |children| && children[c].Valid()
      ensures if direction == Forward then RankAt(c) >= p else RankAt(c) < p
    {
      assert Cut(list, children[c].entries, Edge(c), p);
    }

    lemma {:induction false} NothingAfter(c: nat)
      requires Shape() && c < |children| && children[c].Valid()
      ensures RankAt(c) < |list|
    {
      assert children[c].entries[children[c].pos] in Contents(children)[c];
      RankIsPlace(list, children[c].entries[children[c].pos]);
    }

    lemma {:induction false} NextAtCut(p: nat) returns (c: nat)
      requires Shape() && ChildrenOk() && direction == Forward && p < |list| && CutAt(p)
      ensures c < |children| && children[c].Valid() && RankAt(c) == p
    {
      hide IsUnion, DistinctKeys, SortedChildren, Rank, Cut;
      var lists := Contents(children);
      assert forall c :: 0 <= c < |lists| ==> lists[c] == children[c].entries && Edges()[c] == Edge(c);
      c := NextInUnion(list, lists, Edges(), p);
    }

    method FindLargest(ghost p: nat)
      requires Shape() && ChildrenOk() && direction == Reverse && p <= |list| && CutAt(p)
      modifies `current
      ensures Valid() && Position() == Preceding(p, |list|)
    {
      hide Shape, Cut, Rank;
      current := Largest();
      if current.Some? {
        AtOrAboveCut(current.value, p);
      }
      if p > 0 {
        ghost var c := LastAtCut(p);
      }
    }

    lemma {:induction false} LastAtCut(p: nat) returns (c: nat)
      requires Shape() && ChildrenOk() && direction == Reverse && 0 < p <= |list| && CutAt(p)
      ensures c < |children| && children[c].Valid() && RankAt(c) == p - 1
    {
      hide IsUnion, DistinctKeys, SortedChildren, Rank, Cut;
      var lists := Contents(children);
      assert forall c :: 0 <= c < |lists| ==> lists[c] == children[c].entries && Edges()[c] == Edge(c);
      c := LastInUnion(list, lists, Edges(), p);
    }

    constructor (children: seq<Cursor>)
      requires forall c, d :: 0 <= c < d < |children| ==> children[c] != children[d]
      requires forall c :: 0 <= c < |children| ==> children[c].Ok()
      requires SortedChildren(Contents(children)) && DistinctKeys(Contents(children))
      ensures Valid() && current == None && this.children == children && list == Union(Contents(children))
    {
      this.children := children;
      current := None;
      direction := Forward;
      list := Union(Contents(children));
      UnionIsUnion(Contents(children));
    }

    method Key() returns (k: InternalKey)
      requires Valid() && current.Some?
      ensures Position() < |list| && k == list[Position()].key
    {
      Standing();
      k := children[current.value].Key();
    }

    method Value() returns (v: Bytes)
      requires Valid() && current.Some?
      ensures Position() < |list| && v == list[Position()].value
    {
      Standing();
      v := children[current.value].Value();
    }

    lemma {:induction false} Standing()
      requires Valid()
      ensures current.Some? <==> Position() < |list|
      ensures current.Some? ==> list[Position()] == children[current.value].entries[children[current.value].pos]
    {
      if current.Some? {
        var c := children[current.value];
        assert c.entries[c.pos] in Contents(children)[current.value];
        RankIsPlace(list, c.entries[c.pos]);
      }
    }

    method SeekToFirst()
      requires Valid()
      modifies this, children
      ensures Valid() && Position() == 0
    {
      for i := 0 to |children|
        invariant ChildrenOk() && forall c :: 0 <= c < i ==> children[c].pos == 0
      {
        children[i].SeekToFirst();
      }
      direction := Forward;
      FindSmallest(0);
    }

    method SeekToLast()
      requires Valid()
      modifies this, children
      ensures Valid() && Position() == LastOf(|list|)
    {
      for i := 0 to |children|
        invariant ChildrenOk() && forall c :: 0 <= c < i ==> children[c].pos == LastOf(|children[c].entries|)
      {
        children[i].SeekToLast();
      }
      direction := Reverse;
      assert CutAt(|list|) by {
        forall c, j | 0 <= c < |children| && 0 <= j < Edge(c) ensures Rank(list, children[c].entries[j]) < |list| {
          assert children[c].entries[j] in Contents(children)[c];
          RankIsPlace(list, children[c].entries[j]);
        }
      }
      FindLargest(|list|);
    }

    method Seek(target: InternalKey)
      requires Valid()
      modifies this, children
      ensures Valid() && Position() == SeekIndex(list, target)
    {
      hide SeekIndex;
      for i := 0 to |children|
        invariant ChildrenOk() && forall c :: 0 <= c < i ==> children[c].pos == SeekIndex(children[c].entries, target)
      {
        children[i].Seek(target);
      }
      direction := Forward;
      forall c | 0 <= c < |children| ensures Cut(list, children[c].entries, children[c].pos, SeekIndex(list, target)) {
        assert children[c].entries == Contents(children)[c];
        SeekTargetCuts(list, children[c].entries, target);
      }
      FindSmallest(SeekIndex(list, target));
    }

    method Next()
      requires Valid() && current.Some?
      modifies this, children
      ensures Valid() && Position() == old(Position()) + 1
    {
      hide IsUnion, DistinctKeys, SortedChildren, Cut, Rank;
      ghost var p := Position();
      Standing();
      var child := children[current.value];
      if direction != Forward {
        PositionAfter(p);
      }
      StepsOverOnlyOne(p);
      child.Next();
      FindSmallest(p + 1);
    }

    method Prev()
      requires Valid() && current.Some?
      modifies this, children
      ensures Valid() && Position() == Preceding(old(Position()), |list|)
    {
      hide IsUnion, DistinctKeys, SortedChildren, Cut, Rank;
      ghost var p := Position();
      Standing();
      var child := children[current.value];
      if direction != Reverse {
        PositionBefore(p);
      }
      StepsOverOnlyOne(p);
      child.Prev();
      FindLargest(p);
    }

    /** The entry at place p is in the current child only. */
    lemma {:induction false} StepsOverOnlyOne(p: nat)
      requires Shape() && ChildrenOk() && current.Some? && current.value < |children|
      requires children[current.value].Valid() && p < |list|
      requires list[p] == children[current.value].entries[children[current.value].pos]
      ensures forall c, n :: 0 <= c < |children| && c != current.value && 0 <= n <= |children[c].entries| ==>
                (Cut(list, children[c].entries, n, p) <==> Cut(list, children[c].entries, n, p + 1))
      ensures var child := children[current.value];
              && Cut(list, child.entries, child.pos, p)
              && Cut(list, child.entries, child.pos + 1, p + 1)
    {
      hide Cut, Rank;
      var lists, child := Contents(children), children[current.value];
      assert list[p] in lists[current.value];
      RankUnique(list, p);
      OwnCut(list, child.entries, child.pos);
      forall c, n | 0 <= c < |children| && c != current.value && 0 <= n <= |children[c].entries|
        ensures Cut(list, children[c].entries, n, p) <==> Cut(list, children[c].entries, n, p + 1)
      {
        assert children[c].entries == lists[c];
        OtherCut(list, lists, c, current.value, n, p);
      }
    }

    lemma {:induction false} NoSharedKey(c: nat, d: nat)
      requires Shape() && c < |children| && d < |children| && c != d
      ensures children[c].Valid() && children[d].Valid() ==> children[c].Key() != children[d].Key()
    {
      if children[c].Valid() && children[d].Valid() {
        assert children[c].entries[children[c].pos] in Contents(children)[c];
        assert children[d].entries[children[d].pos] in Contents(children)[d];
      }
    }

    /** Put the other children after the current key. */
    method PositionAfter(ghost p: nat)
      requires Valid() && current.Some? && direction == Reverse && p == Position() < |list|
      modifies this, children
      ensures Shape() && ChildrenOk() && current == old(current) && direction == Forward
      ensures forall c :: 0 <= c < |children| && c != current.value ==>
              Cut(list, children[c].entries, children[c].pos, p)
      ensures children[current.value].pos == old(children[current.value].pos)
    {
      hide Cut, Rank, DistinctKeys;
      Standing();
      for i := 0 to |children|
        invariant ChildrenOk() && current == old(current) && direction == Reverse
        invariant children[current.value].pos == old(children[current.value].pos)
        invariant forall c :: 0 <= c < i && c != current.value ==> Cut(list, children[c].entries, children[c].pos, p)
      {
        var child := children[i];
        if i != current.value {
          child.Seek(children[current.value].Key());
          assert child.entries == Contents(children)[i];
          SeekCuts(list, child.entries, p);
          NoSharedKey(i, current.value);
          if child.Valid() && child.Key() == children[current.value].Key() {
            // The source steps over an equal key here; children share no key.
            assert false;
          }
        }
      }
      direction := Forward;
    }

    /** Put the other children before the current key. */
    method PositionBefore(ghost p: nat)
      requires Valid() && current.Some? && direction == Forward && p == Position() < |list|
      modifies this, children
      ensures Shape() && ChildrenOk() && current == old(current) && direction == Reverse
      ensures forall c :: 0 <= c < |children| && c != current.value ==> Cut(list, children[c].entries, Edge(c), p)
      ensures children[current.value].pos == old(children[current.value].pos)
    {
      hide Cut, Rank, DistinctKeys, Sorted, SeekIndex, Cursor.Ok, IsUnion, SortedChildren;
      Standing();
      ChildrenFacts();
      for i := 0 to |children|
        invariant ChildrenOk() && current == old(current) && direction == Forward
        invariant children[current.value].pos == old(children[current.value].pos)
        invariant forall c :: 0 <= c < i && c != current.value ==>
                    Cut(list, children[c].entries, if children[c].Valid() then children[c].pos + 1 else 0, p)
      {
        if i != current.value {
          SeekBefore(children[i], children[current.value].Key(), list, p);
        }
      }
      direction := Reverse;
    }

    lemma {:induction false} ChildrenFacts()
      requires Shape()
      ensures Sorted(list) && forall c, e :: 0 <= c < |children| && e in children[c].entries ==> e in list
      ensures forall c :: 0 <= c < |children| ==> Sorted(children[c].entries)
    {
      hide Sorted, DistinctKeys;
      forall c | 0 <= c < |children| ensures children[c].entries == Contents(children)[c] {
      }
    }

    /** To the last entry before the target, if there is one. */
    static method SeekBefore(child: Cursor, target: InternalKey, ghost union: seq<Entry>, ghost p: nat)
      requires child.Ok() && Sorted(union) && Sorted(child.entries) && (forall e :: e in child.entries ==> e in union)
      requires p < |union| && target == union[p].key
      modifies child
      ensures child.Ok() && Cut(union, child.entries, if child.Valid() then child.pos + 1 else 0, p)
    {
      hide Cut, Sorted, SeekIndex;
      child.Seek(target);
      SeekCuts(union, child.entries, p);
      if child.Valid() {
        child.Prev();
      } else {
        child.SeekToLast();
      }
    }
  }
}

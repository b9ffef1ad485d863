/** The skip list (db/skiplist.h).  A key is the real number that marks its place in the
    comparator's total order. */
module SkipLists {
  import opened Wrappers

  type Key = real

  const MAX_HEIGHT: nat := 12

  class Node {
    const key: Key
    /** One link for each level the node is on. */
    var next: seq<Node?>

    constructor (key: Key, height: nat)
      ensures this.key == key && |next| == height && forall l :: 0 <= l < height ==> next[l] == null
    {
      this.key := key;
      next := seq(height, _ => null);
    }
  }

  // ---------- one level ----------

  ghost function At(head: Node, s: seq<Node>, k: nat): Node
    requires k <= |s|
  {
    if k == 0 then head else s[k - 1]
  }

  ghost function Nth(s: seq<Node>, k: nat): Node? {
    if k < |s| then s[k] else null
  }

  /** From the head, the links of level l lead through the nodes of s to null. */
  ghost predicate Level(head: Node, s: seq<Node>, l: nat)
    reads head, set n | n in s
  {
    forall k :: 0 <= k <= |s| ==> l < |At(head, s, k).next| && At(head, s, k).next[l] == Nth(s, k)
  }

  ghost predicate Ascending(s: seq<Node>) {
    forall i, j :: 0 <= i < j < |s| ==> s[i].key < s[j].key
  }

  /** The first p nodes are before the key, the others are not. */
  ghost predicate Splits(s: seq<Node>, p: nat, key: Key) {
    && p <= |s|
    && (forall i :: 0 <= i < p ==> s[i].key < key)
    && (forall i :: p <= i < |s| ==> s[i].key >= key)
  }

  ghost function InsertAt(s: seq<Node>, p: nat, x: Node): seq<Node>
    requires p <= |s|
  {
    s[..p] + [x] + s[p..]
  }

  lemma {:induction false} InsertAtFacts(s: seq<Node>, p: nat, x: Node)
    requires Ascending(s) && Splits(s, p, x.key) && (p < |s| ==> s[p].key != x.key)
    ensures Ascending(InsertAt(s, p, x))
    ensures forall n :: n in InsertAt(s, p, x) <==> n in s || n == x
  {
    var r := InsertAt(s, p, x);
    assert s == s[..p] + s[p..];
    assert forall i :: 0 <= i < |r| ==> r[i] == if i < p then s[i] else if i == p then x else s[i - 1];
    forall i | p <= i < |s| ensures s[i].key > x.key {
      assert i > p ==> s[p].key < s[i].key;
    }
  }

  /** A search by another thread: the levels as they are, the node and level it has reached,
      and what it has returned. */
  datatype Search = Search(levels: seq<seq<Node>>, x: Node, level: nat, result: Option<Node?>)

  class SkipList {
    const head: Node
    var maxHeight: nat
    /** The nodes of each level, in order. */
    ghost var levels: seq<seq<Node>>

    /** The set the list stands for. */
    ghost function Keys(): set<Key>
      requires |levels| == MAX_HEIGHT
      reads this
    {
      set n | n in levels[0] :: n.key
    }

    ghost function Nodes(): set<Node>
      requires |levels| == MAX_HEIGHT
      reads this
    {
      set n | n in levels[0]
    }

    /** Every level is a sorted list whose nodes are all on the level below, and levels
        from maxHeight on are empty. */
    static ghost predicate Tower(head: Node, levels: seq<seq<Node>>, maxHeight: nat) {
      && |levels| == MAX_HEIGHT && 1 <= maxHeight <= MAX_HEIGHT
      && (forall l :: 0 <= l < MAX_HEIGHT ==> Ascending(levels[l]) && head !in levels[l])
      && (forall l :: 0 < l < MAX_HEIGHT ==> OnLevelBelow(levels, l))
      && (forall l :: maxHeight <= l < MAX_HEIGHT ==> levels[l] == [])
    }

    static ghost predicate OnLevelBelow(levels: seq<seq<Node>>, l: nat)
      requires 0 < l < |levels|
    {
      forall n :: n in levels[l] ==> n in levels[l - 1]
    }

    static lemma {:induction false} LevelInBottom(head: Node, levels: seq<seq<Node>>, maxHeight: nat, l: nat)
      requires Tower(head, levels, maxHeight) && l < MAX_HEIGHT
      ensures forall n :: n in levels[l] ==> n in levels[0]
    {
      if l > 0 {
        assert OnLevelBelow(levels, l);
        LevelInBottom(head, levels, maxHeight, l - 1);
      }
    }

    static ghost predicate AllInBottom(levels: seq<seq<Node>>)
      requires |levels| == MAX_HEIGHT
    {
      forall l, n :: 0 <= l < MAX_HEIGHT && n in levels[l] ==> n in levels[0]
    }

    static lemma {:induction false} TowerInBottom(head: Node, levels: seq<seq<Node>>, maxHeight: nat)
      requires Tower(head, levels, maxHeight)
      ensures AllInBottom(levels)
    {
      forall l | 0 <= l < MAX_HEIGHT ensures forall n :: n in levels[l] ==> n in levels[0] {
        LevelInBottom(head, levels, maxHeight, l);
      }
    }

    ghost predicate Linked()
      requires |levels| == MAX_HEIGHT && AllInBottom(levels)
      reads this, head, Nodes()
    {
      forall l :: 0 <= l < MAX_HEIGHT ==> Level(head, levels[l], l)
    }

    ghost predicate Valid()
      reads this, head, if |levels| == MAX_HEIGHT then Nodes() else {}
    {
      Tower(head, levels, maxHeight) && AllInBottom(levels) && Linked()
    }

    constructor ()
      ensures Valid() && Keys() == {}
    {
      head := new Node(0.0, MAX_HEIGHT);
      maxHeight := 1;
      levels := seq(MAX_HEIGHT, _ => []);
    }

    /** KeyIsAfterNode; null is beyond every key. */
    static predicate KeyIsAfterNode(key: Key, n: Node?) {
      n != null && n.key < key
    }

    /** On level l, x is the last node before the key, p nodes after the head. */
    ghost predicate Before(l: nat, x: Node, p: nat, key: Key)
      requires l < |levels|
      reads this
    {
      Splits(levels[l], p, key) && x == At(head, levels[l], p)
    }

    static lemma {:induction false} LaterNodesToo(s: seq<Node>, i: nat, key: Key)
      requires Ascending(s) && i <= |s| && (i < |s| ==> s[i].key >= key)
      ensures forall k :: i <= k < |s| ==> s[k].key >= key
    {
      assert forall k :: i < k < |s| ==> s[i].key < s[k].key;
    }

    /** The earliest node at or after the key, and the last one before it on every level in use. */
    method FindGreaterOrEqual(key: Key) returns (r: Node?, prev: seq<Node>, ghost places: seq<nat>)
      requires Valid()
      ensures |prev| == |places| == maxHeight
      ensures forall l :: 0 <= l < maxHeight ==> Before(l, prev[l], places[l], key)
      ensures r == Nth(levels[0], places[0])
    {
      var x, level := head, maxHeight - 1;
      ghost var i: nat := 0;
      prev, places := seq(maxHeight, _ => head), seq(maxHeight, _ => 0);
      while true
        invariant 0 <= level < maxHeight && i <= |levels[level]| && x == At(head, levels[level], i)
        invariant forall k :: 0 <= k < i ==> levels[level][k].key < key
        invariant |prev| == |places| == maxHeight
        invariant forall l :: level < l < maxHeight ==> Before(l, prev[l], places[l], key)
        decreases level, |levels[level]| - i
      {
        assert Level(head, levels[level], level);
        var next := x.next[level];
        if KeyIsAfterNode(key, next) {
          x := next;
          i := i + 1;
        } else {
          prev, places := prev[level := x], places[level := i];
          LaterNodesToo(levels[level], i, key);
          assert Before(level, x, i, key);
          if level == 0 {
            return next, prev, places;
          }
          assert OnLevelBelow(levels, level);
          i := OneLevelDown(head, levels[level], levels[level - 1], i, key);
          level := level - 1;
        }
      }
    }

    /** A node on one level is on the level below, with only smaller keys before it. */
    static lemma {:induction false} OneLevelDown(head: Node, upper: seq<Node>, lower: seq<Node>, i: nat, key: Key)
      returns (j: nat)
      requires i <= |upper| && Ascending(lower) && forall n :: n in upper ==> n in lower
      requires forall k :: 0 <= k < i ==> upper[k].key < key
      ensures j <= |lower| && At(head, lower, j) == At(head, upper, i)
      ensures forall k :: 0 <= k < j ==> lower[k].key < key
    {
      if i == 0 {
        j := 0;
      } else {
        var n := upper[i - 1];
        assert n in upper;
        var k :| 0 <= k < |lower| && lower[k] == n;
        j := k + 1;
      }
    }

    /** The latest node with a smaller key, or the head. */
    method FindLessThan(key: Key) returns (x: Node, ghost p: nat)
      requires Valid()
      ensures Before(0, x, p, key)
    {
      x, p := head, 0;
      var level := maxHeight - 1;
      while true
        invariant 0 <= level < maxHeight && p <= |levels[level]| && x == At(head, levels[level], p)
        invariant forall k :: 0 <= k < p ==> levels[level][k].key < key
        decreases level, |levels[level]| - p
      {
        assert Level(head, levels[level], level);
        var next := x.next[level];
        if next == null || next.key >= key {
          LaterNodesToo(levels[level], p, key);
          if level == 0 {
            return;
          }
          assert OnLevelBelow(levels, level);
          p := OneLevelDown(head, levels[level], levels[level - 1], p, key);
          level := level - 1;
        } else {
          x := next;
          p := p + 1;
        }
      }
    }

    /** The last node, or the head of an empty list. */
    method FindLast() returns (x: Node)
      requires Valid()
      ensures x == At(head, levels[0], |levels[0]|)
    {
      x := head;
      ghost var p: nat := 0;
      var level := maxHeight - 1;
      while true
        invariant 0 <= level < maxHeight && p <= |levels[level]| && x == At(head, levels[level], p)
        decreases level, |levels[level]| - p
      {
        assert Level(head, levels[level], level);
        var next := x.next[level];
        if next == null {
          if level == 0 {
            return;
          }
          assert OnLevelBelow(levels, level);
          p := SamePlaceDown(head, levels[level], levels[level - 1], p);
          level := level - 1;
        } else {
          x := next;
          p := p + 1;
        }
      }
    }

    static lemma {:induction false} SamePlaceDown(head: Node, upper: seq<Node>, lower: seq<Node>, i: nat)
      returns (j: nat)
      requires i <= |upper| && forall n :: n in upper ==> n in lower
      ensures j <= |lower| && At(head, lower, j) == At(head, upper, i)
    {
      if i == 0 {
        j := 0;
      } else {
        assert upper[i - 1] in upper;
        var k :| 0 <= k < |lower| && lower[k] == upper[i - 1];
        j := k + 1;
      }
    }

    method Contains(key: Key) returns (r: bool)
      requires Valid()
      ensures r <==> key in Keys()
    {
      var x, prev;
      ghost var places;
      x, prev, places := FindGreaterOrEqual(key);
      assert Before(0, prev[0], places[0], key);
      r := x != null && x.key == key;
    }

    // ---------- insertion ----------

    /** The two link writes that put x on level l, after prev. */
    method Link(x: Node, prev: Node, l: nat, ghost p: nat)
      requires Valid() && l < maxHeight && l < |x.next|
      requires x != head && (if l == 0 then x !in Nodes() else x in levels[l - 1])
      requires forall m :: l <= m < MAX_HEIGHT ==> x !in levels[m]
      requires Before(l, prev, p, x.key) && (p < |levels[l]| ==> levels[l][p].key != x.key)
      modifies this`levels, x`next, prev`next
      ensures Valid() && levels == old(levels)[l := InsertAt(old(levels[l]), p, x)]
      ensures Links(head, old(levels), levels, x)
      ensures |x.next| == old(|x.next|)
    {
      ghost var before, s := levels, levels[l];
      ghost var r := InsertAt(s, p, x);
      TowerInsert(head, levels, maxHeight, l, p, x);
      assert Level(head, s, l);
      assert AllInBottom(levels);
      x.next := x.next[l := prev.next[l]];
      prev.next := prev.next[l := x];
      levels := levels[l := r];
      forall k | 0 <= k <= |r| ensures l < |At(head, r, k).next| && At(head, r, k).next[l] == Nth(r, k) {
        if k <= p {
          assert At(head, r, k) == At(head, s, k);
        } else if k > p + 1 {
          assert At(head, r, k) == At(head, s, k - 1) && Nth(r, k) == Nth(s, k - 1);
        }
      }
      forall m | 0 <= m < MAX_HEIGHT && m != l ensures Level(head, levels[m], m) {
        assert levels[m] == before[m];
        assert old(Level(head, before[m], m));
      }
      assert LinkedAt(before, levels, l, p) && levels[l][p] == x;
    }

    static lemma {:induction false} TowerInsert(head: Node, levels: seq<seq<Node>>, maxHeight: nat, l: nat, p: nat,
                                                x: Node)
      requires Tower(head, levels, maxHeight) && l < maxHeight && x != head
      requires (l > 0 ==> x in levels[l - 1])
      requires Splits(levels[l], p, x.key) && (p < |levels[l]| ==> levels[l][p].key != x.key)
      ensures Tower(head, levels[l := InsertAt(levels[l], p, x)], maxHeight)
      ensures AllInBottom(levels[l := InsertAt(levels[l], p, x)])
    {
      var r := levels[l := InsertAt(levels[l], p, x)];
      InsertAtFacts(levels[l], p, x);
      forall m | 0 < m < MAX_HEIGHT ensures OnLevelBelow(r, m) {
        assert OnLevelBelow(levels, m);
      }
      TowerInBottom(head, r, maxHeight);
    }

    /** Insert a key that is not in the list; `height` is what RandomHeight returns.  The trace
        has the levels before the first link write and after each one. */
    method Insert(key: Key, height: nat) returns (ghost node: Node, ghost trace: seq<seq<seq<Node>>>)
      requires Valid() && key !in Keys() && 1 <= height <= MAX_HEIGHT
      modifies this, head, Nodes()
      ensures Valid() && Keys() == old(Keys()) + {key}
      ensures node.key == key && |trace| == height + 1 && trace[0] == old(levels) && trace[height] == levels
      ensures LinkTrace(head, node, trace)
      ensures forall i :: 0 <= i < |trace| ==>
              StandsFor(trace[i], old(Keys())) || StandsFor(trace[i], old(Keys()) + {key})
    {
      ghost var before := levels;
      var x, prev;
      ghost var places;
      x, prev, places := FindGreaterOrEqual(key);
      prev, places := RaiseHeight(key, height, prev, places);
      assert levels == before;
      PlacesFound(key, prev, places);
      x := new Node(key, height);
      node := x;
      trace := LinkAll(x, height, prev, places);
      forall i | 0 <= i < |trace| ensures StandsFor(trace[i], old(Keys())) || StandsFor(trace[i], old(Keys()) + {key}) {
        OldOrNewSet(head, x, trace, i);
      }
      InsertAtFacts(before[0], places[0], x);
    }

    /** On every level in use the key goes after prev[l], and is not there yet. */
    ghost predicate Places(levels: seq<seq<Node>>, prev: seq<Node>, places: seq<nat>, key: Key) {
      && |prev| == |places| <= |levels|
      && forall l :: 0 <= l < |prev| ==> Place(levels[l], prev[l], places[l], key)
    }

    ghost predicate Place(s: seq<Node>, prev: Node, p: nat, key: Key) {
      Splits(s, p, key) && prev == At(head, s, p) && (p < |s| ==> s[p].key != key)
    }

    lemma {:induction false} PlacesFound(key: Key, prev: seq<Node>, places: seq<nat>)
      requires Valid() && key !in Keys() && |prev| == |places| == maxHeight
      requires forall l :: 0 <= l < maxHeight ==> Before(l, prev[l], places[l], key)
      ensures Places(levels, prev, places, key)
      ensures forall l :: 0 <= l < maxHeight ==> prev[l] == head || prev[l] in Nodes()
    {
      forall l | 0 <= l < maxHeight
        ensures Place(levels[l], prev[l], places[l], key) && (prev[l] == head || prev[l] in Nodes())
      {
        assert Before(l, prev[l], places[l], key);
        forall n | n in levels[l] ensures n.key != key {
          assert n in levels[0];
        }
        if places[l] > 0 {
          assert prev[l] in levels[l];
        }
      }
    }

    /** The loop of Insert, bottom level first. */
    method LinkAll(x: Node, height: nat, prev: seq<Node>, ghost places: seq<nat>)
      returns (ghost trace: seq<seq<seq<Node>>>)
      requires Valid() && 1 <= height <= maxHeight && |prev| == maxHeight && Places(levels, prev, places, x.key)
      requires |x.next| == height && x != head && x !in Nodes()
      requires forall l :: 0 <= l < maxHeight ==> prev[l] == head || prev[l] in Nodes()
      modifies this`levels, x`next, head`next, Nodes()`next
      ensures Valid() && levels[0] == InsertAt(old(levels)[0], places[0], x)
      ensures |trace| == height + 1 && trace[0] == old(levels) && trace[height] == levels && LinkTrace(head, x, trace)
    {
      hide LinkTrace, Links, LinkedAt;
      ghost var before := levels;
      trace := [levels];
      NoWrites(head, x, levels);
      var i := 0;
      while i < height
        invariant i <= height && Valid() && |x.next| == height
        invariant forall m :: i <= m < MAX_HEIGHT ==> levels[m] == before[m]
        invariant i > 0 ==> x in levels[i - 1] && levels[0] == InsertAt(before[0], places[0], x)
        invariant |trace| == i + 1 && trace[0] == before && trace[i] == levels && LinkTrace(head, x, trace)
      {
        assert Place(before[i], prev[i], places[i], x.key);
        assert forall m :: i <= m < MAX_HEIGHT ==> x !in levels[m];
        Link(x, prev[i], i, places[i]);
        assert InsertAt(before[i], places[i], x)[places[i]] == x;
        OneMoreWrite(head, x, trace, levels);
        trace := trace + [levels];
        i := i + 1;
      }
    }

    /** Raise the height of the list; the new levels are empty, so the head precedes the key there. */
    method RaiseHeight(key: Key, height: nat, prev: seq<Node>, ghost places: seq<nat>)
      returns (prev': seq<Node>, ghost places': seq<nat>)
      requires Valid() && height <= MAX_HEIGHT && |prev| == |places| == maxHeight
      requires forall l :: 0 <= l < maxHeight ==> Before(l, prev[l], places[l], key)
      modifies this`maxHeight
      ensures Valid() && height <= maxHeight && |prev'| == |places'| == maxHeight
      ensures forall l :: 0 <= l < maxHeight ==> Before(l, prev'[l], places'[l], key)
      ensures places'[0] == places[0]
    {
      prev', places' := prev, places;
      if height > maxHeight {
        while |prev'| < height
          invariant maxHeight <= |prev'| == |places'| <= height && places'[0] == places[0]
          invariant forall l :: 0 <= l < |prev'| ==> Before(l, prev'[l], places'[l], key)
        {
          assert Before(|prev'|, head, 0, key);
          prev', places' := prev' + [head], places' + [0];
        }
        maxHeight := height;
      }
    }

    // ---------- readers that run while an insertion links ----------

    /** A search that has reached node x on some level. */
    static ghost predicate Reading(head: Node, levels: seq<seq<Node>>, x: Node, level: nat, target: Key) {
      level < |levels| && (x == head || (x in levels[level] && x.key < target))
    }

    /** A link write does not disturb a search under way: no node leaves a level. */
    static lemma {:induction false} LinkKeepsReading(head: Node, levels: seq<seq<Node>>, l: nat, p: nat, n: Node,
                                                     x: Node, level: nat, target: Key)
      requires l < |levels| && p <= |levels[l]| && Reading(head, levels, x, level, target)
      ensures Reading(head, levels[l := InsertAt(levels[l], p, n)], x, level, target)
    {
      assert levels[l] == levels[l][..p] + levels[l][p..];
    }

    /** One load of a search.  When it ends, its result is the first node at or after the
        target in the list as it is at that moment, whatever was linked meanwhile. */
    method ReadStep(x: Node, level: nat, target: Key) returns (x': Node, level': nat, found: bool, r: Node?)
      requires Valid() && Reading(head, levels, x, level, target)
      ensures !found ==> Reading(head, levels, x', level', target)
      ensures found ==> exists p :: Splits(levels[0], p, target) && r == Nth(levels[0], p)
      ensures Load(head, target, Search(levels, x, level, None),
                   Search(levels, x', level', if found then Some(r) else None))
    {
      ghost var p: nat := 0;
      if x != head {
        p := PlaceOf(levels[level], x);
      }
      assert Level(head, levels[level], level) && x == At(head, levels[level], p);
      var next := x.next[level];
      x', level', found, r := x, level, false, null;
      if KeyIsAfterNode(target, next) {
        x' := next;
      } else if level == 0 {
        found, r := true, next;
        assert forall k :: 0 <= k < p ==> levels[0][k].key < target;
        LaterNodesToo(levels[0], p, target);
        assert Splits(levels[0], p, target);
      } else {
        assert OnLevelBelow(levels, level);
        level' := level - 1;
      }
      assert LoadAt(head, target, Search(levels, x, level, None),
                    Search(levels, x', level', if found then Some(r) else None), p);
    }

    // ---------- a whole search ----------

    /** One link write: a node comes to stand at place p of level l. */
    static ghost predicate LinkedAt(levels: seq<seq<Node>>, levels': seq<seq<Node>>, l: nat, p: nat) {
      && l < |levels| == |levels'| && p <= |levels[l]| && p < |levels'[l]|
      && levels' == levels[l := InsertAt(levels[l], p, levels'[l][p])]
    }

    /** One link write for this node leads from a skip list to a skip list. */
    static ghost predicate Links(head: Node, levels: seq<seq<Node>>, levels': seq<seq<Node>>, n: Node) {
      && (exists l: nat, p: nat :: LinkedAt(levels, levels', l, p) && levels'[l][p] == n)
      && Tower(head, levels', MAX_HEIGHT)
    }

    /** The levels between the link writes of one insertion. */
    static ghost predicate LinkTrace(head: Node, n: Node, trace: seq<seq<seq<Node>>>) {
      forall i :: 0 < i < |trace| ==> Links(head, trace[i - 1], trace[i], n)
    }

    static ghost predicate StandsFor(levels: seq<seq<Node>>, keys: set<Key>) {
      levels != [] && KeysOf(levels) == keys
    }

    static lemma {:induction false} NoWrites(head: Node, n: Node, levels: seq<seq<Node>>)
      ensures LinkTrace(head, n, [levels])
    {
    }

    static lemma {:induction false} OneMoreWrite(head: Node, n: Node, trace: seq<seq<seq<Node>>>,
                                                 levels: seq<seq<Node>>)
      requires trace != [] && LinkTrace(head, n, trace) && Links(head, trace[|trace| - 1], levels, n)
      ensures LinkTrace(head, n, trace + [levels])
    {
      hide Links;
    }

    static ghost function KeysOf(levels: seq<seq<Node>>): set<Key>
      requires levels != []
    {
      set n | n in levels[0] :: n.key
    }

    /** Between two link writes of an insertion the list stands for the old set or the new one. */
    static lemma {:induction false} OldOrNewSet(head: Node, n: Node, trace: seq<seq<seq<Node>>>, i: nat)
      requires LinkTrace(head, n, trace) && i < |trace| && |trace[0]| == MAX_HEIGHT
      ensures |trace[i]| == MAX_HEIGHT
      ensures KeysOf(trace[i]) == KeysOf(trace[0]) || KeysOf(trace[i]) == KeysOf(trace[0]) + {n.key}
    {
      if i > 0 {
        OldOrNewSet(head, n, trace, i - 1);
        LinkAddsOne(head, trace[i - 1], trace[i], n);
      }
    }

    static lemma {:induction false} LinkAddsOne(head: Node, levels: seq<seq<Node>>, levels': seq<seq<Node>>, n: Node)
      requires Links(head, levels, levels', n) && |levels| == MAX_HEIGHT
      ensures |levels'| == MAX_HEIGHT
      ensures KeysOf(levels') == KeysOf(levels) || KeysOf(levels') == KeysOf(levels) + {n.key}
    {
      hide Tower;
      var l: nat, p: nat :| LinkedAt(levels, levels', l, p) && levels'[l][p] == n;
      if l == 0 {
        var s, r := levels[0], InsertAt(levels[0], p, n);
        assert s == s[..p] + s[p..];
        assert forall x :: x in r <==> x in s || x == n;
      }
    }

    /** The search reads one link, and moves right, down or to its end. */
    static ghost predicate Load(head: Node, target: Key, s: Search, s': Search) {
      s.result == None && s.level < |s.levels| &&
      exists p: nat :: p <= |s.levels[s.level]| && LoadAt(head, target, s, s', p)
    }

    static ghost predicate LoadAt(head: Node, target: Key, s: Search, s': Search, p: nat)
      requires s.level < |s.levels| && p <= |s.levels[s.level]|
    {
      var next := Nth(s.levels[s.level], p);
      && s.x == At(head, s.levels[s.level], p)
      && s' == if KeyIsAfterNode(target, next) then s.(x := next)
               else if s.level == 0 then s.(result := Some(next))
               else s.(level := s.level - 1)
    }

    /** Meanwhile an insertion may write a link. */
    static ghost predicate Write(head: Node, s: Search, s': Search) {
      && s' == s.(levels := s'.levels) && Tower(head, s'.levels, MAX_HEIGHT)
      && exists l: nat, p: nat :: LinkedAt(s.levels, s'.levels, l, p)
    }

    /** From the head, on whatever level is the highest then, in any interleaving with link writes. */
    static ghost predicate SearchRun(head: Node, target: Key, run: seq<Search>) {
      && run != [] && Tower(head, run[0].levels, MAX_HEIGHT)
      && run[0].x == head && run[0].level < MAX_HEIGHT && run[0].result == None
      && forall i :: 0 < i < |run| ==> Load(head, target, run[i - 1], run[i]) || Write(head, run[i - 1], run[i])
    }

    static lemma {:induction false} StillReading(head: Node, target: Key, run: seq<Search>, i: nat)
      requires SearchRun(head, target, run) && i < |run|
      ensures Tower(head, run[i].levels, MAX_HEIGHT)
      ensures run[i].result == None ==> Reading(head, run[i].levels, run[i].x, run[i].level, target)
    {
      if i > 0 {
        StillReading(head, target, run, i - 1);
        var s, s' := run[i - 1], run[i];
        if Write(head, s, s') && s.result == None {
          var l: nat, p: nat :| LinkedAt(s.levels, s'.levels, l, p);
          LinkKeepsReading(head, s.levels, l, p, s'.levels[l][p], s.x, s.level, target);
        } else if s'.result == None {
          LoadKeepsReading(head, target, s, s');
        }
      }
    }

    static lemma {:induction false} LoadKeepsReading(head: Node, target: Key, s: Search, s': Search)
      requires Tower(head, s.levels, MAX_HEIGHT) && Reading(head, s.levels, s.x, s.level, target)
      requires Load(head, target, s, s')
      ensures Reading(head, s'.levels, s'.x, s'.level, target)
    {
      if s.level > 0 {
        assert OnLevelBelow(s.levels, s.level);
      }
    }

    /** Any search that ends returns the first node at or after the target in the list as it is
        at that moment, whatever was linked before and during the search. */
    static lemma {:induction false} SearchEndsRight(head: Node, target: Key, run: seq<Search>, i: nat)
      requires SearchRun(head, target, run) && 0 < i < |run| && run[i - 1].result == None && run[i].result != None
      ensures run[i].levels != [] && exists p: nat ::
              Splits(run[i].levels[0], p, target) && run[i].result == Some(Nth(run[i].levels[0], p))
    {
      StillReading(head, target, run, i - 1);
      var s, s' := run[i - 1], run[i];
      var p: nat :| p <= |s.levels[s.level]| && LoadAt(head, target, s, s', p);
      var bottom := s.levels[0];
      forall k | 0 <= k < p ensures bottom[k].key < target {
        assert k < p - 1 ==> bottom[k].key < bottom[p - 1].key;
      }
      LaterNodesToo(bottom, p, target);
      assert Splits(bottom, p, target);
    }

    /** So its answer about the target's presence is right for that moment. */
    static lemma {:induction false} AnswersForNow(head: Node, target: Key, run: seq<Search>, i: nat)
      requires SearchRun(head, target, run) && 0 < i < |run| && run[i - 1].result == None && run[i].result != None
      ensures run[i].levels != []
      ensures var r := run[i].result.value; (r != null && r.key == target) <==> target in KeysOf(run[i].levels)
    {
      SearchEndsRight(head, target, run, i);
      StillReading(head, target, run, i);
      var bottom := run[i].levels[0];
      var p: nat :| Splits(bottom, p, target) && run[i].result == Some(Nth(bottom, p));
      if target in KeysOf(run[i].levels) {
        var n :| n in bottom && n.key == target;
        var j :| 0 <= j < |bottom| && bottom[j] == n;
        assert p <= j && bottom[p].key >= target;
        assert p == j;
      }
    }

    static lemma {:induction false} PlaceOf(s: seq<Node>, x: Node) returns (p: nat)
      requires x in s && Ascending(s)
      ensures 0 < p <= |s| && s[p - 1] == x && forall k :: 0 <= k < p ==> s[k].key <= x.key
    {
      var i :| 0 <= i < |s| && s[i] == x;
      p := i + 1;
      assert forall k :: 0 <= k < i ==> s[k].key < s[i].key;
    }
  }

  /** SkipList::Iterator: an index into the bottom level. */
  class Iterator {
    const list: SkipList
    var node: Node?
    /** The number of nodes before the current one; that of all nodes when there is none. */
    ghost var place: nat

    ghost predicate Valid()
      reads this, list, list.head, if |list.levels| == MAX_HEIGHT then list.Nodes() else {}
    {
      list.Valid() && place <= |list.levels[0]| && node == Nth(list.levels[0], place)
    }

    constructor (list: SkipList)
      requires list.Valid()
      ensures Valid() && this.list == list && node == null
    {
      this.list := list;
      node := null;
      place := |list.levels[0]|;
    }

    method Next()
      requires Valid() && node != null
      modifies this
      ensures Valid() && place == old(place) + 1
    {
      assert Level(list.head, list.levels[0], 0) && node == At(list.head, list.levels[0], place + 1);
      node := node.next[0];
      place := place + 1;
    }

    method Prev()
      requires Valid() && node != null
      modifies this
      ensures Valid() && place == if old(place) == 0 then |list.levels[0]| else old(place) - 1
    {
      var x;
      ghost var p;
      x, p := list.FindLessThan(node.key);
      assert p == place;
      if x == list.head {
        node, place := null, |list.levels[0]|;
      } else {
        node, place := x, p - 1;
      }
    }

    method Seek(target: Key)
      requires Valid()
      modifies this
      ensures Valid() && Splits(list.levels[0], place, target)
    {
      var x, prev;
      ghost var places;
      x, prev, places := list.FindGreaterOrEqual(target);
      assert list.Before(0, prev[0], places[0], target);
      node, place := x, places[0];
    }

    method SeekToFirst()
      requires Valid()
      modifies this
      ensures Valid() && place == 0
    {
      assert Level(list.head, list.levels[0], 0) && list.head == At(list.head, list.levels[0], 0);
      node, place := list.head.next[0], 0;
    }

    method SeekToLast()
      requires Valid()
      modifies this
      ensures Valid() && place == if list.levels[0] == [] then 0 else |list.levels[0]| - 1
    {
      var x := list.FindLast();
      if x == list.head {
        node, place := null, 0;
      } else {
        node, place := x, |list.levels[0]| - 1;
      }
    }
  }
}


/** HandleTable (util/cache.cc): a hash table that refines a finite map from keys to
    entries.  A bucket's chain, linked through the entries in the source, is a sequence. */
module HandleTables {
  import opened Coding
  import opened LruHandles

  type Chain = seq<LRUHandle>

  /** hash & (length - 1): the length is a power of two, so masking is the remainder. */
  function Index(hash: nat, length: nat): (b: nat)
    requires length > 0
    ensures b < length
  {
    hash % length
  }

  predicate PowerOfTwo(n: nat) {
    n == 1 || (n > 1 && n % 2 == 0 && PowerOfTwo(n / 2))
  }

  /** Every entry of `nodes` is in the bucket of its hash, once, and nothing else is. */
  ghost predicate Buckets(chains: seq<Chain>, nodes: set<LRUHandle>) {
    && |chains| > 0
    && (forall b, h :: 0 <= b < |chains| && h in chains[b] ==> h in nodes && Index(h.hash, |chains|) == b)
    && (forall h :: h in nodes ==> h in chains[Index(h.hash, |chains|)])
    && (forall b :: 0 <= b < |chains| ==> Distinct(chains[b]))
  }

  ghost predicate UniqueKeys(nodes: set<LRUHandle>) {
    forall x, y :: x in nodes && y in nodes && x.key == y.key && x.hash == y.hash ==> x == y
  }

  predicate Matches(h: LRUHandle, key: Bytes, hash: nat) {
    h.hash == hash && h.key == key
  }

  function Total(chains: seq<Chain>): nat {
    if chains == [] then 0 else Total(chains[..|chains| - 1]) + |chains[|chains| - 1]|
  }

  lemma {:induction false} TotalUpdate(chains: seq<Chain>, b: nat, c: Chain)
    requires b < |chains|
    ensures Total(chains[b := c]) == Total(chains) - |chains[b]| + |c|
  {
    var n := |chains| - 1;
    if b == n {
      assert chains[b := c][..n] == chains[..n];
    } else {
      assert chains[b := c][..n] == chains[..n][b := c];
      TotalUpdate(chains[..n], b, c);
    }
  }

  lemma {:induction false} EmptyTotal(chains: seq<Chain>)
    requires forall b :: 0 <= b < |chains| ==> chains[b] == []
    ensures Total(chains) == 0
  {
    if chains != [] {
      EmptyTotal(chains[..|chains| - 1]);
    }
  }

  /** One chain changes, and the entries with it. */
  lemma {:induction false} BucketsUpdate(chains: seq<Chain>, nodes: set<LRUHandle>, b: nat, c: Chain,
                                         nodes': set<LRUHandle>)
    requires Buckets(chains, nodes) && b < |chains| && Distinct(c)
    requires forall h :: h in c ==> h in nodes' && Index(h.hash, |chains|) == b
    requires forall h :: h in nodes' ==> if Index(h.hash, |chains|) == b then h in c else h in nodes
    requires forall h :: h in nodes && Index(h.hash, |chains|) != b ==> h in nodes'
    ensures Buckets(chains[b := c], nodes')
  {
    hide Index;
  }

  lemma {:induction false} WithoutMembers(c: Chain, i: nat)
    requires i < |c| && Distinct(c)
    ensures Distinct(Without(c, i)) && forall h :: h in Without(c, i) <==> h in c && h != c[i]
  {
    var r := Without(c, i);
    forall h | h in c && h != c[i] ensures h in r {
      var k :| 0 <= k < |c| && c[k] == h;
      assert r[if k < i then k else k - 1] == h;
    }
  }

  class HandleTable {
    var list: array<Chain>
    var elems: nat
    ghost var nodes: set<LRUHandle>

    ghost predicate Valid()
      reads this, list
    {
      && PowerOfTwo(list.Length) && list.Length >= 4
      && Buckets(list[..], nodes) && UniqueKeys(nodes)
      && elems == Total(list[..]) && elems <= list.Length
    }

    /** The least number of buckets, a power of two from 4 on, for that many entries. */
    static ghost predicate Fits(buckets: nat, elems: nat) {
      PowerOfTwo(buckets) && elems <= buckets && buckets >= 4 && (buckets > 4 ==> buckets / 2 < elems)
    }

    constructor ()
      ensures Valid() && nodes == {} && fresh(list) && list.Length == 4
    {
      nodes := {};
      elems := 0;
      list := new Chain[4](_ => []);
      new;
      EmptyTotal(list[..]);
      assert PowerOfTwo(4) by { assert PowerOfTwo(2) && PowerOfTwo(1); }
    }

    /** The bucket of a key, and the place in its chain of the matching entry, or its end. */
    method FindPointer(key: Bytes, hash: nat) returns (b: nat, i: nat)
      requires Valid()
      ensures b < list.Length && b == Index(hash, list.Length) && i <= |list[b]|
      ensures i < |list[b]| ==> Matches(list[b][i], key, hash) && list[b][i] in nodes
      ensures i == |list[b]| ==> forall h :: h in nodes ==> !Matches(h, key, hash)
    {
      b, i := Index(hash, list.Length), 0;
      assert list[..][b] == list[b];
      while i < |list[b]| && !Matches(list[b][i], key, hash)
        invariant i <= |list[b]|
        invariant forall k :: 0 <= k < i ==> !Matches(list[b][k], key, hash)
      {
        i := i + 1;
      }
      if i < |list[b]| {
        assert list[b][i] in list[..][b];
      }
      forall h | h in nodes ensures Matches(h, key, hash) ==> h in list[b] {
        assert h in list[..][Index(h.hash, |list[..]|)];
      }
    }

    method Lookup(key: Bytes, hash: nat) returns (r: LRUHandle?)
      requires Valid()
      ensures r != null ==> r in nodes && Matches(r, key, hash)
      ensures r == null ==> forall h :: h in nodes ==> !Matches(h, key, hash)
    {
      var b, i := FindPointer(key, hash);
      r := if i < |list[b]| then list[b][i] else null;
    }

    /** Insert an entry; one with the same key is replaced and returned. */
    method Insert(h: LRUHandle) returns (replaced: LRUHandle?)
      requires Valid() && h !in nodes
      modifies this, list
      ensures Valid() && (list == old(list) || fresh(list))
      ensures replaced != null ==> replaced in old(nodes) && Matches(replaced, h.key, h.hash)
      ensures replaced == null ==> forall x :: x in old(nodes) ==> !Matches(x, h.key, h.hash)
      ensures nodes == old(nodes) - (if replaced == null then {} else {replaced}) + {h}
      ensures forall x :: x in nodes && x != h ==> !Matches(x, h.key, h.hash)
      ensures elems == old(elems) + if replaced == null then 1 else 0
      ensures if elems > old(list).Length then Fits(list.Length, elems) else list == old(list)
    {
      hide Index, Total, PowerOfTwo;
      var b, i := FindPointer(h.key, h.hash);
      ghost var before, c := list[..], list[b];
      assert c == before[b] && h !in c;
      if i < |list[b]| {
        replaced := list[b][i];
        list[b] := list[b][i := h];
        ReplaceMembers(c, i, h);
        UpdateChain(before, nodes, b, c[i := h], list[..], nodes - {replaced} + {h});
        nodes := nodes - {replaced} + {h};
      } else {
        replaced := null;
        list[b] := list[b] + [h];
        UpdateChain(before, nodes, b, c + [h], list[..], nodes + {h});
        nodes := nodes + {h};
        elems := elems + 1;
        if elems > list.Length {
          Resize();
        }
      }
    }

    /** What changing one chain does to the table. */
    static lemma {:induction false} UpdateChain(before: seq<Chain>, nodes: set<LRUHandle>, b: nat, c: Chain,
                                                after: seq<Chain>, nodes': set<LRUHandle>)
      requires Buckets(before, nodes) && b < |before| && Distinct(c) && after == before[b := c]
      requires forall h :: h in c ==> h in nodes' && Index(h.hash, |before|) == b
      requires forall h :: h in nodes' ==> if Index(h.hash, |before|) == b then h in c else h in nodes
      requires forall h :: h in nodes && Index(h.hash, |before|) != b ==> h in nodes'
      ensures Buckets(after, nodes') && Total(after) == Total(before) - |before[b]| + |c|
    {
      hide Index;
      BucketsUpdate(before, nodes, b, c, nodes');
      TotalUpdate(before, b, c);
    }

    static lemma {:induction false} ReplaceMembers(c: Chain, i: nat, h: LRUHandle)
      requires i < |c| && Distinct(c) && h !in c
      ensures Distinct(c[i := h]) && forall x :: x in c[i := h] <==> x == h || (x in c && x != c[i])
    {
      forall x | x in c && x != c[i] ensures x in c[i := h] {
        var k :| 0 <= k < |c| && c[k] == x;
        assert c[i := h][k] == x;
      }
      assert c[i := h][i] == h;
    }

    method Remove(key: Bytes, hash: nat) returns (result: LRUHandle?)
      requires Valid()
      modifies this, list
      ensures Valid() && list == old(list)
      ensures result != null ==> result in old(nodes) && Matches(result, key, hash)
      ensures result == null ==> forall x :: x in old(nodes) ==> !Matches(x, key, hash)
      ensures nodes == old(nodes) - if result == null then {} else {result}
      ensures forall x :: x in nodes ==> !Matches(x, key, hash)
    {
      hide Index;
      var b, i := FindPointer(key, hash);
      ghost var before, c := list[..], list[b];
      assert c == before[b];
      if i < |list[b]| {
        result := list[b][i];
        list[b] := Without(list[b], i);
        WithoutMembers(c, i);
        UpdateChain(before, nodes, b, Without(c, i), list[..], nodes - {result});
        nodes := nodes - {result};
        elems := elems - 1;
      } else {
        result := null;
      }
    }

    /** Rebuild the table with at least as many buckets as entries. */
    method Resize()
      requires PowerOfTwo(list.Length) && list.Length >= 4 && Buckets(list[..], nodes) && UniqueKeys(nodes)
      requires elems == Total(list[..])
      modifies this`list
      ensures Valid() && fresh(list) && Fits(list.Length, elems)
    {
      hide Index, Total, Buckets;
      var newLength := 4;
      assert PowerOfTwo(4) by { assert PowerOfTwo(2) && PowerOfTwo(1); }
      while newLength < elems
        invariant PowerOfTwo(newLength) && newLength >= 4 && (newLength > 4 ==> newLength / 2 < elems)
        decreases elems - newLength
      {
        newLength := newLength * 2;
      }
      var newList := new Chain[newLength](_ => []);
      EmptyTotal(newList[..]);
      EmptyBuckets(newList[..]);
      EmptyTotal(list[..][..0]);
      ghost var chains, moved: set<LRUHandle> := list[..], {};
      for i := 0 to list.Length
        invariant list == old(list) && fresh(newList) && chains == list[..] && Buckets(newList[..], moved)
        invariant Total(newList[..]) == Total(chains[..i])
        invariant forall h :: h in moved <==> h in nodes && Index(h.hash, |chains|) < i
      {
        BucketMembers(chains, nodes, i);
        moved := MoveChain(newList, list[i], i, |chains|, moved);
        TotalNext(chains, i);
      }
      assert chains[..|chains|] == chains;
      list := newList;
      assert nodes == moved;
    }

    static lemma {:induction false} EmptyBuckets(chains: seq<Chain>)
      requires |chains| > 0 && forall b :: 0 <= b < |chains| ==> chains[b] == []
      ensures Buckets(chains, {})
    {
    }

    static lemma {:induction false} TotalNext(chains: seq<Chain>, i: nat)
      requires i < |chains|
      ensures Total(chains[..i + 1]) == Total(chains[..i]) + |chains[i]|
    {
      assert chains[..i + 1][..i] == chains[..i];
    }

    static lemma {:induction false} BucketMembers(chains: seq<Chain>, nodes: set<LRUHandle>, i: nat)
      requires Buckets(chains, nodes) && i < |chains|
      ensures forall h :: h in chains[i] <==> h in nodes && Index(h.hash, |chains|) == i
      ensures Distinct(chains[i])
    {
      hide Index;
    }

    /** Move the entries of bucket i, one by one, to the front of their new chains. */
    method MoveChain(newList: array<Chain>, chain: Chain, ghost i: nat, ghost length: nat, ghost moved: set<LRUHandle>)
      returns (ghost moved': set<LRUHandle>)
      requires Buckets(newList[..], moved) && length > 0 && Distinct(chain)
      requires forall h :: h in chain ==> h !in moved && Index(h.hash, length) == i
      modifies newList
      ensures Buckets(newList[..], moved')
      ensures forall h :: h in moved' <==> h in moved || h in chain
      ensures Total(newList[..]) == old(Total(newList[..])) + |chain|
    {
      hide Index;
      moved' := moved;
      var count := 0;
      while count < |chain|
        invariant count <= |chain| && Buckets(newList[..], moved')
        invariant forall h :: h in moved' <==> h in moved || h in chain[..count]
        invariant Total(newList[..]) == old(Total(newList[..])) + count
      {
        var h := chain[count];
        var p := Index(h.hash, newList.Length);
        ghost var before := newList[..];
        newList[p] := [h] + newList[p];
        PrependMember(before[p], h);
        UpdateChain(before, moved', p, [h] + before[p], newList[..], moved' + {h});
        moved' := moved' + {h};
        assert chain[..count + 1] == chain[..count] + [h];
        count := count + 1;
      }
    }

    static lemma {:induction false} PrependMember(c: Chain, h: LRUHandle)
      requires Distinct(c) && h !in c
      ensures Distinct([h] + c) && forall x :: x in [h] + c <==> x == h || x in c
    {
    }
  }
}

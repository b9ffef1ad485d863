/** LRUCache (util/cache.cc), one shard: a hash table of entries, a list of those that only
    the cache refers to, oldest first, and a list of those that clients hold. */
module LruCaches {
  import opened Coding
  import opened LruHandles
  import opened HandleTables

  function Charges(s: seq<LRUHandle>): nat {
    if s == [] then 0 else Charges(s[..|s| - 1]) + s[|s| - 1].charge
  }

  lemma {:induction false} ChargesWithout(s: seq<LRUHandle>, i: nat)
    requires i < |s|
    ensures Charges(Without(s, i)) == Charges(s) - s[i].charge && s[i].charge <= Charges(s)
  {
    if i == |s| - 1 {
      assert Without(s, i) == s[..i];
    } else {
      var front := s[..|s| - 1];
      ChargesWithout(front, i);
      assert Without(s, i) == Without(front, i) + [s[|s| - 1]];
      assert (Without(front, i) + [s[|s| - 1]])[..|s| - 2] == Without(front, i);
    }
  }

  lemma {:induction false} ChargesAppend(s: seq<LRUHandle>, e: LRUHandle)
    ensures Charges(s + [e]) == Charges(s) + e.charge
  {
    assert (s + [e])[..|s|] == s;
  }

  class LRUCache {
    const capacity: nat
    var usage: nat
    /** Dummy heads of the two lists. */
    const lru: LRUHandle
    const inUse: LRUHandle
    const table: HandleTable
    /** The entries of the two lists. */
    ghost var lruList: seq<LRUHandle>
    ghost var inUseList: seq<LRUHandle>
    /** The entries the cache refers to. */
    ghost var cached: set<LRUHandle>
    /** All entries ever inserted, and the handles that clients hold. */
    ghost var all: set<LRUHandle>
    ghost var held: multiset<LRUHandle>

    /** References are counted: those of clients, the cache's, and one more for an entry
        that is about to lose one.  The deleter has run just for the unreferenced. */
    ghost predicate EntryOk(h: LRUHandle, pending: LRUHandle?)
      reads this, h
    {
      && (h.inCache <==> h in cached)
      && h.refs == held[h] + (if h.inCache then 1 else 0) + (if h == pending then 1 else 0)
      && h.deletions == if h.refs == 0 then 1 else 0
    }

    /** The lists share the cached entries between them. */
    static ghost predicate Shared(l: seq<LRUHandle>, u: seq<LRUHandle>, cached: set<LRUHandle>) {
      && (forall h :: h in l ==> h in cached && h !in u)
      && (forall h :: h in u ==> h in cached)
      && (forall h :: h in cached ==> h in l || h in u)
    }

    ghost predicate Rings()
      requires cached <= all && Shared(lruList, inUseList, cached)
      reads this`lruList, this`inUseList, this`cached, this`all, lru`next, lru`prev, inUse`next, inUse`prev, all`next,
            all`prev
    {
      Ring(lru, lruList) && Ring(inUse, inUseList)
    }

    ghost predicate Lists()
      reads this`lruList, this`inUseList, this`cached, this`all, this`usage, lru`next, lru`prev, inUse`next,
            inUse`prev, all`next, all`prev
    {
      && cached <= all && lru != inUse && lru !in all && inUse !in all
      && Shared(lruList, inUseList, cached) && Rings()
      && usage == Charges(lruList) + Charges(inUseList)
    }

    /** Everything but the table. */
    ghost predicate Inv(pending: LRUHandle?)
      reads this, lru, inUse, all
    {
      && Lists()
      && (forall h :: h in all ==> EntryOk(h, pending))
      && (forall h :: h in held ==> h in all)
      && (forall h :: h in cached && h != pending ==> (h in lruList <==> h.refs == 1))
    }

    ghost predicate Valid()
      reads this, lru, inUse, all, table, table.list
    {
      Inv(null) && table.Valid() && cached == table.nodes
    }

    constructor (capacity: nat)
      ensures Valid() && this.capacity == capacity && all == {} && held == multiset{} && cached == {}
    {
      this.capacity := capacity;
      usage := 0;
      lru := new LRUHandle([], 0, 0, 0);
      inUse := new LRUHandle([], 0, 0, 0);
      table := new HandleTable();
      lruList, inUseList, cached, all, held := [], [], {}, {}, multiset{};
    }

    /** Move an entry between the lists: LRU_Remove from one and LRU_Append to the other. */
    method MoveToInUse(e: LRUHandle)
      requires Lists() && e in lruList
      modifies this`lruList, this`inUseList, lru`next, lru`prev, inUse`next, inUse`prev, all`next, all`prev
      ensures Lists() && inUseList == old(inUseList) + [e]
      ensures exists i :: 0 <= i < |old(lruList)| && old(lruList)[i] == e && lruList == Without(old(lruList), i)
    {
      hide Charges;
      ghost var i :| 0 <= i < |lruList| && lruList[i] == e;
      ghost var rest := Without(lruList, i);
      Neighbours(lru, lruList, i);
      LruHandles.LastOf(inUse, inUseList);
      ChargesWithout(lruList, i);
      ChargesAppend(inUseList, e);
      SharedMove(lruList, inUseList, cached, i);
      hide Ring, Shared, Without;
      LruRemove(e, lru, lruList, i);
      assert Ring(inUse, inUseList);
      LruAppend(inUse, e, inUseList);
      assert Ring(lru, rest);
      lruList, inUseList := rest, inUseList + [e];
    }

    /** The other way, when an entry loses its last client. */
    method MoveToLru(e: LRUHandle)
      requires Lists() && e in inUseList
      modifies this`lruList, this`inUseList, lru`next, lru`prev, inUse`next, inUse`prev, all`next, all`prev
      ensures Lists() && lruList == old(lruList) + [e]
      ensures exists i :: 0 <= i < |old(inUseList)| && old(inUseList)[i] == e && inUseList == Without(old(inUseList), i)
    {
      hide Charges;
      ghost var i :| 0 <= i < |inUseList| && inUseList[i] == e;
      ghost var rest := Without(inUseList, i);
      Neighbours(inUse, inUseList, i);
      LruHandles.LastOf(lru, lruList);
      ChargesWithout(inUseList, i);
      ChargesAppend(lruList, e);
      SharedMoveBack(lruList, inUseList, cached, i);
      hide Ring, Shared, Without;
      LruRemove(e, inUse, inUseList, i);
      assert Ring(lru, lruList);
      LruAppend(lru, e, lruList);
      assert Ring(inUse, rest);
      inUseList, lruList := rest, lruList + [e];
    }

    static lemma {:induction false} SharedApart(l: seq<LRUHandle>, u: seq<LRUHandle>, cached: set<LRUHandle>,
                                                all: set<LRUHandle>)
      requires Shared(l, u, cached) && cached <= all
      ensures forall h :: h in l ==> h in all && h !in u
      ensures forall h :: h in u ==> h in all && h !in l
    {
    }

    /** The entry leaves its list, and the cache. */
    method TakeOut(e: LRUHandle)
      requires Lists() && e in cached
      modifies this`lruList, this`inUseList, this`cached, this`usage, lru`next, lru`prev, inUse`next, inUse`prev,
               all`next, all`prev
      ensures Lists() && cached == old(cached) - {e}
      ensures usage == old(usage) - e.charge
      ensures if e in old(lruList) then
                inUseList == old(inUseList)
                && exists i :: 0 <= i < |old(lruList)| && old(lruList)[i] == e && lruList == Without(old(lruList), i)
              else
                lruList == old(lruList)
                && exists i ::
                   0 <= i < |old(inUseList)| && old(inUseList)[i] == e && inUseList == Without(old(inUseList), i)
    {
      hide Charges;
      ghost var inLru := e in lruList;
      ghost var head, list := if inLru then lru else inUse, if inLru then lruList else inUseList;
      ghost var other, otherList := if inLru then inUse else lru, if inLru then inUseList else lruList;
      ghost var i :| 0 <= i < |list| && list[i] == e;
      Neighbours(head, list, i);
      ChargesWithout(list, i);
      SharedApart(lruList, inUseList, cached, all);
      assert e.next in all + {head} && e.prev in all + {head};
      assert e.next != other && e.prev != other && e.next !in otherList && e.prev !in otherList;
      if inLru {
        SharedTake(lruList, inUseList, cached, i);
      } else {
        SharedTakeInUse(lruList, inUseList, cached, i);
      }
      hide Ring, Shared, Without;
      LruRemove(e, head, list, i);
      assert Ring(other, otherList);
      if inLru {
        lruList := Without(list, i);
      } else {
        inUseList := Without(list, i);
      }
      cached := cached - {e};
      usage := usage - e.charge;
    }

    /** A new entry joins the in-use list. */
    method PutIn(e: LRUHandle)
      requires Lists() && e in all && e !in cached
      modifies this`inUseList, this`cached, this`usage, inUse`next, inUse`prev, all`next, all`prev
      ensures Lists() && cached == old(cached) + {e} && inUseList == old(inUseList) + [e]
      ensures usage == old(usage) + e.charge
    {
      hide Charges;
      LruHandles.LastOf(inUse, inUseList);
      ChargesAppend(inUseList, e);
      LruAppend(inUse, e, inUseList);
      assert Ring(lru, lruList);
      inUseList := inUseList + [e];
      cached := cached + {e};
      usage := usage + e.charge;
    }

    // ---------- what the invariant says ----------

    /** No deleter runs twice, and none while the cache or a client has a reference. */
    lemma {:induction false} DeletedOnceAndUnreferenced()
      requires Valid()
      ensures forall h :: h in held ==> h.deletions == 0
      ensures forall h :: h in all ==> h.deletions == if h in table.nodes || h in held then 0 else 1
    {
      forall h | h in all ensures EntryOk(h, null) {
      }
    }

    /** The table holds the cached entries, each on one list: the LRU list when only the
        cache refers to it, else the in-use list. */
    lemma {:induction false} OnOneList()
      requires Valid()
      ensures forall h :: h in table.nodes <==> h in lruList || h in inUseList
      ensures forall h :: h in lruList ==> h !in inUseList && h.refs == 1 && held[h] == 0
      ensures forall h :: h in inUseList ==> h.refs >= 2 && held[h] == h.refs - 1
      ensures usage == Charges(lruList) + Charges(inUseList)
    {
      forall h | h in cached ensures EntryOk(h, null) {
        assert h in all;
      }
    }

    /** Once every handle is back and the list is pruned, every entry has been deleted. */
    lemma {:induction false} AllDeleted()
      requires Valid() && held == multiset{} && lruList == []
      ensures forall h :: h in all ==> h.deletions == 1
    {
      OnOneList();
      DeletedOnceAndUnreferenced();
    }

    // ---------- references ----------

    /** A client takes a handle on a cached entry. */
    method Ref(e: LRUHandle)
      requires Inv(null) && e in cached
      modifies this`lruList, this`inUseList, this`held, e`refs, lru`next, lru`prev, inUse`next, inUse`prev, all`next,
               all`prev
      ensures Inv(null) && held == old(held) + multiset{e}
      ensures forall h :: h in lruList ==> h in old(lruList) && h != e
      ensures Taken(old(lruList), lruList, e)
    {
      hide Charges, Shared;
      assert EntryOk(e, null);
      if e.refs == 1 && e.inCache {
        MoveToInUse(e);
        MovedMembers(old(lruList), lruList, e);
      }
      e.refs := e.refs + 1;
      held := held + multiset{e};
    }

    static lemma {:induction false} MovedMembers(before: seq<LRUHandle>, after: seq<LRUHandle>, e: LRUHandle)
      requires Distinct(before) && exists i :: 0 <= i < |before| && before[i] == e && after == Without(before, i)
      ensures forall h :: h in after <==> h in before && h != e
    {
      var i :| 0 <= i < |before| && before[i] == e && after == Without(before, i);
      WithoutMembers(before, i);
    }

    /** The pending reference of an entry is dropped.  With the last one its deleter runs;
        with the last client's it becomes the newest entry of the LRU list. */
    method Unref(e: LRUHandle)
      requires Inv(e) && e in all && e !in lruList
      modifies this`lruList, this`inUseList, e`refs, e`deletions, lru`next, lru`prev, inUse`next, inUse`prev,
               all`next, all`prev
      ensures Inv(null)
      ensures lruList == old(lruList) + if e in cached && held[e] == 0 then [e] else []
    {
      hide Charges, Rings, Shared;
      assert EntryOk(e, e);
      e.refs := e.refs - 1;
      if e.refs == 0 {
        e.deletions := e.deletions + 1;
      } else if e.inCache && e.refs == 1 {
        InOneList(e);
        MoveToLru(e);
      }
    }

    lemma {:induction false} InOneList(e: LRUHandle)
      requires Lists() && e in cached
      ensures e in lruList || e in inUseList
    {
    }
    /** FinishErase: the entry, already out of the table, leaves its list and loses the
        cache's reference. */
    method FinishErase(e: LRUHandle)
      requires Inv(null) && e in cached
      modifies this`lruList, this`inUseList, this`cached, this`usage, e`refs, e`deletions, e`inCache
      modifies lru`next, lru`prev, inUse`next, inUse`prev, all`next, all`prev
      ensures Inv(null) && cached == old(cached) - {e} && usage == old(usage) - e.charge
      ensures forall h :: h in lruList <==> h in old(lruList) && h != e
      ensures |lruList| <= |old(lruList)| && (e in old(lruList) ==> |lruList| < |old(lruList)|)
      ensures old(lruList) != [] && old(lruList)[0] == e ==> lruList == old(lruList)[1..]
      ensures Taken(old(lruList), lruList, e)
    {
      hide Charges, Shared;
      assert EntryOk(e, null);
      ghost var before := lruList;
      TakeOut(e);
      TakenMembers(before, lruList, e);
      e.inCache := false;
      Unref(e);
    }

    /** The entry is gone from the list, and the others keep their order. */
    static ghost predicate Taken(before: seq<LRUHandle>, after: seq<LRUHandle>, e: LRUHandle) {
      if e in before then exists i :: 0 <= i < |before| && before[i] == e && after == Without(before, i)
      else after == before
    }

    static lemma {:induction false} TakenMembers(before: seq<LRUHandle>, after: seq<LRUHandle>, e: LRUHandle)
      requires Distinct(before)
      requires if e in before then exists i :: 0 <= i < |before| && before[i] == e && after == Without(before, i)
               else after == before
      ensures forall h :: h in after <==> h in before && h != e
      ensures |after| <= |before| && (e in before ==> |after| < |before|)
      ensures before != [] && before[0] == e ==> after == before[1..]
    {
      if e in before {
        var i :| 0 <= i < |before| && before[i] == e && after == Without(before, i);
        WithoutMembers(before, i);
        if before[0] == e {
          assert i == 0;
        }
      }
    }

    // ---------- the operations ----------

    method Lookup(key: Bytes, hash: nat) returns (e: LRUHandle?)
      requires Valid()
      modifies this, lru, inUse, all
      ensures Valid() && all == old(all) && cached == old(cached) && usage == old(usage)
      ensures e != null ==> e in cached && Matches(e, key, hash) && held == old(held) + multiset{e}
      ensures e == null ==>
              held == old(held) && lruList == old(lruList) && forall h :: h in cached ==> !Matches(h, key, hash)
      ensures e != null ==> Taken(old(lruList), lruList, e)
    {
      e := table.Lookup(key, hash);
      if e != null {
        Ref(e);
      }
    }

    /** A client gives a handle back. */
    method Release(handle: LRUHandle)
      requires Valid() && handle in held
      modifies this, lru, inUse, all
      ensures Valid() && all == old(all) && cached == old(cached) && usage == old(usage)
      ensures held == old(held) - multiset{handle}
      ensures lruList == old(lruList) + if handle in cached && held[handle] == 0 then [handle] else []
    {
      hide Charges, Shared, Rings, Lists;
      HeldNotInLru(handle);
      held := held - multiset{handle};
      assert Inv(handle);
      Unref(handle);
    }

    lemma {:induction false} HeldNotInLru(e: LRUHandle)
      requires Inv(null) && e in held
      ensures e in all && e !in lruList && EntryOk(e, null)
    {
      assert EntryOk(e, null);
    }

    /** Erase: the entry lives on while clients hold it. */
    method Erase(key: Bytes, hash: nat)
      requires Valid()
      modifies this, lru, inUse, all, table, table.list
      ensures Valid() && all == old(all) && held == old(held)
      ensures forall h :: h in cached <==> h in old(cached) && !Matches(h, key, hash)
      ensures Replaced(old(lruList), lruList, key, hash)
    {
      var e := table.Remove(key, hash);
      if e != null {
        FinishErase(e);
      }
    }

    /** Drop every entry that no client holds. */
    method Prune()
      requires Valid()
      modifies this, lru, inUse, all, table, table.list
      ensures Valid() && all == old(all) && held == old(held) && lruList == []
      ensures forall h :: h in cached <==> h in old(cached) && h !in old(lruList)
    {
      while lru.next != lru
        invariant Valid() && all == old(all) && held == old(held) && table.list == old(table.list)
        invariant forall h :: h in lruList ==> h in old(lruList)
        invariant forall h :: h in cached <==> h in old(cached) && (h in lruList || h !in old(lruList))
        decreases |lruList|
      {
        EvictOldest();
      }
      LruHandles.LastOf(lru, lruList);
    }

    /** Remove the oldest entry of the LRU list. */
    method EvictOldest()
      requires Valid() && lru.next != lru
      modifies this, lru, inUse, all, table, table.list
      ensures Valid() && all == old(all) && held == old(held) && table.list == old(table.list)
      ensures old(lruList) != [] && lruList == old(lruList)[1..] && cached == old(cached) - {old(lruList)[0]}
      ensures usage == old(usage) - old(lruList)[0].charge
    {
      LruHandles.LastOf(lru, lruList);
      var e := lru.next;
      assert e == lruList[0] && e in lruList && e in cached;
      var removed := table.Remove(e.key, e.hash);
      assert removed == e;
      FinishErase(e);
    }

    /** Insert an entry and return a handle on it; one with the same key goes, and then the
        oldest entries nobody holds, until the cache is within its capacity or has none. */
    method Insert(key: Bytes, hash: nat, value: int, charge: nat) returns (e: LRUHandle)
      requires Valid()
      modifies this, lru, inUse, all, table, table.list
      ensures Valid() && fresh(e) && all == old(all) + {e} && held == old(held) + multiset{e}
      ensures e.key == key && e.hash == hash && e.value == value && e.charge == charge
      ensures usage <= capacity || lruList == []
      ensures e in cached <==> capacity > 0
      ensures forall h :: h in cached && h != e ==> h in old(cached) && (capacity > 0 ==> !Matches(h, key, hash))
      ensures forall h :: h in old(cached) && h !in old(lruList) && (capacity == 0 || !Matches(h, key, hash)) ==>
              h in cached
      ensures OldestEvicted(old(lruList), lruList, key, hash, usage, capacity)
    {
      hide Inv, Matches, Replaced;
      e := NewEntry(key, hash, value, charge);
      NoneReplaced(lruList, key, hash);
      if capacity > 0 {
        InsertEntry(e);
      }
      HeldNotInLru(e);
      ghost var unreferenced := lruList;
      ghost var n := EvictToCapacity();
      ThenOldestEvicted(old(lruList), unreferenced, lruList, n, key, hash, usage, capacity);
    }

    /** At most the entry of the same key has gone. */
    static ghost predicate Replaced(before: seq<LRUHandle>, after: seq<LRUHandle>, key: Bytes, hash: nat) {
      after == before || exists i :: 0 <= i < |before| && Matches(before[i], key, hash) && after == Without(before, i)
    }

    static lemma {:induction false} NoneReplaced(list: seq<LRUHandle>, key: Bytes, hash: nat)
      ensures Replaced(list, list, key, hash)
    {
    }

    static lemma {:induction false} OneReplaced(before: seq<LRUHandle>, after: seq<LRUHandle>, e: LRUHandle,
                                                key: Bytes, hash: nat)
      requires Taken(before, after, e) && Matches(e, key, hash)
      ensures Replaced(before, after, key, hash)
    {
    }

    /** Least recently used first, and no more than needed: apart from a replaced entry only a
        front part of the list has gone, and without its last member the rest would not fit. */
    static ghost predicate OldestEvicted(before: seq<LRUHandle>, after: seq<LRUHandle>, key: Bytes, hash: nat,
                                         usage: nat, capacity: nat) {
      || (exists n :: FrontEvicted(before, after, n, usage, capacity))
      || (exists i, n ::
          0 <= i < |before| && Matches(before[i], key, hash)
          && FrontEvicted(Without(before, i), after, n, usage, capacity))
    }

    static ghost predicate FrontEvicted(list: seq<LRUHandle>, after: seq<LRUHandle>, n: nat, usage: nat,
                                        capacity: nat) {
      n <= |list| && after == list[n..] && (n > 0 ==> usage + list[n - 1].charge > capacity)
    }

    static lemma {:induction false} ThenOldestEvicted(before: seq<LRUHandle>, list: seq<LRUHandle>,
                                                      after: seq<LRUHandle>, n: nat,
                                                      key: Bytes, hash: nat, usage: nat, capacity: nat)
      requires Replaced(before, list, key, hash) && FrontEvicted(list, after, n, usage, capacity)
      ensures OldestEvicted(before, after, key, hash, usage, capacity)
    {
      hide Matches;
      if list != before {
        var i :| 0 <= i < |before| && Matches(before[i], key, hash) && list == Without(before, i);
      }
    }

    /** The entry goes into the table, and the one it replaces goes out. */
    method InsertEntry(e: LRUHandle)
      requires Valid() && e in all && e !in cached && held[e] > 0
      modifies this`lruList, this`inUseList, this`cached, this`usage, lru, inUse, all, table, table.list
      ensures Valid() && (table.list == old(table.list) || fresh(table.list))
      ensures forall h :: h in cached <==> h == e || (h in old(cached) && !Matches(h, e.key, e.hash))
      ensures forall h :: h in lruList ==> h in old(lruList)
      ensures Replaced(old(lruList), lruList, e.key, e.hash)
    {
      hide Matches, Inv, Buckets, UniqueKeys, Total, PowerOfTwo, Replaced, Taken;
      NoneReplaced(lruList, e.key, e.hash);
      Admit(e);
      ghost var before := cached;
      var replaced := table.Insert(e);
      if replaced != null {
        assert replaced in before;
        CachedInAll();
        FinishErase(replaced);
        OneReplaced(old(lruList), lruList, replaced, e.key, e.hash);
      }
    }

    lemma {:induction false} CachedInAll()
      requires Inv(null)
      ensures cached <= all
    {
    }

    /** Evict the oldest n entries of the LRU list: as few as will do. */
    method EvictToCapacity() returns (ghost n: nat)
      requires Valid()
      modifies this, lru, inUse, all, table, table.list
      ensures Valid() && all == old(all) && held == old(held)
      ensures usage <= capacity || lruList == []
      ensures cached <= old(cached) && forall h :: h in old(cached) && h !in old(lruList) ==> h in cached
      ensures FrontEvicted(old(lruList), lruList, n, usage, capacity)
    {
      n := 0;
      while usage > capacity && lru.next != lru
        invariant Valid() && all == old(all) && held == old(held) && table.list == old(table.list)
        invariant cached <= old(cached) && forall h :: h in lruList ==> h in old(lruList)
        invariant forall h :: h in old(cached) && h !in old(lruList) ==> h in cached
        invariant FrontEvicted(old(lruList), lruList, n, usage, capacity)
        decreases |lruList|
      {
        EvictOldest();
        n := n + 1;
      }
      LruHandles.LastOf(lru, lruList);
    }

    /** An entry with one reference, for the handle that will be returned. */
    method NewEntry(key: Bytes, hash: nat, value: int, charge: nat) returns (e: LRUHandle)
      requires Inv(null)
      modifies this`all, this`held
      ensures Inv(null) && fresh(e) && all == old(all) + {e} && held == old(held) + multiset{e}
      ensures e.key == key && e.hash == hash && e.value == value && e.charge == charge
      ensures e !in cached && held[e] == 1
    {
      hide Charges, Shared, Ring;
      e := new LRUHandle(key, hash, value, charge);
      all := all + {e};
      held := held + multiset{e};
    }

    /** The cache takes its reference on a new entry. */
    method Admit(e: LRUHandle)
      requires Inv(null) && e in all && e !in cached && held[e] > 0
      modifies this`inUseList, this`cached, this`usage, e`refs, e`inCache, inUse`next, inUse`prev, all`next, all`prev
      ensures Inv(null) && cached == old(cached) + {e} && e !in lruList && lruList == old(lruList)
    {
      hide Charges;
      assert EntryOk(e, null);
      e.refs := e.refs + 1;
      e.inCache := true;
      PutIn(e);
    }

    static lemma {:induction false} SharedMoveBack(l: seq<LRUHandle>, u: seq<LRUHandle>, cached: set<LRUHandle>, i: nat)
      requires Shared(l, u, cached) && i < |u| && Distinct(u)
      ensures Shared(l + [u[i]], Without(u, i), cached)
      ensures u[i] !in Without(u, i) && u[i] !in l
    {
      WithoutMembers(u, i);
    }

    static lemma {:induction false} SharedTake(l: seq<LRUHandle>, u: seq<LRUHandle>, cached: set<LRUHandle>, i: nat)
      requires Shared(l, u, cached) && i < |l| && Distinct(l)
      ensures Shared(Without(l, i), u, cached - {l[i]}) && l[i] !in u
    {
      WithoutMembers(l, i);
    }

    static lemma {:induction false} SharedTakeInUse(l: seq<LRUHandle>, u: seq<LRUHandle>, cached: set<LRUHandle>,
                                                    i: nat)
      requires Shared(l, u, cached) && i < |u| && Distinct(u)
      ensures Shared(l, Without(u, i), cached - {u[i]}) && u[i] !in l
    {
      WithoutMembers(u, i);
    }

    static lemma {:induction false} SharedMove(l: seq<LRUHandle>, u: seq<LRUHandle>, cached: set<LRUHandle>, i: nat)
      requires Shared(l, u, cached) && i < |l| && Distinct(l)
      ensures Shared(Without(l, i), u + [l[i]], cached)
      ensures l[i] !in Without(l, i) && l[i] !in u
    {
      WithoutMembers(l, i);
    }
  }
}

/** Cache entries (LRUHandle in util/cache.cc), and the circular doubly linked lists
    they are kept in. */
module LruHandles {
  import opened Coding

  class LRUHandle {
    const key: Bytes
    const hash: nat
    const value: int
    const charge: nat
    var next: LRUHandle
    var prev: LRUHandle
    /** Whether the cache has a reference on the entry. */
    var inCache: bool
    /** References, including the cache's. */
    var refs: nat
    /** How often the deleter has run. */
    ghost var deletions: nat

    constructor (key: Bytes, hash: nat, value: int, charge: nat)
      ensures this.key == key && this.hash == hash && this.value == value && this.charge == charge
      ensures next == this && prev == this && !inCache && refs == 1 && deletions == 0
    {
      this.key, this.hash, this.value, this.charge := key, hash, value, charge;
      next, prev := this, this;
      inCache, refs, deletions := false, 1, 0;
    }
  }

  // ---------- circular lists ----------

  /** The nodes of the circle, from the dummy head around to it again. */
  ghost function At(head: LRUHandle, s: seq<LRUHandle>, k: nat): LRUHandle
    requires k <= |s| + 1
  {
    if k == 0 || k == |s| + 1 then head else s[k - 1]
  }

  /** The list with dummy head `head` holds the entries s, oldest first. */
  ghost predicate Ring(head: LRUHandle, s: seq<LRUHandle>)
    reads head`next, head`prev, (set h | h in s)`next, (set h | h in s)`prev
  {
    && head !in s && Distinct(s)
    && forall k :: 0 <= k <= |s| ==> Linked(At(head, s, k), At(head, s, k + 1))
  }

  ghost predicate Linked(a: LRUHandle, b: LRUHandle)
    reads a`next, b`prev
  {
    a.next == b && b.prev == a
  }

  ghost predicate Distinct(s: seq<LRUHandle>) {
    forall i, j :: 0 <= i < j < |s| ==> s[i] != s[j]
  }

  function Without<T>(s: seq<T>, i: nat): seq<T>
    requires i < |s|
  {
    s[..i] + s[i + 1..]
  }

  lemma {:induction false} AtWithout(head: LRUHandle, s: seq<LRUHandle>, i: nat, k: nat)
    requires i < |s| && k <= |s|
    ensures At(head, Without(s, i), k) == At(head, s, if k <= i then k else k + 1)
  {
  }

  lemma {:induction false} Neighbours(head: LRUHandle, s: seq<LRUHandle>, i: nat)
    requires Ring(head, s) && i < |s|
    ensures s[i].next == head || s[i].next in s
    ensures s[i].prev == head || s[i].prev in s
    ensures head.prev == head || head.prev in s
  {
    assert Linked(At(head, s, i), At(head, s, i + 1)) && Linked(At(head, s, i + 1), At(head, s, i + 2));
    assert Linked(At(head, s, |s|), At(head, s, |s| + 1));
  }

  lemma {:induction false} LastOf(head: LRUHandle, s: seq<LRUHandle>)
    requires Ring(head, s)
    ensures head.prev == head || head.prev in s
    ensures head.next == if s == [] then head else s[0]
  {
    assert Linked(At(head, s, 0), At(head, s, 1));
    assert Linked(At(head, s, |s|), At(head, s, |s| + 1));
  }

  /** LRU_Remove. */
  method LruRemove(e: LRUHandle, ghost head: LRUHandle, ghost s: seq<LRUHandle>, ghost i: nat)
    requires Ring(head, s) && i < |s| && s[i] == e
    modifies e.next`prev, e.prev`next
    ensures Ring(head, Without(s, i))
  {
    ghost var before, after, rest := At(head, s, i), At(head, s, i + 2), Without(s, i);
    assert Linked(before, e) && Linked(e, after) by {
      assert At(head, s, i + 1) == e;
    }
    e.next.prev := e.prev;
    e.prev.next := e.next;
    forall k | 0 <= k <= |rest| ensures Linked(At(head, rest, k), At(head, rest, k + 1)) {
      AtWithout(head, s, i, k);
      AtWithout(head, s, i, k + 1);
      if k < i {
        assert old(Linked(At(head, s, k), At(head, s, k + 1)));
      } else if k > i {
        assert old(Linked(At(head, s, k + 1), At(head, s, k + 2)));
      }
    }
  }

  /** LRU_Append: the entry becomes the newest. */
  method LruAppend(list: LRUHandle, e: LRUHandle, ghost s: seq<LRUHandle>)
    requires Ring(list, s) && e != list && e !in s
    modifies e`next, e`prev, list.prev`next, list`prev
    ensures Ring(list, s + [e])
  {
    ghost var last := At(list, s, |s|);
    assert Linked(last, At(list, s, |s| + 1));
    assert forall k :: 0 <= k < |s| ==> Linked(At(list, s, k), At(list, s, k + 1));
    e.next := list;
    e.prev := list.prev;
    e.prev.next := e;
    e.next.prev := e;
    forall k | 0 <= k <= |s| + 1 ensures Linked(At(list, s + [e], k), At(list, s + [e], k + 1)) {
      if k < |s| {
        assert old(Linked(At(list, s, k), At(list, s, k + 1)));
      }
    }
  }
}

/** The iterator interface (include/leveldb/iterator.h): a position in a sorted list of
    entries.  Moving off either end makes the iterator invalid, and an invalid iterator
    can only seek. */
module Cursors {
  import opened InternalKeys

  /** Positions in a list of n entries; n itself stands for an invalid iterator. */
  function Preceding(pos: nat, n: nat): nat {
    if pos == 0 then n else pos - 1
  }

  function LastOf(n: nat): (r: nat)
    ensures r <= n
  {
    if n == 0 then 0 else n - 1
  }

  class Cursor {
    const entries: seq<Entry>
    var pos: nat

    constructor (entries: seq<Entry>)
      ensures this.entries == entries && !Valid() && Ok()
    {
      this.entries := entries;
      pos := |entries|;
    }

    ghost predicate Ok()
      reads this
    {
      pos <= |entries|
    }

    predicate Valid()
      reads this
    {
      pos < |entries|
    }

    function Key(): InternalKey
      requires Valid()
      reads this
    {
      entries[pos].key
    }

    function Value(): Bytes
      requires Valid()
      reads this
    {
      entries[pos].value
    }

    method Next()
      requires Valid()
      modifies this
      ensures Ok() && pos == old(pos) + 1
    {
      pos := pos + 1;
    }

    method Prev()
      requires Valid()
      modifies this
      ensures Ok() && pos == Preceding(old(pos), |entries|)
    {
      pos := if pos == 0 then |entries| else pos - 1;
    }

    method SeekToFirst()
      modifies this
      ensures Ok() && pos == 0
    {
      pos := 0;
    }

    method SeekToLast()
      modifies this
      ensures Ok() && pos == LastOf(|entries|)
    {
      pos := if |entries| == 0 then 0 else |entries| - 1;
    }

    method Seek(target: InternalKey)
      modifies this
      ensures Ok() && pos == SeekIndex(entries, target)
    {
      pos := 0;
      while pos < |entries| && Before(entries[pos].key, target)
        invariant pos <= |entries|
        invariant forall j :: 0 <= j < pos ==> Before(entries[j].key, target)
      {
        pos := pos + 1;
      }
      assert pos == SeekIndex(entries, target);
    }
  }
}

/** Insertion into sorted lists of entries, and their union. */
module SortedLists {
  import opened InternalKeys

  /** Insertion of a key that is not there yet. */
  function Insert(es: seq<Entry>, e: Entry): seq<Entry> {
    var i := SeekIndex(es, e.key);
    es[..i] + [e] + es[i..]
  }

  lemma {:induction false} InsertKeepsSorted(es: seq<Entry>, e: Entry)
    requires Sorted(es) && forall x :: x in es ==> x.key != e.key
    ensures Sorted(Insert(es, e))
    ensures forall x :: x in Insert(es, e) <==> x in es || x == e
  {
    var i := SeekIndex(es, e.key);
    MembersWithMiddle(es, i, e);
    forall k | i <= k < |es| ensures Before(e.key, es[k].key) {
      assert es[k] in es;
      InOrder(es, i, k);
    }
    SortedWithMiddle(es, i, e);
  }

  lemma {:induction false} MembersWithMiddle(es: seq<Entry>, i: nat, e: Entry)
    requires i <= |es|
    ensures forall x :: x in es[..i] + [e] + es[i..] <==> x in es || x == e
  {
    assert es == es[..i] + es[i..];
  }

  lemma {:induction false} SortedWithMiddle(es: seq<Entry>, i: nat, e: Entry)
    requires Sorted(es) && i <= |es|
    requires forall k :: 0 <= k < i ==> Before(es[k].key, e.key)
    requires forall k :: i <= k < |es| ==> Before(e.key, es[k].key)
    ensures Sorted(es[..i] + [e] + es[i..])
  {
    var r := es[..i] + [e] + es[i..];
    assert forall j :: 0 <= j < |r| ==> r[j] == if j < i then es[j] else if j == i then e else es[j - 1];
  }

  function InsertOnce(es: seq<Entry>, e: Entry): seq<Entry> {
    var i := SeekIndex(es, e.key);
    if i < |es| && es[i].key == e.key then es else Insert(es, e)
  }

  function MergeRun(es: seq<Entry>, run: seq<Entry>): seq<Entry> {
    if run == [] then es else InsertOnce(MergeRun(es, run[..|run| - 1]), run[|run| - 1])
  }

  /** The sorted union of some lists, which a merging iterator walks. */
  function Union(lists: seq<seq<Entry>>): seq<Entry> {
    if lists == [] then [] else MergeRun(Union(lists[..|lists| - 1]), lists[|lists| - 1])
  }

  /** Entries with the same key are the same entry. */
  ghost predicate KeysIdentify(es: iset<Entry>) {
    forall x, y :: x in es && y in es && x.key == y.key ==> x == y
  }

  lemma {:induction false} InsertOnceMembers(es: seq<Entry>, e: Entry)
    requires Sorted(es)
    ensures Sorted(InsertOnce(es, e))
    ensures forall x :: x in InsertOnce(es, e) ==> x in es || x == e
    ensures forall x :: x in es ==> x in InsertOnce(es, e)
    ensures (forall x :: x in es && x.key == e.key ==> x == e) ==> e in InsertOnce(es, e)
  {
    var i := SeekIndex(es, e.key);
    if i < |es| && es[i].key == e.key {
      assert es[i] in es;
    } else {
      forall x | x in es ensures x.key != e.key {
        var j :| 0 <= j < |es| && es[j] == x;
        assert i < j ==> Before(es[i].key, es[j].key);
      }
      InsertKeepsSorted(es, e);
    }
  }

  lemma {:induction false} MergeRunMembers(es: seq<Entry>, run: seq<Entry>, all: iset<Entry>)
    requires Sorted(es) && KeysIdentify(all) && (forall e :: e in es ==> e in all) && forall e :: e in run ==> e in all
    ensures Sorted(MergeRun(es, run))
    ensures forall e :: e in MergeRun(es, run) <==> e in es || e in run
  {
    if run != [] {
      var front, last := run[..|run| - 1], run[|run| - 1];
      assert run == front + [last];
      MergeRunMembers(es, front, all);
      InsertOnceMembers(MergeRun(es, front), last);
    }
  }

  lemma {:induction false} UnionMembers(lists: seq<seq<Entry>>, all: iset<Entry>)
    requires KeysIdentify(all) && forall es, e :: es in lists && e in es ==> e in all
    ensures Sorted(Union(lists))
    ensures forall e :: e in Union(lists) <==> exists es :: es in lists && e in es
  {
    if lists != [] {
      var front, last := lists[..|lists| - 1], lists[|lists| - 1];
      assert lists == front + [last];
      UnionMembers(front, all);
      MergeRunMembers(Union(front), last, all);
      forall e ensures e in Union(lists) <==> exists es :: es in lists && e in es {
        assert e in Union(lists) <==> e in Union(front) || e in last;
      }
    }
  }
}

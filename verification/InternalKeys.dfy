/** Internal keys and entries, and the order InternalKeyComparator puts on them
    (db/dbformat.h, db/dbformat.cc).

    The engine never looks inside a user key: it only compares it with the
    user's comparator, a total order.  Every countable total order embeds in the
    reals, so a user key is modelled as the real number that marks its place in
    the comparator's order. */
module InternalKeys {
  import Coding

  type UserKey = real
  type Bytes = Coding.Bytes

  const MAX_SEQUENCE_NUMBER: nat := 0xff_ffff_ffff_ffff
  type SequenceNumber = n: nat | n <= MAX_SEQUENCE_NUMBER

  datatype ValueType = Deletion | Value

  datatype InternalKey = InternalKey(user: UserKey, sequence: SequenceNumber, kind: ValueType) {
    /** The 64-bit trailer: the sequence number above an eight-bit type. */
    function Tag(): nat {
      sequence * 256 + if kind == Value then 1 else 0
    }
  }

  datatype Entry = Entry(key: InternalKey, value: Bytes)

  /** Increasing user key, then decreasing tag. */
  predicate Before(a: InternalKey, b: InternalKey) {
    a.user < b.user || (a.user == b.user && a.Tag() > b.Tag())
  }

  /** The key that precedes or equals every entry of user key k with sequence at most s
      (kValueTypeForSeek is the highest-numbered type). */
  function LookupKey(k: UserKey, s: SequenceNumber): InternalKey {
    InternalKey(k, s, Value)
  }

  /** Entry e is a version of k that a reader at sequence s may see. */
  predicate Candidate(e: Entry, k: UserKey, s: nat) {
    e.key.user == k && e.key.sequence <= s
  }

  ghost predicate Sorted(es: seq<Entry>) {
    forall i, j :: 0 <= i < j < |es| ==> Before(es[i].key, es[j].key)
  }

  lemma {:induction false} InOrder(es: seq<Entry>, i: nat, j: nat)
    requires Sorted(es) && i < |es| && j < |es|
    ensures i < j <==> Before(es[i].key, es[j].key)
  {
    assert j < i ==> Before(es[j].key, es[i].key);
  }

  /** Index of the first entry at or after the target, or |es|. */
  function SeekIndex(es: seq<Entry>, target: InternalKey): (i: nat)
    ensures i <= |es|
    ensures forall j :: 0 <= j < i ==> Before(es[j].key, target)
    ensures i < |es| ==> !Before(es[i].key, target)
  {
    if es == [] || !Before(es[0].key, target) then 0 else 1 + SeekIndex(es[1..], target)
  }

  /** Every version in `newer` of a user key is younger than every version of it in `older`. */
  ghost predicate Newer(newer: seq<Entry>, older: seq<Entry>) {
    forall a, b :: a in newer && b in older && a.key.user == b.key.user ==> a.key.sequence > b.key.sequence
  }

  /** No user key occurs in both. */
  ghost predicate NoCommonKey(xs: seq<Entry>, ys: seq<Entry>) {
    forall a, b :: a in xs && b in ys ==> a.key.user != b.key.user
  }

  /** Entry e answers a read of k at s from es: it is the newest version there that the reader may see. */
  ghost predicate NewestIn(es: seq<Entry>, k: UserKey, s: nat, e: Entry) {
    && e in es && Candidate(e, k, s)
    && forall x :: x in es && Candidate(x, k, s) ==> x.key.Tag() <= e.key.Tag()
  }

  /** Seeking a sorted run to the lookup key of (k, s) finds the newest version of k
      visible at s, or shows that the run holds none. */
  lemma {:induction false} SeekFindsNewest(es: seq<Entry>, k: UserKey, s: SequenceNumber)
    requires Sorted(es)
    ensures var i := SeekIndex(es, LookupKey(k, s));
            if i < |es| && es[i].key.user == k
            then NewestIn(es, k, s, es[i])
            else forall x :: x in es ==> !Candidate(x, k, s)
  {
    var t := LookupKey(k, s);
    var i := SeekIndex(es, t);
    forall x | x in es && Candidate(x, k, s)
      ensures i < |es| && es[i].key.user == k && x.key.Tag() <= es[i].key.Tag()
    {
      var j :| 0 <= j < |es| && es[j] == x;
      assert !Before(x.key, t);
      assert i <= j;
    }
  }
}

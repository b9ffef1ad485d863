/** The bytewise comparator (util/comparator.cc) and the comparator of internal keys built
    on it (db/dbformat.cc): their orders, and the short keys they find in between. */
module Comparators {
  import opened Coding

  // ---------- the bytewise order ----------

  /** memcmp order; a proper prefix comes first. */
  predicate Less(a: Bytes, b: Bytes) {
    b != [] && (a == [] || a[0] < b[0] || (a[0] == b[0] && Less(a[1..], b[1..])))
  }

  lemma {:induction false} LessIrreflexive(a: Bytes)
    ensures !Less(a, a)
  {
    if a != [] {
      LessIrreflexive(a[1..]);
    }
  }

  lemma {:induction false} LessTransitive(a: Bytes, b: Bytes, c: Bytes)
    requires Less(a, b) && Less(b, c)
    ensures Less(a, c)
  {
    if a != [] && a[0] == b[0] && b[0] == c[0] {
      LessTransitive(a[1..], b[1..], c[1..]);
    }
  }

  lemma {:induction false} LessTotal(a: Bytes, b: Bytes)
    ensures Less(a, b) || Less(b, a) || a == b
  {
    if a != [] && b != [] && a[0] == b[0] {
      LessTotal(a[1..], b[1..]);
      assert a == [a[0]] + a[1..] && b == [b[0]] + b[1..];
    }
  }

  /** Equal up to d, and then smaller. */
  lemma {:induction false} LessAt(a: Bytes, b: Bytes, d: nat)
    requires d < |b| && d <= |a| && a[..d] == b[..d]
    requires d == |a| || a[d] < b[d]
    ensures Less(a, b)
  {
    if d > 0 {
      assert a[0] == a[..d][0] == b[..d][0] == b[0];
      assert a[1..][..d - 1] == a[..d][1..] && b[1..][..d - 1] == b[..d][1..];
      LessAt(a[1..], b[1..], d - 1);
    }
  }

  /** BytewiseComparatorImpl::FindShortestSeparator: either the start itself, or a key no
      longer than it and strictly between the two. */
  method FindShortestSeparator(start: Bytes, limit: Bytes) returns (r: Bytes)
    ensures r == start || (|r| <= |start| && Less(start, r) && Less(r, limit))
  {
    r := start;
    var minLength := if |start| < |limit| then |start| else |limit|;
    var diff := 0;
    while diff < minLength && start[diff] == limit[diff]
      invariant diff <= minLength && start[..diff] == limit[..diff]
    {
      diff := diff + 1;
    }
    if diff >= minLength {
      return;
    }
    var diffByte := start[diff];
    if diffByte < 0xff && diffByte + 1 < limit[diff] {
      r := start[..diff] + [diffByte + 1];
      assert r[..diff] == start[..diff];
      LessAt(start, r, diff);
      LessAt(r, limit, diff);
    }
  }

  /** BytewiseComparatorImpl::FindShortSuccessor. */
  method FindShortSuccessor(key: Bytes) returns (r: Bytes)
    ensures r == key || (|r| <= |key| && Less(key, r))
  {
    for i := 0 to |key| {
      var byte := key[i];
      if byte != 0xff {
        r := key[..i] + [byte + 1];
        assert r[..i] == key[..i];
        LessAt(key, r, i);
        return;
      }
    }
    r := key;
  }

  // ---------- internal keys ----------

  /** A user key followed by eight bytes: the sequence number above the type. */
  type IKey = k: Bytes | |k| >= 8 witness [0, 0, 0, 0, 0, 0, 0, 0]

  const MAX_SEQUENCE: nat := 0xff_ffff_ffff_ffff

  function User(k: IKey): Bytes {
    k[..|k| - 8]
  }

  function Tag(k: IKey): nat {
    Unfixed(k[|k| - 8..])
  }

  /** The largest tag: kMaxSequenceNumber with kValueTypeForSeek. */
  function MaxTag(): nat {
    MAX_SEQUENCE * 256 + 1
  }

  /** AppendInternalKey. */
  function Pack(user: Bytes, tag: nat): IKey {
    user + Fixed(tag, 8)
  }

  lemma {:induction false} PackRoundTrip(user: Bytes, tag: nat)
    requires tag < TWO64
    ensures User(Pack(user, tag)) == user && Tag(Pack(user, tag)) == tag
  {
    PowersOf256();
    FixedRoundTrip(tag, 8);
    assert Pack(user, tag)[|user|..] == Fixed(tag, 8);
  }

  /** Increasing user key, then decreasing tag. */
  predicate ILess(a: IKey, b: IKey) {
    Less(User(a), User(b)) || (User(a) == User(b) && Tag(a) > Tag(b))
  }

  lemma {:induction false} ILessTransitive(a: IKey, b: IKey, c: IKey)
    requires ILess(a, b) && ILess(b, c)
    ensures ILess(a, c)
  {
    if Less(User(a), User(b)) && Less(User(b), User(c)) {
      LessTransitive(User(a), User(b), User(c));
    }
  }

  lemma {:induction false} ILessIrreflexive(a: IKey)
    ensures !ILess(a, a)
  {
    LessIrreflexive(User(a));
  }

  lemma {:induction false} ILessTotal(a: IKey, b: IKey)
    ensures ILess(a, b) || ILess(b, a) || a == b
  {
    LessTotal(User(a), User(b));
    if User(a) == User(b) && Tag(a) == Tag(b) {
      UnfixedInjective(a[|a| - 8..], b[|b| - 8..]);
      assert a == User(a) + a[|a| - 8..] && b == User(b) + b[|b| - 8..];
    }
  }

  lemma {:induction false} UnfixedInjective(a: Bytes, b: Bytes)
    requires |a| == |b| && Unfixed(a) == Unfixed(b)
    ensures a == b
  {
    if a != [] {
      assert a[0] == Unfixed(a) % 256 && b[0] == Unfixed(b) % 256;
      UnfixedInjective(a[1..], b[1..]);
      assert a == [a[0]] + a[1..] && b == [b[0]] + b[1..];
    }
  }

  /** A key that may stand in an index between the keys up to `start` and the keys from
      `limit` on: either `start`, or one whose user key is strictly between theirs. */
  ghost predicate Separator(r: IKey, start: IKey, limit: IKey) {
    r == start || (Less(User(start), User(r)) && Less(User(r), User(limit)))
  }

  /** InternalKeyComparator::FindShortestSeparator. */
  method FindShortestInternalSeparator(start: IKey, limit: IKey) returns (r: IKey)
    ensures Separator(r, start, limit) && |r| <= |start|
  {
    var tmp := FindShortestSeparator(User(start), User(limit));
    r := start;
    if |tmp| < |User(start)| && Less(User(start), tmp) {
      PackRoundTrip(tmp, MaxTag());
      r := Pack(tmp, MaxTag());
    }
  }

  /** InternalKeyComparator::FindShortSuccessor. */
  method FindShortInternalSuccessor(key: IKey) returns (r: IKey)
    ensures (r == key || Less(User(key), User(r))) && |r| <= |key|
  {
    var tmp := FindShortSuccessor(User(key));
    r := key;
    if |tmp| < |User(key)| && Less(User(key), tmp) {
      PackRoundTrip(tmp, MaxTag());
      r := Pack(tmp, MaxTag());
    }
  }

  /** A separator is not before the start, and before the limit when the start is. */
  lemma {:induction false} SeparatorIsBetween(r: IKey, start: IKey, limit: IKey)
    requires Separator(r, start, limit) && ILess(start, limit)
    ensures !ILess(r, start) && ILess(r, limit)
  {
    if r == start {
      ILessIrreflexive(r);
    } else if ILess(r, start) {
      ILessTransitive(start, r, start);
      ILessIrreflexive(start);
    }
  }
}

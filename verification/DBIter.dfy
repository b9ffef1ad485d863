/** DBIter (db/db_iter.cc): the user's view of the internal entries at one sequence number. */
module DBIters {
  import opened Wrappers
  import opened InternalKeys
  import opened Cursors

  // ---------- what a user iterator ranges over ----------

  predicate Visible(es: seq<Entry>, s: nat, i: nat)
    requires i < |es|
  {
    es[i].key.sequence <= s
  }

  /** Entry i holds the value a reader at s finds under its user key. */
  ghost predicate Live(es: seq<Entry>, s: nat, i: nat)
    requires i < |es|
  {
    && Visible(es, s, i) && es[i].key.kind == ValueType.Value
    && forall j: nat :: j < i && es[j].key.user == es[i].key.user ==> !Visible(es, s, j)
  }

  /** The live entries among the first n. */
  ghost function LiveBefore(es: seq<Entry>, s: nat, n: nat): seq<Entry>
    requires n <= |es|
  {
    if n == 0 then []
    else LiveBefore(es, s, n - 1) + if Live(es, s, n - 1) then [es[n - 1]] else []
  }

  /** The list a user iterator ranges over. */
  ghost function LiveEntries(es: seq<Entry>, s: nat): seq<Entry> {
    LiveBefore(es, s, |es|)
  }

  lemma {:induction false} LivePrefix(es: seq<Entry>, s: nat, m: nat, n: nat)
    requires m <= n <= |es|
    ensures LiveBefore(es, s, m) <= LiveBefore(es, s, n)
  {
    if m < n {
      LivePrefix(es, s, m, n - 1);
    }
  }

  /** No entry in [m, n) is live. */
  ghost predicate NoneLive(es: seq<Entry>, s: nat, m: nat, n: nat)
    requires m <= n <= |es|
  {
    forall i: nat :: m <= i < n ==> !Live(es, s, i)
  }

  lemma {:induction false} NoneLiveBetween(es: seq<Entry>, s: nat, m: nat, n: nat)
    requires m <= n <= |es| && NoneLive(es, s, m, n)
    ensures LiveBefore(es, s, m) == LiveBefore(es, s, n)
  {
    if m < n {
      NoneLiveBetween(es, s, m, n - 1);
    }
  }

  /** Where a live entry stands in the list. */
  lemma {:induction false} LivePlace(es: seq<Entry>, s: nat, i: nat)
    requires i < |es| && Live(es, s, i)
    ensures var p := |LiveBefore(es, s, i)|;
            p < |LiveEntries(es, s)| && LiveEntries(es, s)[p] == es[i]
    ensures |LiveBefore(es, s, i + 1)| == |LiveBefore(es, s, i)| + 1
  {
    LivePrefix(es, s, i + 1, |es|);
  }

  /** The list has each readable user key once, in order, with its newest visible value. */
  lemma {:induction false} LiveEntriesAreTheReadableKeys(es: seq<Entry>, s: SequenceNumber)
    requires Sorted(es)
    ensures var live := LiveEntries(es, s);
            && Ascending(live)
            && (forall e :: e in live <==> e.key.kind == ValueType.Value && NewestIn(es, e.key.user, s, e))
  {
    LiveOrdered(es, s, |es|);
    forall e ensures e in LiveEntries(es, s) <==> e.key.kind == ValueType.Value && NewestIn(es, e.key.user, s, e) {
      LiveMembers(es, s, |es|, e);
      if e in LiveEntries(es, s) {
        var i: nat :| i < |es| && Live(es, s, i) && es[i] == e;
        forall x | x in es && Candidate(x, e.key.user, s) ensures x.key.Tag() <= e.key.Tag() {
          var j: nat :| j < |es| && es[j] == x;
          assert Visible(es, s, j);
          assert j >= i;
        }
      }
      if e.key.kind == ValueType.Value && NewestIn(es, e.key.user, s, e) {
        var i: nat :| i < |es| && es[i] == e;
        forall j: nat | j < i && es[j].key.user == e.key.user ensures !Visible(es, s, j) {
          assert Before(es[j].key, es[i].key);
          assert es[j] in es;
        }
      }
    }
  }

  lemma {:induction false} LiveMembers(es: seq<Entry>, s: nat, n: nat, e: Entry)
    requires n <= |es|
    ensures e in LiveBefore(es, s, n) <==> exists i: nat :: i < n && Live(es, s, i) && es[i] == e
  {
    if n > 0 {
      LiveMembers(es, s, n - 1, e);
    }
  }

  lemma {:induction false} LiveOrdered(es: seq<Entry>, s: nat, n: nat)
    requires n <= |es| && Sorted(es)
    ensures Ascending(LiveBefore(es, s, n))
  {
    if n > 0 {
      LiveOrdered(es, s, n - 1);
      var before := LiveBefore(es, s, n - 1);
      forall i | 0 <= i < |before| ensures Live(es, s, n - 1) ==> before[i].key.user < es[n - 1].key.user {
        LiveMembers(es, s, n - 1, before[i]);
        var k: nat :| k < n - 1 && Live(es, s, k) && es[k] == before[i];
        InOrder(es, k, n - 1);
      }
      if Live(es, s, n - 1) {
        AscendingAppend(before, es[n - 1]);
      } else {
        assert LiveBefore(es, s, n) == before;
      }
    }
  }

  ghost predicate Ascending(es: seq<Entry>) {
    forall i, j :: 0 <= i < j < |es| ==> es[i].key.user < es[j].key.user
  }

  lemma {:induction false} AscendingAppend(es: seq<Entry>, e: Entry)
    requires Ascending(es) && forall i :: 0 <= i < |es| ==> es[i].key.user < e.key.user
    ensures Ascending(es + [e])
  {
  }

  // ---------- the iterator ----------

  datatype Direction = Forward | Reverse

  class DBIter {
    const iter: Cursor
    const sequence: SequenceNumber
    /** The current user key when moving in reverse; None when cleared. */
    var savedKey: Option<UserKey>
    var savedValue: Bytes
    var direction: Direction
    var valid: bool
    /** The internal entry that gives the current key and value. */
    ghost var cur: nat

    ghost predicate Valid()
      reads this, iter
    {
      && Sorted(iter.entries) && iter.Ok()
      && (valid ==> cur < |iter.entries| && Live(iter.entries, sequence, cur))
      && (valid && direction == Forward ==> iter.pos == cur)
      && (valid && direction == Reverse ==>
            && savedKey == Some(iter.entries[cur].key.user) && savedValue == iter.entries[cur].value
            && Gap() <= cur
            && AllHidden(iter.entries, sequence, Gap(), cur)
            && (iter.Valid() ==> iter.Key().user < savedKey.value))
    }

    /** In reverse the internal iterator is just before the entries of the current key. */
    ghost function Gap(): nat
      reads iter
    {
      if iter.Valid() then iter.pos + 1 else 0
    }

    static ghost predicate AllHidden(es: seq<Entry>, s: nat, m: nat, n: nat)
      requires m <= n <= |es|
    {
      forall i: nat :: m <= i < n ==> !Visible(es, s, i)
    }

    /** What the iterator ranges over, and where it stands. */
    ghost function Contents(): seq<Entry> {
      LiveEntries(iter.entries, sequence)
    }

    ghost function Position(): nat
      requires Valid()
      reads this, iter
    {
      if valid then |LiveBefore(iter.entries, sequence, cur)| else |Contents()|
    }

    constructor (iter: Cursor, sequence: SequenceNumber)
      requires Sorted(iter.entries) && iter.Ok()
      ensures Valid() && !valid && this.iter == iter && this.sequence == sequence
    {
      this.iter := iter;
      this.sequence := sequence;
      savedKey := None;
      savedValue := [];
      direction := Forward;
      valid := false;
      cur := 0;
    }

    /** A valid iterator stands on the entry its position says. */
    lemma {:induction false} Standing()
      requires Valid()
      ensures valid <==> Position() < |Contents()|
      ensures valid ==> Contents()[Position()] == iter.entries[cur]
    {
      if valid {
        LivePlace(iter.entries, sequence, cur);
      }
    }

    method Key() returns (k: UserKey)
      requires Valid() && valid
      ensures Position() < |Contents()| && k == Contents()[Position()].key.user
    {
      Standing();
      k := if direction == Forward then iter.Key().user else savedKey.value;
    }

    method Value() returns (v: Bytes)
      requires Valid() && valid
      ensures Position() < |Contents()| && v == Contents()[Position()].value
    {
      Standing();
      v := if direction == Forward then iter.Value() else savedValue;
    }

    method Next()
      requires Valid() && valid
      modifies this, iter
      ensures Valid() && Position() == old(Position()) + 1
    {
      hide Live, Hiding, AllHidden, Visible, LiveBefore;
      ghost var es, here, gap := iter.entries, cur, Gap();
      LivePlace(es, sequence, cur);
      if direction == Reverse {
        direction := Forward;
        HiddenNotLive(es, sequence, Gap(), cur);
        if !iter.Valid() {
          iter.SeekToFirst();
        } else {
          iter.Next();
        }
        if !iter.Valid() {
          // The source gives up here, but the entries of the current key lie ahead.
          assert false;
        }
      } else {
        savedKey := Some(iter.Key().user);
        NothingHidden(es, sequence, cur);
      }
      HidesCurrent(es, sequence, iter.pos, here);
      FindNextUserEntry(true, here);
      assert NoneLive(es, sequence, here + 1, if valid then cur else |es|);
      NoneLiveBetween(es, sequence, here + 1, if valid then cur else |es|);
    }

    static lemma {:induction false} HiddenNotLive(es: seq<Entry>, s: nat, m: nat, n: nat)
      requires m <= n <= |es| && AllHidden(es, s, m, n)
      ensures LiveBefore(es, s, m) == LiveBefore(es, s, n)
    {
      NoneLiveBetween(es, s, m, n);
    }

    static lemma {:induction false} NothingHidden(es: seq<Entry>, s: nat, p: nat)
      requires p <= |es|
      ensures AllHidden(es, s, p, p)
    {
    }

    /** Skipping the user key of the current entry hides that entry and nothing else that is live. */
    static lemma {:induction false} HidesCurrent(es: seq<Entry>, s: nat, p: nat, here: nat)
      requires Sorted(es) && p <= here < |es| && Live(es, s, here) && AllHidden(es, s, p, here)
      requires p < here && p > 0 ==> es[p - 1].key.user < es[here].key.user
      ensures Hiding(es, s, p, true, Some(es[here].key.user), here)
    {
      forall i: nat, j: nat | i < j < |es| ensures es[i].key.user <= es[j].key.user {
        assert Before(es[i].key, es[j].key);
      }
      assert p > 0 ==> forall i: nat :: i < p ==> es[i].key.user <= es[p - 1].key.user;
    }

    method Seek(target: UserKey)
      requires Valid()
      modifies this, iter
      ensures Valid() && Position() <= |Contents()|
      ensures forall i :: 0 <= i < |Contents()| ==> (i < Position() <==> Contents()[i].key.user < target)
    {
      direction := Forward;
      savedValue := [];
      savedKey := Some(target);
      iter.Seek(LookupKey(target, sequence));
      ghost var es, p := iter.entries, iter.pos;
      SeekSplits(es, sequence, p, target);
      if iter.Valid() {
        FindNextUserEntry(false, |es|);
      } else {
        valid := false;
      }
      NoneLiveBetween(es, sequence, p, if valid then cur else |es|);
    }

    /** The live entries before a sought position are those of smaller user keys. */
    static lemma {:induction false} SeekSplits(es: seq<Entry>, s: SequenceNumber, p: nat, target: UserKey)
      requires Sorted(es) && p == SeekIndex(es, LookupKey(target, s))
      ensures Hiding(es, s, p, false, Some(target), |es|)
      ensures |LiveBefore(es, s, p)| <= |LiveEntries(es, s)|
      ensures forall i :: 0 <= i < |LiveEntries(es, s)| ==>
                (i < |LiveBefore(es, s, p)| <==> LiveEntries(es, s)[i].key.user < target)
    {
      var lookup := LookupKey(target, s);
      assert forall j: nat :: p <= j < |es| ==> es[j].key.user >= target by {
        forall j: nat | p <= j < |es| ensures es[j].key.user >= target {
          assert p < j ==> Before(es[p].key, es[j].key);
        }
      }
      LivePrefix(es, s, p, |es|);
      var before, all := LiveBefore(es, s, p), LiveEntries(es, s);
      forall i | 0 <= i < |all| ensures i < |before| <==> all[i].key.user < target {
        if i < |before| {
          assert all[i] == before[i] && before[i] in before;
          LiveMembers(es, s, p, before[i]);
        } else {
          LiveFrom(es, s, p, |es|, i);
        }
      }
    }

    static lemma {:induction false} LiveFrom(es: seq<Entry>, s: nat, p: nat, n: nat, k: nat)
      requires p <= n <= |es| && |LiveBefore(es, s, p)| <= k < |LiveBefore(es, s, n)|
      ensures exists j: nat :: p <= j < n && es[j] == LiveBefore(es, s, n)[k]
    {
      if k < |LiveBefore(es, s, n - 1)| && p < n {
        LiveFrom(es, s, p, n - 1, k);
        var j: nat :| p <= j < n - 1 && es[j] == LiveBefore(es, s, n - 1)[k];
        assert es[j] == LiveBefore(es, s, n)[k];
      } else {
        assert es[n - 1] == LiveBefore(es, s, n)[k];
      }
    }

    method SeekToFirst()
      requires Valid()
      modifies this, iter
      ensures Valid() && Position() == 0
    {
      direction := Forward;
      savedValue := [];
      iter.SeekToFirst();
      ghost var es := iter.entries;
      if iter.Valid() {
        FindNextUserEntry(false, |es|);
      } else {
        valid := false;
      }
      NoneLiveBetween(es, sequence, 0, if valid then cur else |es|);
    }

    method SeekToLast()
      requires Valid()
      modifies this, iter
      ensures Valid() && Position() == LastOf(|Contents()|)
    {
      direction := Reverse;
      savedValue := [];
      iter.SeekToLast();
      FindPrevUserEntry();
    }

    method Prev()
      requires Valid() && valid
      modifies this, iter
      ensures Valid() && Position() == Preceding(old(Position()), |Contents()|)
    {
      ghost var es, here := iter.entries, cur;
      LivePlace(es, sequence, here);
      if direction == Forward {
        savedKey := Some(iter.Key().user);
        while true
          invariant iter.pos <= here && savedKey == Some(es[here].key.user)
          invariant NoneLive(es, sequence, iter.pos, here)
          decreases iter.pos
        {
          iter.Prev();
          if !iter.Valid() {
            valid := false;
            savedKey := None;
            savedValue := [];
            NoneLiveBetween(es, sequence, 0, here);
            return;
          }
          if iter.Key().user < savedKey.value {
            break;
          }
          assert iter.pos < here ==> Before(es[iter.pos].key, es[here].key);
        }
        direction := Reverse;
      }
      NoneLiveBetween(es, sequence, Gap(), here);
      FindPrevUserEntry();
    }

    /** Move back to the live entry before the internal iterator's place. */
    method FindPrevUserEntry()
      requires Sorted(iter.entries) && iter.Ok() && direction == Reverse
      modifies this, iter
      ensures Valid()
      ensures Position() == Preceding(|LiveBefore(iter.entries, sequence, old(Gap()))|, |Contents()|)
    {
      hide Live, Backed, AllHidden, NoneLiveBut;
      ghost var es, gap := iter.entries, Gap();
      ghost var c := gap;
      var kind := Deletion;
      BackStart(es, sequence, gap, savedKey, savedValue);
      if iter.Valid() {
        while true
          invariant iter.Valid() && Gap() <= c <= gap && direction == Reverse
          invariant kind == ValueType.Value ==> savedKey.Some?
          invariant Backed(es, sequence, Gap(), gap, c, kind, savedKey, savedValue)
          decreases iter.pos
        {
          var key := iter.Key();
          BackStep(es, sequence, iter.pos, gap, c, kind, savedKey, savedValue);
          if key.sequence <= sequence {
            if kind != Deletion && key.user < savedKey.value {
              break;
            }
            kind := key.kind;
            c := iter.pos;
            if kind == Deletion {
              savedKey := None;
              savedValue := [];
            } else {
              savedKey := Some(key.user);
              savedValue := iter.Value();
            }
          }
          iter.Prev();
          if !iter.Valid() {
            BackAtFront(es, sequence, gap, c, kind, savedKey, savedValue);
            break;
          }
        }
      }
      BackDone(es, sequence, Gap(), gap, c, kind, savedKey, savedValue);
      if kind == Deletion {
        valid := false;
        savedKey := None;
        savedValue := [];
        direction := Forward;
      } else {
        valid := true;
        cur := c;
      }
    }

    /** Entries [q, gap) have been passed; c is the last visible one of them (or gap), and
        `kind` tells whether it is a value, which is then saved. */
    static ghost predicate Backed(es: seq<Entry>, s: nat, q: nat, gap: nat, c: nat, kind: ValueType,
                                  key: Option<UserKey>, value: Bytes)
      requires q <= c <= gap <= |es|
    {
      && AllHidden(es, s, q, c)
      && NoneLiveBut(es, s, q, gap, c)
      && (kind == ValueType.Value ==>
            && c < gap && Visible(es, s, c) && es[c].key.kind == ValueType.Value
            && key == Some(es[c].key.user) && value == es[c].value)
      && (kind == Deletion ==> (c < gap ==> !Live(es, s, c)))
    }

    static lemma {:induction false} OlderUsersBefore(es: seq<Entry>, q: nat, user: UserKey)
      requires Sorted(es) && q < |es| && es[q].key.user < user
      ensures forall j: nat :: j <= q ==> es[j].key.user < user
    {
      assert forall j: nat :: j < q ==> Before(es[j].key, es[q].key);
    }

    static lemma {:induction false} BackStart(es: seq<Entry>, s: nat, gap: nat, key: Option<UserKey>, value: Bytes)
      requires gap <= |es|
      ensures Backed(es, s, gap, gap, gap, Deletion, key, value)
    {
    }

    /** One step back: the entry is passed over, or becomes the last visible one, or shows
        that the last visible one is live. */
    static lemma {:induction false} BackStep(es: seq<Entry>, s: nat, q: nat, gap: nat, c: nat, kind: ValueType,
                                             key: Option<UserKey>, value: Bytes)
      requires Sorted(es) && q + 1 <= c <= gap <= |es|
      requires Backed(es, s, q + 1, gap, c, kind, key, value)
      ensures kind == ValueType.Value ==> key.Some?
      ensures !Visible(es, s, q) ==> Backed(es, s, q, gap, c, kind, key, value)
      ensures Visible(es, s, q) ==>
                if kind == ValueType.Value && es[q].key.user < key.value then Live(es, s, c)
                else if es[q].key.kind == Deletion then Backed(es, s, q, gap, q, Deletion, None, [])
                else Backed(es, s, q, gap, q, ValueType.Value, Some(es[q].key.user), es[q].value)
    {
      if Visible(es, s, q) && kind == ValueType.Value {
        assert Before(es[q].key, es[c].key);
        if es[q].key.user < key.value {
          OlderUsersBefore(es, q, es[c].key.user);
        }
      }
    }

    /** At the front nothing precedes the saved entry. */
    static lemma {:induction false} BackAtFront(es: seq<Entry>, s: nat, gap: nat, c: nat, kind: ValueType,
                                                key: Option<UserKey>, value: Bytes)
      requires c <= gap <= |es| && Backed(es, s, 0, gap, c, kind, key, value)
      ensures kind == ValueType.Value ==> Live(es, s, c)
    {
    }

    /** What the backward scan leaves. */
    static lemma {:induction false} BackDone(es: seq<Entry>, s: nat, q: nat, gap: nat, c: nat, kind: ValueType,
                                             key: Option<UserKey>, value: Bytes)
      requires q <= c <= gap <= |es| && Backed(es, s, q, gap, c, kind, key, value)
      ensures kind == Deletion ==> LiveBefore(es, s, gap) == LiveBefore(es, s, q)
      ensures kind == ValueType.Value ==>
                && c < gap && key == Some(es[c].key.user) && value == es[c].value && AllHidden(es, s, q, c)
                && (Live(es, s, c) ==> |LiveBefore(es, s, gap)| == |LiveBefore(es, s, c)| + 1)
    {
      if kind == Deletion {
        NoneLiveBetween(es, s, q, gap);
      } else {
        NoneLiveBetween(es, s, c + 1, gap);
      }
    }

    /** Move forward to the first live entry but `here`. */
    method FindNextUserEntry(skipping: bool, ghost here: nat)
      requires Sorted(iter.entries) && iter.Valid() && direction == Forward
      requires skipping ==> savedKey.Some?
      requires Hiding(iter.entries, sequence, iter.pos, skipping, savedKey, here)
      modifies this, iter
      ensures Valid() && direction == Forward
      ensures valid ==> cur >= old(iter.pos) && cur != here
      ensures NoneLiveBut(iter.entries, sequence, old(iter.pos), if valid then cur else |iter.entries|, here)
    {
      hide Live, Hiding;
      var skip := skipping;
      ghost var es, start := iter.entries, iter.pos;
      while true
        invariant iter.Valid() && direction == Forward && start <= iter.pos
        invariant skip ==> savedKey.Some?
        invariant Hiding(es, sequence, iter.pos, skip, savedKey, here)
        invariant NoneLiveBut(es, sequence, start, iter.pos, here)
        decreases |es| - iter.pos
      {
        var key := iter.Key();
        HidingStep(es, sequence, iter.pos, skip, savedKey, here);
        if key.sequence <= sequence {
          if key.kind == Deletion {
            savedKey := Some(key.user);
            skip := true;
          } else if skip && key.user <= savedKey.value {
            // Entry hidden
          } else {
            valid := true;
            savedKey := None;
            cur := iter.pos;
            return;
          }
        }
        iter.Next();
        if !iter.Valid() {
          break;
        }
      }
      savedKey := None;
      valid := false;
    }

    /** No entry in [m, n) is live, but perhaps `here`. */
    static ghost predicate NoneLiveBut(es: seq<Entry>, s: nat, m: nat, n: nat, here: nat)
      requires n <= |es|
    {
      forall i: nat :: m <= i < n && i != here ==> !Live(es, s, i)
    }

    /** From position p on, an entry whose key has a visible version before p is one that
        skipping hides; skipping hides no live entry but `here`, and does hide that. */
    static ghost predicate Hiding(es: seq<Entry>, s: nat, p: nat, skip: bool, key: Option<UserKey>, here: nat)
      requires p <= |es| && (skip ==> key.Some?)
    {
      && (forall i: nat, j: nat :: i < p <= j < |es| && Visible(es, s, i) && es[i].key.user == es[j].key.user ==>
            skip && es[j].key.user <= key.value)
      && (skip ==> forall j: nat :: p <= j < |es| && j != here && es[j].key.user <= key.value ==> !Live(es, s, j))
      && (p <= here < |es| ==> skip && es[here].key.user <= key.value && AllHidden(es, s, p, here))
    }

    /** One entry: it is passed over, a deletion changes what is hidden, or it is live. */
    static lemma {:induction false} HidingStep(es: seq<Entry>, s: nat, p: nat, skip: bool, key: Option<UserKey>,
                                               here: nat)
      requires Sorted(es) && p < |es| && (skip ==> key.Some?)
      requires Hiding(es, s, p, skip, key, here)
      ensures !Visible(es, s, p) || (es[p].key.kind == ValueType.Value && skip && es[p].key.user <= key.value) ==>
                (p == here || !Live(es, s, p)) && Hiding(es, s, p + 1, skip, key, here)
      ensures Visible(es, s, p) && es[p].key.kind == Deletion ==>
                !Live(es, s, p) && Hiding(es, s, p + 1, true, Some(es[p].key.user), here)
      ensures Visible(es, s, p) && es[p].key.kind == ValueType.Value && !(skip && es[p].key.user <= key.value) ==>
                p != here && Live(es, s, p)
    {
      if Visible(es, s, p) && es[p].key.kind == Deletion {
        var user := es[p].key.user;
        forall i: nat, j: nat | i <= p < j < |es| && es[i].key.user == es[j].key.user ensures es[j].key.user <= user {
          assert !Before(es[j].key, es[p].key) by { assert Before(es[p].key, es[j].key); }
          assert i < p ==> Before(es[i].key, es[p].key);
        }
        forall j: nat | p < j < |es| && es[j].key.user <= user ensures !Live(es, s, j) {
          assert Before(es[p].key, es[j].key);
        }
      }
    }
  }
}

/** The steps of the store, and the proof that each keeps the invariant. */
module StoreSteps {
  import opened Wrappers
  import opened InternalKeys
  import opened SortedLists
  import opened Stores

  // ---------- writes ----------

  function NewEntry(st: Store, k: UserKey, kind: ValueType, value: Bytes): Entry
    requires |st.history| + 1 < MAX_SEQUENCE_NUMBER
  {
    Entry(InternalKey(k, |st.history| + 1, kind), value)
  }

  /** One operation of a batch goes into the memtable with the next sequence number. */
  function AddEntry(st: Store, k: UserKey, kind: ValueType, value: Bytes): Store
    requires |st.history| + 1 < MAX_SEQUENCE_NUMBER
  {
    st.(mem := Insert(st.mem, NewEntry(st, k, kind, value)), history := st.history + [Write(k, kind, value)])
  }

  /** A sequence number used up by a write that never reached the memtable. */
  function LoseSequence(st: Store): Store {
    st.(history := st.history + [Void])
  }

  /** SetLastSequence: readers may now see everything written so far. */
  function Publish(st: Store): Store {
    st.(lastSequence := |st.history|)
  }

  lemma {:induction false} LastWriteOfPrefix(h: History, slot: Slot, k: UserKey, n: nat)
    requires n <= |h|
    ensures LastWrite(h + [slot], k, n) == LastWrite(h, k, n)
  {
    if n > 0 {
      LastWriteOfPrefix(h, slot, k, n - 1);
    }
  }

  /** A stored set that grows only by the newest write covers every read it should. */
  lemma {:induction false} AppendKeepsCovered(st: Store, st': Store, slot: Slot, k: UserKey, s: nat)
    requires st'.history == st.history + [slot]
    requires forall e :: st.Holds(e) ==> st'.Holds(e)
    requires forall e :: st'.Holds(e) && !st.Holds(e) ==> e.key.sequence == |st.history| + 1
    requires slot.Write? ==> st'.HoldsVersion(slot.user, |st.history| + 1) &&
                             forall e :: st'.Holds(e) && !st.Holds(e) ==> e.key.user == slot.user
    requires slot.Void? ==> forall e :: st'.Holds(e) ==> st.Holds(e)
    requires forall e :: st.Holds(e) ==> e.key.sequence <= |st.history|
    requires st.Covered(k, Min(s, |st.history|))
    ensures st'.Covered(k, s)
  {
    var h := st.history;
    var n := Min(s, |h|);
    var i := LastWrite(h, k, n);
    LastWriteOfPrefix(h, slot, k, n);
    if st.HoldsVersion(k, i) {
      var e :| st.Holds(e) && e.key.user == k && e.key.sequence == i;
      assert st'.Holds(e);
    }
    if s > |h| && !Writes(h + [slot], |h| + 1, k) {
      assert LastWrite(h + [slot], k, |h| + 1) == LastWrite(h + [slot], k, |h|);
    }
    if s <= |h| || !Writes(h + [slot], |h| + 1, k) {
      assert LastWrite(st'.history, k, Min(s, |st'.history|)) == i;
      assert i > 0 ==> st'.history[i - 1] == h[i - 1];
      forall e | st'.Holds(e) && Candidate(e, k, s) ensures st.Holds(e) && Candidate(e, k, n) {
      }
    }
  }

  lemma {:induction false} AddEntryKeepsInv(st: Store, k: UserKey, kind: ValueType, value: Bytes)
    requires st.Inv() && |st.history| + 1 < MAX_SEQUENCE_NUMBER
    ensures AddEntry(st, k, kind, value).Inv()
  {
    var st' := AddEntry(st, k, kind, value);
    var e := NewEntry(st, k, kind, value);
    AddEntryKeepsMemAndHistory(st, k, kind, value);
    assert st'.HoldsVersion(k, |st.history| + 1) by {
      assert st'.Holds(e);
    }
    forall k2, s | s >= st'.SmallestSnapshot() ensures st'.Covered(k2, s) {
      AppendKeepsCovered(st, st', Write(k, kind, value), k2, s);
    }
  }

  /** The memtable gains exactly the new entry. */
  lemma {:induction false} AddEntryAddsOne(st: Store, k: UserKey, kind: ValueType, value: Bytes)
    requires st.Inv() && |st.history| + 1 < MAX_SEQUENCE_NUMBER
    ensures forall x :: x in AddEntry(st, k, kind, value).mem <==> x in st.mem || x == NewEntry(st, k, kind, value)
  {
    forall x | x in st.mem ensures x.key != NewEntry(st, k, kind, value).key {
      assert st.Holds(x) && st.Genuine(x);
    }
    InsertKeepsSorted(st.mem, NewEntry(st, k, kind, value));
  }

  lemma {:induction false} AddEntryKeepsMemAndHistory(st: Store, k: UserKey, kind: ValueType, value: Bytes)
    requires st.MemOk() && st.HistoryOk() && |st.history| + 1 < MAX_SEQUENCE_NUMBER
    ensures var st' := AddEntry(st, k, kind, value);
            && st'.MemOk() && st'.HistoryOk()
            && forall x :: st'.Holds(x) <==> st.Holds(x) || x == NewEntry(st, k, kind, value)
  {
    var st' := AddEntry(st, k, kind, value);
    var e := NewEntry(st, k, kind, value);
    forall x | st.Holds(x) ensures x.key.sequence < e.key.sequence && st'.Genuine(x) {
      assert st.Genuine(x);
    }
    assert forall x :: x in st.mem ==> st.Holds(x);
    assert forall x :: x in st.Imm() ==> st.Holds(x);
    assert forall l, f, x :: 0 <= l < |st.version.levels| && f in st.version.levels[l] && x in f.entries ==>
           st.Holds(x);
    InsertKeepsSorted(st.mem, e);
  }

  lemma {:induction false} LoseSequenceKeepsInv(st: Store)
    requires st.Inv() && |st.history| + 1 < MAX_SEQUENCE_NUMBER
    ensures LoseSequence(st).Inv()
  {
    var st' := LoseSequence(st);
    assert forall e :: st'.Holds(e) <==> st.Holds(e);
    forall e | st'.Holds(e) ensures st'.Genuine(e) {
      assert st.Genuine(e);
    }
    forall k, s | s >= st'.SmallestSnapshot() ensures st'.Covered(k, s) {
      AppendKeepsCovered(st, st', Void, k, s);
    }
  }

  lemma {:induction false} SameContentsKeepCovered(st: Store, st': Store)
    requires st.history == st'.history && st.SmallestSnapshot() <= st'.SmallestSnapshot()
    requires forall e :: st.Holds(e) <==> st'.Holds(e)
    requires forall k, s :: s >= st.SmallestSnapshot() ==> st.Covered(k, s)
    ensures forall k, s :: s >= st'.SmallestSnapshot() ==> st'.Covered(k, s)
  {
    forall k, s | s >= st'.SmallestSnapshot() ensures st'.Covered(k, s) {
      assert st.Covered(k, s);
      var i := LastWrite(st.history, k, Min(s, |st.history|));
      if st.HoldsVersion(k, i) {
        var e :| st.Holds(e) && e.key.user == k && e.key.sequence == i;
        assert st'.Holds(e);
      }
    }
  }

  lemma {:induction false} PublishKeepsInv(st: Store)
    requires st.Inv()
    ensures Publish(st).Inv()
  {
    assert forall e :: st.Holds(e) ==> Publish(st).Genuine(e);
    SameContentsKeepCovered(st, Publish(st));
  }

  // ---------- memtable rotation and snapshots ----------

  /** MakeRoomForWrite starts a new memtable; the full one becomes immutable. */
  function SwitchMemTable(st: Store): Store {
    st.(imm := Some(st.mem), mem := [])
  }

  lemma {:induction false} SwitchMemTableKeepsInv(st: Store)
    requires st.Inv() && st.imm.None?
    ensures SwitchMemTable(st).Inv()
  {
    assert forall e :: SwitchMemTable(st).Holds(e) <==> st.Holds(e);
    assert forall e :: st.Holds(e) ==> SwitchMemTable(st).Genuine(e);
    SameContentsKeepCovered(st, SwitchMemTable(st));
  }

  function TakeSnapshot(st: Store): Store {
    st.(snapshots := st.snapshots + [st.lastSequence])
  }

  function ReleaseSnapshot(st: Store, i: nat): Store
    requires i < |st.snapshots|
  {
    st.(snapshots := st.snapshots[..i] + st.snapshots[i + 1..])
  }

  lemma {:induction false} TakeSnapshotKeepsInv(st: Store)
    requires st.Inv()
    ensures TakeSnapshot(st).Inv()
  {
    assert forall e :: st.Holds(e) ==> TakeSnapshot(st).Genuine(e);
    SameContentsKeepCovered(st, TakeSnapshot(st));
  }

  lemma {:induction false} ReleaseSnapshotKeepsInv(st: Store, i: nat)
    requires st.Inv() && i < |st.snapshots|
    ensures ReleaseSnapshot(st, i).Inv()
  {
    assert forall e :: st.Holds(e) ==> ReleaseSnapshot(st, i).Genuine(e);
    SameContentsKeepCovered(st, ReleaseSnapshot(st, i));
  }
}

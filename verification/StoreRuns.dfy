/** Runs of the store: the invariant, and with it every read, holds in every reachable state. */
module StoreRuns {
  import opened Wrappers
  import opened InternalKeys
  import opened Versions
  import opened CompactionPickers
  import opened Stores
  import opened StoreSteps
  import opened StoreFlushes
  import opened StoreCompactions

  ghost predicate WriteStep(st: Store, st': Store) {
    |st.history| + 1 < MAX_SEQUENCE_NUMBER &&
    ((exists k, kind, value :: st' == AddEntry(st, k, kind, value)) || st' == LoseSequence(st))
  }

  ghost predicate SnapshotStep(st: Store, st': Store) {
    st' == TakeSnapshot(st) || exists i :: 0 <= i < |st.snapshots| && st' == ReleaseSnapshot(st, i)
  }

  ghost predicate FlushStep(st: Store, st': Store) {
    || (st.imm.None? && st' == SwitchMemTable(st))
    || (st.imm == Some([]) && st' == DropEmptyImm(st))
    || exists level, f :: FlushTo(st, st', level, f)
  }

  ghost predicate SafeCompaction(st: Store, st': Store, c: Pick) {
    && |st.version.levels| == NUM_LEVELS && c.level + 1 < NUM_LEVELS
    && ((Compacted(st, st', c) && MergeIsSafe(st, c)) || (Moved(st, st', c) && MoveIsSafe(st, c)))
  }

  /** A merge or a move whose condition for keeping the invariant holds. */
  ghost predicate CompactStep(st: Store, st': Store) {
    exists c :: SafeCompaction(st, st', c)
  }

  ghost predicate Step(st: Store, st': Store) {
    WriteStep(st, st') || st' == Publish(st) || SnapshotStep(st, st') || FlushStep(st, st') || CompactStep(st, st')
  }

  lemma {:induction false} StepKeepsInv(st: Store, st': Store)
    requires st.Inv() && Step(st, st')
    ensures st'.Inv()
  {
    if WriteStep(st, st') {
      if st' == LoseSequence(st) {
        LoseSequenceKeepsInv(st);
      } else {
        var k, kind, value :| st' == AddEntry(st, k, kind, value);
        AddEntryKeepsInv(st, k, kind, value);
      }
    } else if st' == Publish(st) {
      PublishKeepsInv(st);
    } else if SnapshotStep(st, st') {
      TakeSnapshotKeepsInv(st);
      if st' != TakeSnapshot(st) {
        var i :| 0 <= i < |st.snapshots| && st' == ReleaseSnapshot(st, i);
        ReleaseSnapshotKeepsInv(st, i);
      }
    } else if FlushStep(st, st') {
      if st.imm.None? {
        SwitchMemTableKeepsInv(st);
      } else if st' == DropEmptyImm(st) && st.imm == Some([]) {
        DropEmptyImmKeepsInv(st);
      } else {
        var level, f :| FlushTo(st, st', level, f);
        FlushKeepsInv(st, st', level, f);
      }
    } else {
      var c :| SafeCompaction(st, st', c);
      if Compacted(st, st', c) && MergeIsSafe(st, c) {
        MergeKeepsInvIff(st, st', c);
      } else {
        MoveKeepsInvIff(st, st', c);
      }
    }
  }

  ghost predicate Run(run: seq<Store>) {
    run != [] && Init(run[0]) && forall i :: 0 < i < |run| ==> Step(run[i - 1], run[i])
  }

  lemma {:induction false} RunInv(run: seq<Store>, n: nat)
    requires Run(run) && n < |run|
    ensures run[n].Inv()
  {
    if n == 0 {
      InitInv(run[0]);
    } else {
      RunInv(run, n - 1);
      StepKeepsInv(run[n - 1], run[n]);
    }
  }

  /** In every reachable state, every read at a live snapshot or at the latest sequence
      returns exactly what the history of writes says. */
  lemma {:induction false} ReachableReadsMatchHistory(run: seq<Store>, n: nat, k: UserKey, s: nat, hit: Option<Entry>)
    requires Run(run) && n < |run| && (s in run[n].snapshots || s == run[n].lastSequence)
    requires run[n].Decides(k, s, hit)
    ensures Outcome(hit) == SpecGet(run[n].history, k, s)
  {
    RunInv(run, n);
    assert s >= run[n].SmallestSnapshot();
    ReadMatchesHistory(run[n], k, s, hit);
  }

  lemma {:induction false} HistoryGrows(run: seq<Store>, m: nat, n: nat)
    requires Run(run) && m <= n < |run|
    ensures run[m].history <= run[n].history
  {
    if m < n {
      HistoryGrows(run, m, n - 1);
      assert Step(run[n - 1], run[n]);
    }
  }

  lemma {:induction false} LastWriteOfExtension(h: History, h': History, k: UserKey, n: nat)
    requires h <= h' && n <= |h|
    ensures LastWrite(h', k, n) == LastWrite(h, k, n)
  {
    if n > 0 {
      LastWriteOfExtension(h, h', k, n - 1);
    }
  }

  /** Whatever the store does in between, a snapshot read gives the same answer later in the run. */
  lemma {:induction false} SnapshotReadsAreStable(run: seq<Store>, m: nat, n: nat, k: UserKey, s: nat,
                                                  hit: Option<Entry>, hit': Option<Entry>)
    requires Run(run) && m <= n < |run|
    requires s in run[m].snapshots && s in run[n].snapshots
    requires run[m].Decides(k, s, hit) && run[n].Decides(k, s, hit')
    ensures Outcome(hit) == Outcome(hit')
  {
    hide Run, Store.FilesOk, Store.MemOk, Store.Covered, Store.Decides, Outcome;
    ReachableReadsMatchHistory(run, m, k, s, hit);
    ReachableReadsMatchHistory(run, n, k, s, hit');
    HistoryGrows(run, m, n);
    RunInv(run, m);
    LastWriteOfExtension(run[m].history, run[n].history, k, s);
  }
}

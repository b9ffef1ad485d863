/** The log-structured store as a state machine.  The reference is a plain
    history of writes; the invariant ties memtables and files to it, and every
    internal step keeps the invariant, hence every read (db/db_impl.cc). */
module Stores {
  import opened Wrappers
  import opened InternalKeys
  import opened Versions
  import opened VersionBuilders

  // ---------- the reference ----------

  /** Slot i of a history has sequence number i + 1.  A write whose log append fails still
      uses up its sequence numbers: those slots are Void. */
  datatype Slot = Void | Write(user: UserKey, kind: ValueType, value: Bytes)
  type History = seq<Slot>

  function Min(a: nat, b: nat): nat {
    if a < b then a else b
  }

  predicate Writes(h: History, i: nat, k: UserKey)
    requires 0 < i <= |h|
  {
    h[i - 1].Write? && h[i - 1].user == k
  }

  /** The largest sequence number up to n that wrote k, or 0. */
  function LastWrite(h: History, k: UserKey, n: nat): (i: nat)
    requires n <= |h|
    ensures i <= n
    ensures i > 0 ==> Writes(h, i, k)
    ensures forall j :: i < j <= n ==> !Writes(h, j, k)
  {
    if n == 0 || Writes(h, n, k) then n else LastWrite(h, k, n - 1)
  }

  /** What a reader at sequence s must see: the newest write of k, unless it is a deletion. */
  function SpecGet(h: History, k: UserKey, s: nat): Option<Bytes> {
    var i := LastWrite(h, k, Min(s, |h|));
    if i == 0 || h[i - 1].kind == Deletion then None else Some(h[i - 1].value)
  }

  // ---------- the state ----------

  datatype Store = Store(mem: seq<Entry>, imm: Option<seq<Entry>>, version: Version,
                         lastSequence: nat, snapshots: seq<nat>, nextFileNumber: nat, history: History)
  {
    function Imm(): seq<Entry> {
      if imm.Some? then imm.value else []
    }

    ghost predicate Holds(e: Entry) {
      e in mem || e in Imm() || version.Holds(e)
    }

    /** The oldest sequence number a live snapshot, or a new reader, can ask for. */
    function SmallestSnapshot(): nat {
      if snapshots == [] then lastSequence else snapshots[0]
    }

    /** The entry records the write the history has at its sequence number. */
    ghost predicate Genuine(e: Entry) {
      && 0 < e.key.sequence <= |history|
      && history[e.key.sequence - 1] == Write(e.key.user, e.key.kind, e.value)
    }

    ghost predicate HoldsVersion(k: UserKey, i: nat) {
      exists e :: Holds(e) && e.key.user == k && e.key.sequence == i
    }

    /** The write a reader of k at s must see is stored, or it is a deletion that nothing stored contradicts. */
    ghost predicate Covered(k: UserKey, s: nat) {
      var i := LastWrite(history, k, Min(s, |history|));
      i == 0 || HoldsVersion(k, i) ||
      (history[i - 1].kind == Deletion && forall e :: Holds(e) ==> !Candidate(e, k, s))
    }

    ghost predicate NewerThanFiles(es: seq<Entry>) {
      forall l, f :: 0 <= l < |version.levels| && f in version.levels[l] ==> Newer(es, f.entries)
    }

    /** Files are well formed, ordered in each level, uniquely numbered, and younger above. */
    ghost predicate FilesOk() {
      && version.Valid() && version.LayersOrdered()
      && (forall l :: 0 <= l < NUM_LEVELS ==> BySmallest(version.levels[l]))
      && (forall l, f :: 0 <= l < NUM_LEVELS && f in version.levels[l] ==> f.number < nextFileNumber)
      && UniqueNumbers(version)
    }

    ghost predicate MemOk() {
      && Sorted(mem) && Sorted(Imm())
      && Newer(mem, Imm()) && NewerThanFiles(mem) && NewerThanFiles(Imm())
    }

    ghost predicate HistoryOk() {
      && lastSequence <= |history| < MAX_SEQUENCE_NUMBER
      && (forall e :: Holds(e) ==> Genuine(e))
      && (forall i, j :: 0 <= i < j < |snapshots| ==> snapshots[i] <= snapshots[j])
      && (forall i :: 0 <= i < |snapshots| ==> snapshots[i] <= lastSequence)
    }

    ghost predicate Inv() {
      FilesOk() && MemOk() && HistoryOk() && forall k, s :: s >= SmallestSnapshot() ==> Covered(k, s)
    }

    /** The entry that decides a read of k at s over everything stored; None if there is no candidate. */
    ghost predicate Decides(k: UserKey, s: nat, hit: Option<Entry>) {
      match hit
      case None => forall e :: Holds(e) ==> !Candidate(e, k, s)
      case Some(e) => Holds(e) && Candidate(e, k, s) &&
                      forall x :: Holds(x) && Candidate(x, k, s) ==> x.key.Tag() <= e.key.Tag()
    }
  }

  ghost predicate UniqueNumbers(v: Version) {
    forall l, m, f, g :: 0 <= l < |v.levels| && 0 <= m < |v.levels| && f in v.levels[l] && g in v.levels[m] ==>
      f.number == g.number ==> l == m && f == g
  }

  function NoFiles(): Version {
    Version(seq(NUM_LEVELS, _ => []))
  }

  ghost predicate Init(st: Store) {
    && st.mem == [] && st.imm == None && st.version == NoFiles()
    && st.lastSequence == 0 && st.snapshots == [] && st.history == []
  }

  lemma {:induction false} NoFilesOk()
    ensures NoFiles().Valid() && NoFiles().LayersOrdered() && UniqueNumbers(NoFiles())
    ensures forall l :: 0 <= l < NUM_LEVELS ==> NoFiles().levels[l] == []
    ensures forall e :: !NoFiles().Holds(e)
  {
    NoFilesFacts(NoFiles());
  }

  lemma {:induction false} NoFilesFacts(v: Version)
    requires |v.levels| == NUM_LEVELS && forall l :: 0 <= l < |v.levels| ==> v.levels[l] == []
    ensures v.Valid() && v.LayersOrdered() && UniqueNumbers(v)
    ensures forall e :: !v.Holds(e)
  {
    hide Newer, Sorted, Before;
  }

  lemma {:induction false} InitInv(st: Store)
    requires Init(st)
    ensures st.Inv()
  {
    NoFilesOk();
    assert forall k, s :: st.Covered(k, s);
  }

  // ---------- reads ----------

  function Outcome(hit: Option<Entry>): Option<Bytes> {
    if hit.None? || hit.value.key.kind == Deletion then None else Some(hit.value.value)
  }

  /** A read that finds the newest stored version answers as the history does. */
  lemma {:induction false} ReadMatchesHistory(st: Store, k: UserKey, s: nat, hit: Option<Entry>)
    requires st.HistoryOk() && st.Covered(k, s) && st.Decides(k, s, hit)
    ensures Outcome(hit) == SpecGet(st.history, k, s)
  {
    var i := LastWrite(st.history, k, Min(s, |st.history|));
    if hit.Some? {
      var e := hit.value;
      assert st.Genuine(e) && Writes(st.history, e.key.sequence, k);
      if st.HoldsVersion(k, i) {
        var x :| st.Holds(x) && x.key.user == k && x.key.sequence == i;
        assert st.Genuine(x);
      }
    } else {
      assert i > 0 ==> !st.HoldsVersion(k, i);
    }
  }

  /** Looking in the memtable, then the immutable memtable, then the files, decides the read. */
  lemma {:induction false} LayeredLookup(st: Store, k: UserKey, s: nat, m: Option<Entry>, i: Option<Entry>,
                                         f: Option<Entry>)
    requires st.MemOk()
    requires match m case None => forall x :: x in st.mem ==> !Candidate(x, k, s)
             case Some(e) => NewestIn(st.mem, k, s, e)
    requires m.None? ==> match i case None => forall x :: x in st.Imm() ==> !Candidate(x, k, s)
             case Some(e) => NewestIn(st.Imm(), k, s, e)
    requires m.None? && i.None? ==> match f case None => forall x :: st.version.Holds(x) ==> !Candidate(x, k, s)
             case Some(e) => NewestInVersion(st.version, k, s, e)
    ensures st.Decides(k, s, if m.Some? then m else if i.Some? then i else f)
  {
    var hit := if m.Some? then m else if i.Some? then i else f;
    if hit.Some? {
      forall x | st.Holds(x) && Candidate(x, k, s) ensures x.key.Tag() <= hit.value.key.Tag() {
        if st.version.Holds(x) {
          var l, g :| 0 <= l < |st.version.levels| && g in st.version.levels[l] && x in g.entries;
          assert Newer(st.mem, g.entries) && Newer(st.Imm(), g.entries);
        }
      }
    }
  }
}

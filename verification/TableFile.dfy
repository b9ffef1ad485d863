/** A table from end to end: BuildTable (db/builder.cc) writes sorted entries, and a lookup in
    the file finds them (TableCache::Get in db/table_cache.cc). */
module TableFiles {
  import opened Wrappers
  import opened Coding
  import opened BlockFormat
  import opened BlockScans
  import opened Blocks
  import opened Comparators
  import opened TableIndexes
  import opened TableImages
  import opened TableBuilders
  import opened Tables
  import opened TableIterators

  ghost predicate Buildable(entries: seq<Entry>) {
    && Sorted(entries, IOrder)
    && forall i :: 0 <= i < |entries| ==> 8 <= |entries[i].key| < TWO32 && |entries[i].value| < TWO32
  }

  /** Add all entries and finish.  It fails only for a file too long for 64-bit offsets. */
  method BuildTable(entries: seq<Entry>, blockSize: nat, interval: nat, policy: Option<FilterPolicy>)
    returns (ok: bool, file: Bytes, ghost image: Image)
    requires Buildable(entries) && interval >= 1
    requires policy.Some? ==> policy.value.bloom.Valid() && |policy.value.name| < TWO32 - 7
    ensures ok ==> image.IsTable(file) && image.policy == policy && Flat(EntriesOf(image.data.blocks)) == entries
    ensures !ok ==> |file| >= TWO64
  {
    hide Image.IsTable, Progress.Entries, ILess, TableBuilder.Valid;
    var builder := new TableBuilder(blockSize, interval, policy);
    for i := 0 to |entries|
      invariant builder.Valid() && !builder.closed && builder.policy == policy
      invariant fresh(builder) && fresh(builder.dataBlock) && fresh(builder.indexBlock)
      invariant builder.filterBlock != null ==> fresh(builder.filterBlock)
      invariant builder.made.Entries() == entries[..i]
    {
      if |builder.file| >= TWO64 {
        image := Image(builder.made, Layout([], [], []), builder.pendingHandle, Layout([], [], []),
                       builder.pendingHandle, None, [], builder.pendingHandle);
        return false, builder.file, image;
      }
      if i > 0 {
        assert IOrder(entries[i - 1].key, entries[i].key);
        builder.LastAdded();
      }
      builder.Add(entries[i].key, entries[i].value);
      assert entries[..i + 1] == entries[..i] + [Entry(entries[i].key, entries[i].value)];
    }
    assert entries[..|entries|] == entries;
    ok, image := builder.Finish();
    file := builder.file;
  }

  /** Build, open and walk through: exactly the entries, in order. */
  method BuildAndScan(entries: seq<Entry>, blockSize: nat, interval: nat, policy: Option<FilterPolicy>,
                      verifyChecksums: bool)
    returns (file: Bytes, r: seq<Entry>)
    requires Buildable(entries) && interval >= 1
    requires policy.Some? ==> policy.value.bloom.Valid() && UserHash(policy.value) && |policy.value.name| < TWO32 - 7
    ensures |file| < TWO32 ==> r == entries
  {
    hide Image.IsTable, Buildable, UserHash;
    var ok, written, image := BuildTable(entries, blockSize, interval, policy);
    file, r := written, [];
    if ok && |file| < TWO32 {
      var table := Open(file, policy, verifyChecksums, image);
      r := Scan(table, verifyChecksums);
    }
  }

  /** What a compaction does with an input file: from the first entry to the last. */
  method Scan(table: Table, verifyChecksums: bool) returns (r: seq<Entry>)
    requires table.Valid() && table.Intact()
    ensures r == Flat(EntriesOf(table.image.data.blocks))
  {
    hide Table.Intact, Table.Valid, Flat, TableIterator.Valid, TableIterator.Position;
    var it := NewTableIterator(table, verifyChecksums);
    it.SeekToFirst();
    it.CurrentIff();
    r := [];
    while it.HasCurrent()
      invariant it.Valid() && it.table == table && fresh(it) && fresh(it.index) && (it.data != null ==> fresh(it.data))
      invariant it.Position() == |r| <= |it.List()| && r == it.List()[..|r|]
      invariant it.HasCurrent() <==> it.Position() < |it.List()|
      decreases |it.List()| - |r|
    {
      var e := it.Current();
      r := r + [e];
      it.Next();
      it.CurrentIff();
    }
  }

  /** Build, open and look up.  In a file below 4 GB the lookup sees exactly what was added,
      whatever the sizes of the blocks, with or without a filter. */
  method BuildAndGet(entries: seq<Entry>, blockSize: nat, interval: nat, policy: Option<FilterPolicy>, k: IKey,
                     verifyChecksums: bool)
    returns (file: Bytes, r: Option<Entry>)
    requires Buildable(entries) && interval >= 1
    requires policy.Some? ==> policy.value.bloom.Valid() && UserHash(policy.value) && |policy.value.name| < TWO32 - 7
    ensures |file| < TWO32 ==> Answers(entries, k, r)
  {
    hide Image.IsTable, Answers, Buildable;
    var ok, written, image := BuildTable(entries, blockSize, interval, policy);
    file, r := written, None;
    if ok {
      var table := Open(file, policy, verifyChecksums, image);
      if table != null {
        var found;
        r, found := table.InternalGet(k, verifyChecksums);
      }
    }
  }
}

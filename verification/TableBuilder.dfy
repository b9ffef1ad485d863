/** TableBuilder (table/table_builder.cc): sorted entries become a table file. */
module TableBuilders {
  import opened Wrappers
  import opened Coding
  import opened Comparators
  import opened BlockFormat
  import opened BlockBuilders
  import opened TableFormat
  import opened TableIndexes
  import opened TableImages
  import opened FilterBlocks
  import Crc32c

  class TableBuilder {
    const blockSize: nat
    const interval: nat
    const policy: Option<FilterPolicy>
    const dataBlock: BlockBuilder
    const indexBlock: BlockBuilder
    const filterBlock: FilterBlockBuilder?
    var file: Bytes
    var offset: nat
    var lastKey: Bytes
    var numEntries: nat
    var closed: bool
    /** Invariant: pendingIndexEntry only if the data block is empty. */
    var pendingIndexEntry: bool
    var pendingHandle: Handle
    ghost var made: Progress

    /** The parts, without what is under construction. */
    ghost predicate Parts()
      reads this, dataBlock, indexBlock, filterBlock
    {
      && interval >= 1 && dataBlock != indexBlock && dataBlock.interval == interval
      && dataBlock.Valid() && !dataBlock.finished && indexBlock.Valid() && !indexBlock.finished
      && (filterBlock == null <==> policy == None)
      && (filterBlock != null ==> filterBlock.Valid() && filterBlock.policy == policy.value.bloom)
      && (policy.Some? ==> |policy.value.name| < TWO32 - 7)
      && offset == |file|
    }

    ghost predicate Valid()
      reads this, dataBlock, indexBlock, filterBlock
    {
      && Parts() && made.Ok(file)
      && dataBlock.layout.entries == made.open
      && |made.seps| <= |made.handles| == |made.blocks| && indexBlock.layout.entries == made.IndexEntries()
      && Counted(made, lastKey, numEntries, pendingIndexEntry, pendingHandle)
      && (filterBlock != null ==> filterBlock.current == offset && made.Covered(filterBlock.added, offset)
                                  && made.Feeds(filterBlock.groups, filterBlock.pending))
    }

    static ghost predicate Counted(made: Progress, lastKey: Bytes, numEntries: nat, pendingIndexEntry: bool,
                                   pendingHandle: Handle) {
      && numEntries == |made.Entries()|
      && (made.Entries() != [] ==> LastKey(made) && lastKey == LastOf(made) && |lastKey| < TWO32)
      && pendingIndexEntry == made.Pending()
      && (pendingIndexEntry ==> |made.handles| == |made.blocks| && pendingHandle == made.handles[|made.handles| - 1])
    }

    constructor (blockSize: nat, interval: nat, policy: Option<FilterPolicy>)
      requires interval >= 1
      requires policy.Some? ==> policy.value.bloom.Valid() && |policy.value.name| < TWO32 - 7
      ensures Valid() && made.Entries() == [] && !closed && file == [] && this.policy == policy
      ensures fresh(dataBlock) && fresh(indexBlock) && (filterBlock != null ==> fresh(filterBlock))
    {
      hide Progress.Ok, Progress.Covered, Progress.Feeds, Progress.Entries, Progress.IndexEntries, Counted,
           FilterBlockBuilder.Consistent;
      this.blockSize, this.interval, this.policy := blockSize, interval, policy;
      dataBlock := new BlockBuilder(interval);
      indexBlock := new BlockBuilder(1);
      var filters: FilterBlockBuilder? := null;
      if policy.Some? {
        filters := new FilterBlockBuilder(policy.value.bloom);
      }
      filterBlock := filters;
      file, offset, lastKey, numEntries, closed := [], 0, [], 0, false;
      pendingIndexEntry, pendingHandle := false, Handle(0, 0);
      made := Progress([], [], [], []);
      NothingMade(Progress([], [], [], []));
    }

    static lemma {:induction false} NothingMade(made: Progress)
      requires made == Progress([], [], [], [])
      ensures made.Ok([]) && made.Entries() == [] && made.IndexEntries() == [] && made.Covered({}, 0)
              && made.Feeds([], [])
      ensures Counted(made, [], 0, false, Handle(0, 0))
    {
      hide Layout.Valid, Layout.Contents, Stores, Handle.Encode, LastOf;
      assert EntriesOf([]) == [] && made.Runs() == [] && Keys([]) == [];
    }

    lemma {:induction false} LastAdded()
      requires Valid() && made.Entries() != []
      ensures |lastKey| >= 8 && lastKey == made.Entries()[|made.Entries()| - 1].key
    {
    }

    /** Add an entry after all entries added so far. */
    method Add(key: Bytes, value: Bytes)
      requires Valid() && !closed && 8 <= |key| < TWO32 && |value| < TWO32 && |file| < TWO64
      requires made.Entries() != [] ==> ILess(lastKey, key)
      modifies this, dataBlock, indexBlock, filterBlock
      ensures Valid() && !closed && made.Entries() == old(made.Entries()) + [Entry(key, value)]
      ensures if made.open != [] then
                && made.blocks == old(made.blocks) && made.open == old(made.open) + [Entry(key, value)]
                && |dataBlock.layout.Contents()| < blockSize
              else
                exists b: Layout ::
                  && made.blocks == old(made.blocks) + [b] && b.entries == old(made.open) + [Entry(key, value)]
                  && b.Valid() && |b.Contents()| >= blockSize
    {
      hide Progress.Covered, Progress.Feeds, Progress.Ok, Progress.Entries, ILess, Separator, LastOf, LastKey,
           FilterBlockBuilder.Consistent, BlockBuilder.Built, Progress.IndexEntries, Progress.Pending;
      ghost var before := made;
      var sep: Bytes := [];
      if pendingIndexEntry {
        PendingFacts(made, file, pendingHandle);
        sep := FindShortestInternalSeparator(lastKey, key);
        AddIndexEntry(sep);
      }
      AddProgress(before, Progress(made.blocks, made.handles, made.seps, made.open + [Entry(key, value)]), file, sep,
                  Entry(key, value));
      SameData(before, made, file);
      ghost var separated := made;
      AddToBlock(key, value);
      IndexSame(separated, made);
      dataBlock.Sizes();
      ghost var block := dataBlock.layout;
      var estimatedBlockSize := dataBlock.CurrentSizeEstimate();
      if estimatedBlockSize >= blockSize {
        Flush();
        assert made.blocks == old(made.blocks) + [block] && block.Valid();
      }
    }

    /** Index keys do not matter to the data. */
    static lemma {:induction false} SameData(p: Progress, q: Progress, file: Bytes)
      requires p.Ok(file) && q == p.(seps := q.seps)
      ensures |q.blocks| == |q.handles| && q.Entries() == p.Entries()
      ensures forall added, offset :: p.Covered(added, offset) ==> q.Covered(added, offset)
      ensures forall groups, pending :: p.Feeds(groups, pending) ==> q.Feeds(groups, pending)
    {
      GroupedSame(p, q, |p.blocks|);
      forall added, offset | p.Covered(added, offset) ensures q.Covered(added, offset) {
        forall b | 0 <= b < |q.blocks| ensures q.BlockCovered(added, b) {
          assert p.BlockCovered(added, b);
        }
      }
    }

    /** The handle of a written block can be encoded. */
    static lemma {:induction false} PendingFacts(made: Progress, file: Bytes, pendingHandle: Handle)
      requires made.Ok(file) && made.Pending() && pendingHandle == made.handles[|made.handles| - 1] && |file| < TWO64
      ensures pendingHandle.Fits() && made.Entries() != [] && |made.seps| == |made.handles| - 1
    {
      LastBlock(made, file);
      assert made.StoredAt(file, |made.blocks| - 1);
    }

    /** The pending index entry. */
    method AddIndexEntry(sep: Bytes)
      requires indexBlock.Valid() && !indexBlock.finished && pendingHandle.Fits() && |sep| < TWO32
               && |made.seps| < |made.handles|
      requires pendingHandle == made.handles[|made.seps|] && indexBlock.layout.entries == made.IndexEntries()
      modifies this`pendingIndexEntry, this`made, indexBlock
      ensures indexBlock.Valid() && !indexBlock.finished
      ensures made == old(made).(seps := old(made.seps) + [sep]) && indexBlock.layout.entries == made.IndexEntries()
      ensures !pendingIndexEntry
    {
      hide Varint;
      var handleEncoding := pendingHandle.Encode();
      HandleSize(pendingHandle);
      indexBlock.Add(sep, handleEncoding);
      pendingIndexEntry := false;
      made := made.(seps := made.seps + [sep]);
    }

    /** The rest of Add. */
    method AddToBlock(key: Bytes, value: Bytes)
      requires Parts() && !closed && 8 <= |key| < TWO32 && |value| < TWO32 && !pendingIndexEntry
      requires dataBlock.layout.entries == made.open && |made.blocks| == |made.handles|
      requires filterBlock != null ==> filterBlock.current == offset && made.Covered(filterBlock.added, offset)
                                       && made.Feeds(filterBlock.groups, filterBlock.pending)
      requires numEntries == |made.Entries()|
      modifies this`lastKey, this`numEntries, this`made, dataBlock, filterBlock
      ensures Parts() && made == old(made).(open := old(made.open) + [Entry(key, value)])
              && dataBlock.layout.entries == made.open
      ensures filterBlock != null ==> filterBlock.current == offset && made.Covered(filterBlock.added, offset)
                                      && made.Feeds(filterBlock.groups, filterBlock.pending)
      ensures Counted(made, lastKey, numEntries, pendingIndexEntry, pendingHandle)
    {
      hide Progress.Covered, Progress.Feeds, FilterBlockBuilder.Consistent, BlockBuilder.Built, LastKey;
      ghost var before, e := made, Entry(key, value);
      made := made.(open := made.open + [e]);
      if filterBlock != null {
        AddCovers(before, made, filterBlock.added, offset, e);
        AddFeeds(before, made, filterBlock.groups, filterBlock.pending, e);
        filterBlock.AddKey(key);
      }
      lastKey := key;
      numEntries := numEntries + 1;
      dataBlock.Add(key, value);
      assert made.Entries() == before.Entries() + [e];
      LastIs(made, before.Entries(), e);
    }

    static lemma {:induction false} LastIs(made: Progress, es: seq<Entry>, e: Entry)
      requires made.Entries() == es + [e] && |e.key| >= 8
      ensures LastKey(made) && LastOf(made) == e.key
    {
    }

    method Flush()
      requires Valid() && !closed
      modifies this`file, this`offset, this`pendingIndexEntry, this`pendingHandle, this`made, dataBlock, filterBlock
      ensures Valid() && made.Entries() == old(made.Entries()) && made.open == []
      ensures made.blocks == old(made.blocks) + if old(made.open) == [] then [] else [old(dataBlock.layout)]
      ensures |file| <= |old(file)| + old(dataBlock.CurrentSizeEstimate()) + TRAILER
    {
      hide Progress.Covered, Progress.Feeds, Progress.Ok, LastOf, LastKey, Layout.Body, Layout.Contents, Layout.Valid;
      hide Progress.Entries, Progress.IndexEntries, RawBlock, FilterBlockBuilder.Valid;
      dataBlock.Sizes();
      if dataBlock.Empty() {
        return;
      }
      ghost var before, file0, offset0, block := made, file, offset, dataBlock.layout;
      pendingHandle := WriteBlock(dataBlock);
      pendingIndexEntry := true;
      made := Progress(made.blocks + [block], made.handles + [pendingHandle], made.seps, []);
      FlushProgress(before, made, file0, block, pendingHandle);
      IndexSame(before, made);
      if filterBlock != null {
        FlushCovers(before, made, filterBlock.added, offset0, offset, block, pendingHandle);
        ghost var groups, pending := filterBlock.groups, filterBlock.pending;
        filterBlock.StartBlock(offset);
        FlushFeeds(before, made, groups, pending, filterBlock.groups, filterBlock.pending, block, pendingHandle);
      }
    }

    static lemma {:induction false} IndexSame(p: Progress, q: Progress)
      requires |p.seps| <= |p.handles| <= |q.handles| && q.handles[..|p.handles|] == p.handles && q.seps == p.seps
      ensures q.IndexEntries() == p.IndexEntries()
    {
      hide Handle.Encode;
      forall b | 0 <= b < |p.seps| ensures p.handles[b] == q.handles[b] {
        assert q.handles[..|p.handles|][b] == q.handles[b];
      }
    }

    /** Write a block, uncompressed, and start it afresh. */
    method WriteBlock(block: BlockBuilder) returns (handle: Handle)
      requires block.Valid() && !block.finished && offset == |file|
      modifies this`file, this`offset, block
      ensures block.Valid() && !block.finished && block.layout.entries == []
      ensures handle == Handle(old(|file|), |old(block.layout).Contents()|)
      ensures file == old(file) + RawBlock(old(block.layout).Contents()) && offset == |file|
    {
      var raw := block.Finish();
      handle := WriteRawBlock(raw);
      block.Reset();
    }

    /** The contents, a type byte and a masked checksum of both. */
    method WriteRawBlock(blockContents: Bytes) returns (handle: Handle)
      requires offset == |file|
      modifies this`file, this`offset
      ensures handle == Handle(old(|file|), |blockContents|)
      ensures file == old(file) + RawBlock(blockContents) && offset == |file|
    {
      hide Crc32c.Crc, Crc32c.Value, Crc32c.Mask, Fixed;
      handle := Handle(offset, |blockContents|);
      file := file + blockContents;
      var crc := Crc32c.ComputeValue(blockContents, offset);
      crc := Crc32c.Extend(crc, Crc32c.Octets([0]), 0);
      Crc32c.ExtendValue(blockContents, [0]);
      var trailer := [0] + Fixed(Crc32c.Mask(crc), 4);
      file := file + trailer;
      offset := offset + |blockContents| + TRAILER;
    }

    /** Write what is left: filter block, metaindex block, index block and footer.  It fails only
        for a file too long for 64-bit offsets. */
    method Finish() returns (ok: bool, ghost image: Image)
      requires Valid() && !closed
      modifies this, dataBlock, indexBlock, filterBlock
      ensures closed && offset == |file| && (!ok ==> |file| >= TWO64)
      ensures ok ==>
              image.IsTable(file) && image.policy == policy && Flat(EntriesOf(image.data.blocks)) == old(made.Entries())
    {
      hide Progress.Covered, Progress.Feeds, Progress.Ok, Progress.Entries, LastOf, LastKey, Layout.Body, Layout.Valid,
           RawBlock, Footer, Indexed, Stores, FilterOk;
      Flush();
      closed := true;
      image := Image(made, dataBlock.layout, pendingHandle, dataBlock.layout, pendingHandle, policy, [], pendingHandle);
      ok := offset < TWO64;
      if !ok { return; }
      ghost var written := file;
      var filterHandle, filter := WriteFilterBlock();
      ok := offset < TWO64;
      if !ok { return; }
      ok, image := WriteTail(filterHandle, filter, written);
    }

    /** The metaindex block, the index block and the footer. */
    method WriteTail(filterHandle: Handle, ghost filter: Bytes, ghost written: Bytes)
      returns (ok: bool, ghost image: Image)
      requires interval >= 1 && (filterBlock == null <==> policy == None)
      requires policy.Some? ==> |policy.value.name| < TWO32 - 7
      requires made.Ok(written) && made.open == [] && |made.seps| <= |made.handles| == |made.blocks|
      requires indexBlock.Valid() && !indexBlock.finished && indexBlock.layout.entries == made.IndexEntries()
      requires Counted(made, lastKey, numEntries, pendingIndexEntry, pendingHandle)
      requires written <= file && |written| < TWO64 && offset == |file| && filterHandle.Fits()
      requires policy.Some? ==> FilterOk(made, policy.value, filter, filterHandle, file)
      modifies this`file, this`offset, this`made, this`pendingIndexEntry, indexBlock
      ensures offset == |file| && (!ok ==> |file| >= TWO64)
      ensures ok ==>
              image.IsTable(file) && image.policy == policy && Flat(EntriesOf(image.data.blocks)) == old(made.Entries())
    {
      hide *;
      ghost var before, filters := made, file;
      var metaHandle, meta := WriteMetaBlock(filterHandle);
      var indexHandle, index := WriteIndexBlock(written);
      image := Image(made, index, indexHandle, meta, metaHandle, policy, filter, filterHandle);
      ok := offset < TWO64;
      if !ok { return; }
      file := file + Footer(metaHandle, indexHandle);
      offset := offset + FOOTER;
      Finished(before, image, written, filters, file);
    }

    static lemma {:induction false} Finished(before: Progress, image: Image, written: Bytes, filters: Bytes,
                                             file: Bytes)
      requires before.Ok(written) && before.open == [] && image.data == before.(seps := image.data.seps)
      requires Indexed(EntriesOf(image.data.blocks), image.data.seps) && |image.data.seps| == |image.data.blocks|
      requires image.index.Valid() && image.meta.Valid() && |image.data.seps| == |image.data.handles|
      requires image.index.entries == image.data.IndexEntries()
      requires image.meta.entries == if image.policy.Some? then [Entry(FilterKey(image.policy.value.name),
                                                                       image.filterHandle.Encode())] else []
      requires image.policy.Some? ==> FilterOk(before, image.policy.value, image.filter, image.filterHandle, filters)
      requires written <= filters && image.metaHandle == Handle(|filters|, |image.meta.Contents()|)
      requires var m := filters + RawBlock(image.meta.Contents());
               image.indexHandle == Handle(|m|, |image.index.Contents()|)
                 && |m + RawBlock(image.index.Contents())| < TWO64
               && file == m + RawBlock(image.index.Contents()) + Footer(image.metaHandle, image.indexHandle)
      ensures image.IsTable(file) && Flat(EntriesOf(image.data.blocks)) == before.Entries()
    {
      hide RawBlock, Layout.Valid, Indexed, Footer, Stores, Layout.Contents;
      forall b | 0 <= b < |image.data.blocks| ensures image.data.StoredAt(written, b) {
        assert before.StoredAt(written, b);
      }
      if image.policy.Some? {
        FilterOfData(before, image.data, image.policy.value, image.filter, image.filterHandle, filters);
      }
      WholeTable(image, written, filters, file);
    }

    method WriteFilterBlock() returns (filterHandle: Handle, ghost filter: Bytes)
      requires Parts() && |made.blocks| == |made.handles|
      requires made.open == []
      requires filterBlock != null ==> made.Covered(filterBlock.added, offset)
                                       && made.Feeds(filterBlock.groups, filterBlock.pending)
      modifies this`file, this`offset, filterBlock
      ensures offset == |file| && old(file) <= file && (policy == None ==> file == old(file) && filterHandle.Fits())
      ensures policy.Some? ==>
              FilterOk(made, policy.value, filter, filterHandle, file) && (|file| < TWO64 ==> filterHandle.Fits())
    {
      hide RawBlock, Stores, FilterBlocks.Reader, Progress.Covered, FilterOk, Progress.Feeds, Progress.AllGroups,
           FilterBlocks.IsFilterBlock;
      filterHandle, filter := Handle(0, 0), [];
      if filterBlock != null {
        ghost var added, offset0, file0 := filterBlock.added, offset, file;
        FedGroups(made, filterBlock.groups, filterBlock.pending);
        var contents := filterBlock.Finish();
        filterHandle := WriteRawBlock(contents);
        filter := contents;
        StoresAppended(file0, contents);
        FilterAdmits(made, policy.value, contents, filterHandle, file, added, offset0);
      }
    }

    static lemma {:induction false} FedGroups(made: Progress, groups: seq<seq<Bytes>>, pending: seq<Bytes>)
      requires made.Feeds(groups, pending) && made.open == []
      ensures |made.blocks| == |made.handles|
      ensures made.AllGroups() == groups + if pending == [] then [] else [pending]
    {
      var rest := made.Grouped(|made.blocks|).1;
      assert Keys(made.open) == [] && rest + Keys(made.open) == rest;
    }

    method WriteMetaBlock(filterHandle: Handle) returns (metaHandle: Handle, ghost meta: Layout)
      requires interval >= 1 && offset == |file| && filterHandle.Fits()
      requires filterBlock == null <==> policy == None
      requires policy.Some? ==> |policy.value.name| < TWO32 - 7
      modifies this`file, this`offset
      ensures meta.Valid() && meta.entries == if policy.Some?
              then [Entry(FilterKey(policy.value.name), filterHandle.Encode())] else []
      ensures metaHandle == Handle(old(|file|), |meta.Contents()|) && file == old(file) + RawBlock(meta.Contents())
              && offset == |file|
    {
      hide RawBlock, Layout.Body, Layout.Valid, Varint;
      var metaIndexBlock := new BlockBuilder(interval);
      if filterBlock != null {
        var handleEncoding := filterHandle.Encode();
        HandleSize(filterHandle);
        metaIndexBlock.Add(FilterKey(policy.value.name), handleEncoding);
      }
      meta := metaIndexBlock.layout;
      metaHandle := WriteBlock(metaIndexBlock);
    }

    method WriteIndexBlock(ghost written: Bytes) returns (indexHandle: Handle, ghost index: Layout)
      requires indexBlock.Valid() && !indexBlock.finished && offset == |file|
      requires made.Ok(written) && made.open == [] && |written| < TWO64
      requires |made.seps| <= |made.handles| && indexBlock.layout.entries == made.IndexEntries()
      requires Counted(made, lastKey, numEntries, pendingIndexEntry, pendingHandle)
      modifies this`file, this`offset, this`made, this`pendingIndexEntry, indexBlock
      ensures made == old(made).(seps := made.seps) && |made.seps| == |made.handles| == |made.blocks|
      ensures index.Valid() && index.entries == made.IndexEntries() && Indexed(EntriesOf(made.blocks), made.seps)
      ensures indexHandle == Handle(old(|file|), |index.Contents()|) && file == old(file) + RawBlock(index.Contents())
              && offset == |file|
    {
      hide RawBlock, Layout.Body, Layout.Valid, Stores, Indexed;
      if pendingIndexEntry {
        PendingFacts(made, written, pendingHandle);
        var sep := FindShortInternalSuccessor(lastKey);
        FinalProgress(made, written, sep);
        AddIndexEntry(sep);
      } else {
        assert EntriesOf(made.blocks) == made.Runs();
      }
      index := indexBlock.layout;
      indexHandle := WriteBlock(indexBlock);
    }
  }

  lemma {:induction false} HandleSize(h: Handle)
    requires h.Fits()
    ensures |h.Encode()| <= 20
  {
    PowersOf128();
    VarintSize(h.offset, 10);
    VarintSize(h.size, 10);
  }
}

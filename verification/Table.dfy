/** Table (table/table.cc): opening a table file, and looking up one key in it. */
module Tables {
  import opened Wrappers
  import opened Coding
  import opened Comparators
  import opened BlockFormat
  import opened BlockScans
  import opened Blocks
  import opened TableFormat
  import opened TableIndexes
  import opened TableImages
  import opened FilterBlocks

  /** The hash of an internal key is a function of its user key. */
  ghost predicate UserHash(policy: FilterPolicy) {
    forall a: IKey, b: IKey :: User(a) == User(b) ==> policy.bloom.hash(a) == policy.bloom.hash(b)
  }

  lemma {:induction false} InternalFilterPolicyHashesUsers(user: FilterPolicy)
    ensures UserHash(InternalFilterPolicy(user))
  {
  }

  /** Policies of one name have one hash function (though perhaps other sizes). */
  ghost predicate Compatible(policy: Option<FilterPolicy>, writer: Option<FilterPolicy>) {
    policy.Some? && writer.Some? && policy.value.name == writer.value.name ==>
      policy.value.bloom.hash == writer.value.bloom.hash
  }

  class Table {
    const file: Bytes
    const policy: Option<FilterPolicy>
    const indexBlock: Bytes
    const filter: Option<FilterBlockReader>
    /** What the file contains, when a table builder wrote it. */
    ghost const image: Image

    /** The file is what a builder wrote, with a compatible policy. */
    ghost predicate Intact() {
      image.IsTable(file) && |file| < TWO32 && Compatible(policy, image.policy)
        && (policy.Some? ==> UserHash(policy.value))
    }

    ghost predicate Valid() {
      && (filter.Some? ==> policy.Some? && filter.value.InBounds())
      && (Intact() ==>
            && indexBlock == image.index.Contents()
            && (filter.Some? <==> policy.Some? && image.policy.Some? && policy.value.name == image.policy.value.name)
            && (filter.Some? ==> filter.value == Reader(image.filter)))
    }

    constructor (file: Bytes, policy: Option<FilterPolicy>, indexBlock: Bytes, filter: Option<FilterBlockReader>,
                 ghost image: Image)
      ensures this.file == file && this.policy == policy && this.indexBlock == indexBlock && this.filter == filter
              && this.image == image
    {
      this.file, this.policy, this.indexBlock, this.filter, this.image := file, policy, indexBlock, filter, image;
    }

    /** The data block that an index value names. */
    ghost function DataAt(verifyChecksums: bool, indexValue: Bytes): Option<Bytes> {
      match DecodeHandle(indexValue)
      case None => None
      case Some(h) => BlockAt(file, verifyChecksums, h.0)
    }

    ghost function InBlock(verifyChecksums: bool, indexValue: Bytes, k: IKey): (Option<Entry>, bool) {
      match DataAt(verifyChecksums, indexValue)
      case None => (None, false)
      case Some(c) => Search(IOrder, c, k)
    }

    ghost predicate Excluded(indexValue: Bytes, k: IKey)
      requires Valid()
    {
      filter.Some? && DecodeHandle(indexValue).Some? &&
      !filter.value.MayMatch(policy.value.bloom, DecodeHandle(indexValue).value.0.offset, k)
    }

    /** What a lookup gives, whatever the bytes of the file: an entry or none, and whether all
        that was read is good. */
    ghost function Got(k: IKey, verifyChecksums: bool): (Option<Entry>, bool)
      requires Valid()
    {
      var found := Search(IOrder, indexBlock, k);
      match found.0
      case None => (None, found.1)
      case Some(e) =>
        if Excluded(e.value, k) then (None, true) else InBlock(verifyChecksums, e.value, k)
    }

    /** Convert an index value into an iterator over the block it names. */
    method BlockReader(verifyChecksums: bool, indexValue: Bytes, ghost b: nat) returns (it: Iter?, ok: bool)
      ensures it != null ==> fresh(it) && it.Valid() && it.less == IOrder && !it.corrupt
      ensures match DataAt(verifyChecksums, indexValue)
              case None => it == null && !ok
              case Some(c) =>
                && (it == null <==> SourceOf(IOrder, c).None?) && (ok <==> it != null || NoRestarts(c))
                && (it != null ==> it.Src() == SourceOf(IOrder, c).value)
      ensures Intact() && b < |image.data.blocks| && |image.data.handles| == |image.data.blocks|
              && indexValue == image.data.handles[b].Encode() ==>
                ok && it != null && it.layout == image.data.blocks[b] && it.Formed()
    {
      hide Layout.Valid, Layout.Body, RawBlock, Image.IndexOk, Image.MetaOk, FilterOk, Layout.Contents, UserHash;
      ghost var clean := Intact() && b < |image.data.blocks| && |image.data.handles| == |image.data.blocks|
                         && indexValue == image.data.handles[b].Encode();
      if clean {
        StoredBlock(image.data, file, b);
        assert indexValue == image.data.handles[b].Encode() + [];
        HandleRoundTrip(image.data.handles[b], []);
      }
      var handle := DecodeHandle(indexValue);
      if handle == None {
        return null, false;
      }
      ghost var layout := if clean then image.data.blocks[b] else Layout([], [], []);
      var contents := ReadBlock(file, verifyChecksums, handle.value.0, if clean then layout.Contents() else []);
      if contents == None {
        return null, false;
      }
      it := NewIterator(IOrder, contents.value, layout);
      ok := it != null || NoRestarts(contents.value);
    }

    static lemma {:induction false} StoredBlock(data: Progress, file: Bytes, b: nat)
      requires data.Stored(file) && b < |data.blocks| && |file| < TWO32
      ensures |data.handles| == |data.blocks| && data.handles[b].Fits() && data.blocks[b].Valid()
      ensures |data.blocks[b].Contents()| < TWO32 && Stores(file, data.handles[b], data.blocks[b].Contents())
    {
      assert data.StoredAt(file, b);
    }

    /** Look for k in one block. */
    method GetInBlock(verifyChecksums: bool, indexValue: Bytes, k: IKey, ghost b: nat)
      returns (r: Option<Entry>, ok: bool)
      ensures (r, ok) == InBlock(verifyChecksums, indexValue, k)
      ensures Intact() && b < |image.data.blocks| && |image.data.handles| == |image.data.blocks|
              && indexValue == image.data.handles[b].Encode() ==>
                ok && r == FirstFrom(image.data.blocks[b].entries, k)
    {
      hide Layout.Valid, Layout.Body, Image.IsTable, Layout.Contents, UserHash, Sorted;
      hide Iter.Reached, Source.Sought, Search, SourceOf, NoRestarts, DecodeHandle;
      var blockIter, found := BlockReader(verifyChecksums, indexValue, b);
      if blockIter == null {
        if DataAt(verifyChecksums, indexValue).Some? {
          NothingToSearch(IOrder, DataAt(verifyChecksums, indexValue).value, k);
        }
        return None, found;
      }
      ghost var clean := Intact() && b < |image.data.blocks| && |image.data.handles| == |image.data.blocks|
                         && indexValue == image.data.handles[b].Encode();
      if clean {
        BlockSorted(image, file, b);
        IOrderTransitive();
      }
      blockIter.Seek(k);
      blockIter.Searched(k);
      if clean {
        blockIter.CurrentIff();
        FirstFromIsAt(image.data.blocks[b].entries, k, blockIter.place);
      }
      r := None;
      if blockIter.HasCurrent() {
        var value := blockIter.Value();
        r := Some(Entry(blockIter.key, value));
      }
      ok := !blockIter.corrupt;
    }

    static lemma {:induction false} BlockSorted(image: Image, file: Bytes, b: nat)
      requires image.IsTable(file) && b < |image.data.blocks|
      ensures Sorted(image.data.blocks[b].entries, IOrder)
    {
      hide Layout.Valid, Stores;
      assert Follows(EntriesOf(image.data.blocks), b);
    }

    /** Whether the filter says that the block does not have the user key of k. */
    method Excludes(indexValue: Bytes, k: IKey, ghost b: nat) returns (excluded: bool)
      requires Valid()
      ensures excluded <==> Excluded(indexValue, k)
      ensures Intact() && b < |image.data.blocks| && |image.data.handles| == |image.data.blocks|
              && indexValue == image.data.handles[b].Encode() && excluded ==>
                forall e <- image.data.blocks[b].entries :: |e.key| >= 8 ==> User(e.key) != User(k)
    {
      hide Layout.Valid, Layout.Body, RawBlock, Image.IndexOk, Image.MetaOk, Layout.Contents, UserHash, Indexed, Reader;
      excluded := false;
      if filter.Some? {
        var handle := DecodeHandle(indexValue);
        if handle.Some? {
          var may := filter.value.KeyMayMatch(policy.value.bloom, handle.value.0.offset, k);
          excluded := !may;
          if Intact() && b < |image.data.blocks| && |image.data.handles| == |image.data.blocks|
             && indexValue == image.data.handles[b].Encode() && excluded {
            StoredBlock(image.data, file, b);
            assert indexValue == image.data.handles[b].Encode() + [];
            HandleRoundTrip(image.data.handles[b], []);
            NotInFilter(k, b);
          }
        }
      }
    }

    lemma {:induction false} NotInFilter(k: IKey, b: nat)
      requires Valid() && Intact() && filter.Some? && b < |image.data.blocks|
               && |image.data.handles| == |image.data.blocks|
      requires !filter.value.MayMatch(policy.value.bloom, image.data.handles[b].offset, k)
      ensures forall e <- image.data.blocks[b].entries :: |e.key| >= 8 ==> User(e.key) != User(k)
    {
      hide Reader, RawBlock, Image.DataOk, Image.IndexOk, Image.MetaOk, FilterBlockReader.MayMatch, Footer;
      assert |image.filter| < TWO32;
      assert Admits(image.data, image.policy.value, image.filter, b);
      forall e <- image.data.blocks[b].entries | |e.key| >= 8 ensures User(e.key) != User(k) {
        if User(e.key) == User(k) {
          SameHashSameAnswer(filter.value, policy.value.bloom, k, image.policy.value.bloom, e.key,
                             image.data.handles[b].offset);
        }
      }
    }

    static lemma {:induction false} IndexFacts(image: Image, file: Bytes)
      requires image.IsTable(file) && |file| < TWO32
      ensures image.index.Valid() && |image.index.Contents()| < TWO32 && Sorted(image.index.entries, IOrder)
      ensures |image.data.seps| == |image.data.blocks| == |image.data.handles|
              && image.index.entries == image.data.IndexEntries()
      ensures Indexed(EntriesOf(image.data.blocks), image.data.seps)
    {
      hide Layout.Valid, Indexed, Image.MetaOk, FilterOk;
      var blocks, seps := EntriesOf(image.data.blocks), image.data.seps;
      forall i, j | 0 <= i < j < |image.index.entries|
        ensures IOrder(image.index.entries[i].key, image.index.entries[j].key)
      {
        IndexKeysIncrease(blocks, seps, i, j);
      }
    }

    /** The block to open, and the only one. */
    static lemma {:induction false} IndexPlace(image: Image, file: Bytes, k: IKey, p: nat)
      requires image.IsTable(file) && |file| < TWO32 && p <= |image.index.entries|
      requires forall i :: 0 <= i < p ==> IOrder(image.index.entries[i].key, k)
      requires p < |image.index.entries| ==> !IOrder(image.index.entries[p].key, k)
      ensures |image.data.seps| == |image.data.blocks| == |image.data.handles| == |image.index.entries|
      ensures p < |image.index.entries| ==> image.index.entries[p].value == image.data.handles[p].Encode()
      ensures Answers(Flat(EntriesOf(image.data.blocks)), k,
                      if p < |image.index.entries| then FirstFrom(image.data.blocks[p].entries, k) else None)
    {
      hide Answers, Indexed, Image.IsTable, Sorted;
      IndexFacts(image, file);
      forall b | 0 <= b < p ensures IOrder(image.data.seps[b], k) {
        assert image.index.entries[b].key == image.data.seps[b];
      }
      PointLookup(EntriesOf(image.data.blocks), image.data.seps, k, p);
    }

    static lemma {:induction false} BlockKeys(image: Image, file: Bytes, b: nat)
      requires image.IsTable(file) && b < |image.data.blocks|
      ensures forall e <- image.data.blocks[b].entries :: |e.key| >= 8
    {
      hide Layout.Valid, Stores, Sorted;
      assert Follows(EntriesOf(image.data.blocks), b);
    }

    /** Nothing may be answered when no entry of the block has the user key. */
    static lemma {:induction false} NoneAnswers(entries: seq<Entry>, k: IKey, block: seq<Entry>)
      requires Answers(entries, k, FirstFrom(block, k))
      requires forall i :: 0 <= i < |block| ==> |block[i].key| >= 8 && User(block[i].key) != User(k)
      ensures Answers(entries, k, None)
    {
      if FirstFrom(block, k).Some? {
        var i := MemberOfRun(block, k);
      }
    }

    /** The first entry at or after k, which InternalGet hands to its caller's function.  It may
        answer that there is none when that entry has another user key. */
    method InternalGet(k: IKey, verifyChecksums: bool) returns (r: Option<Entry>, ok: bool)
      requires Valid()
      ensures (r, ok) == Got(k, verifyChecksums)
      ensures Intact() ==> ok && Answers(Flat(EntriesOf(image.data.blocks)), k, r)
    {
      hide Layout.Valid, Layout.Body, Image.IsTable, FilterOk, Layout.Contents, UserHash, Sorted, Answers;
      hide Iter.Reached, Source.Sought, Search, SourceOf, NoRestarts, InBlock, Excluded;
      ghost var intact, blocks := Intact(), EntriesOf(image.data.blocks);
      if intact {
        IndexFacts(image, file);
        IOrderTransitive();
      }
      var indexIter := NewIterator(IOrder, indexBlock, image.index);
      if indexIter == null {
        NothingToSearch(IOrder, indexBlock, k);
        ok := NoRestarts(indexBlock);
        return None, ok;
      }
      indexIter.Seek(k);
      indexIter.Searched(k);
      ghost var p := indexIter.place;
      if intact {
        indexIter.CurrentIff();
        IndexPlace(image, file, k, p);
      }
      if !indexIter.HasCurrent() {
        ok := !indexIter.corrupt;
        return None, ok;
      }
      var handleValue := indexIter.Value();
      var excluded := Excludes(handleValue, k, p);
      if excluded {
        if intact {
          BlockKeys(image, file, p);
          NoneAnswers(Flat(blocks), k, image.data.blocks[p].entries);
        }
        ok := !indexIter.corrupt;
        return None, ok;
      }
      r, ok := GetInBlock(verifyChecksums, handleValue, k, p);
      ok := ok && !indexIter.corrupt;
    }
  }

  // ---------- opening a file ----------

  /** The metaindex handle and the index block that the footer leads to. */
  ghost function IndexIn(file: Bytes, paranoidChecks: bool): Option<(Handle, Bytes)> {
    if |file| < FOOTER then None else
    match DecodeFooter(file[|file| - FOOTER..])
    case None => None
    case Some(handles) =>
      match BlockAt(file, paranoidChecks, handles.1)
      case None => None
      case Some(c) => Some((handles.0, c))
  }

  ghost function FilterAt(file: Bytes, handleValue: Bytes, paranoidChecks: bool): Option<FilterBlockReader> {
    match DecodeHandle(handleValue)
    case None => None
    case Some(h) =>
      match BlockAt(file, paranoidChecks, h.0)
      case None => None
      case Some(c) => Some(Reader(c))
  }

  /** The filter block that the metaindex block has under the name of the policy. */
  ghost function FilterNamed(file: Bytes, name: Bytes, paranoidChecks: bool, metaHandle: Handle)
    : Option<FilterBlockReader>
  {
    match BlockAt(file, paranoidChecks, metaHandle)
    case None => None
    case Some(c) =>
      match Search(Less, c, FilterKey(name)).0
      case None => None
      case Some(e) => if e.key != FilterKey(name) then None else FilterAt(file, e.value, paranoidChecks)
  }

  /** Table::Open.  It fails exactly when there is no index block; a filter that cannot be read
      is done without. */
  method Open(file: Bytes, policy: Option<FilterPolicy>, paranoidChecks: bool, ghost image: Image)
    returns (table: Table?)
    ensures table != null ==>
            fresh(table) && table.Valid() && table.file == file && table.policy == policy && table.image == image
    ensures match IndexIn(file, paranoidChecks)
            case None => table == null
            case Some(index) =>
              && table != null && table.indexBlock == index.1
              && table.filter ==
                 if policy.Some? then FilterNamed(file, policy.value.name, paranoidChecks, index.0) else None
    ensures image.IsTable(file) && |file| < TWO32 ==>
              && table != null
              && (table.filter.Some? <==>
                  policy.Some? && image.policy.Some? && policy.value.name == image.policy.value.name)
  {
    hide Layout.Valid, Layout.Body, RawBlock, Layout.Contents, UserHash, Image.DataOk, Image.MetaOk, FilterOk, Footer,
         DecodeFooter, Reader;
    ghost var clean := image.IsTable(file) && |file| < TWO32;
    if clean {
      FooterFacts(image, file);
    }
    if |file| < FOOTER {
      return null;
    }
    var footer := DecodeFooter(file[|file| - FOOTER..]);
    if footer == None {
      return null;
    }
    var contents := ReadBlock(file, paranoidChecks, footer.value.1, if clean then image.index.Contents() else []);
    if contents == None {
      return null;
    }
    var filter: Option<FilterBlockReader> := None;
    if policy.Some? {
      filter := ReadMeta(file, policy.value.name, paranoidChecks, footer.value.0, image);
    }
    table := new Table(file, policy, contents.value, filter, image);
  }

  lemma {:induction false} FooterFacts(image: Image, file: Bytes)
    requires image.IsTable(file) && |file| < TWO32
    ensures |file| >= FOOTER && DecodeFooter(file[|file| - FOOTER..]) == Some((image.metaHandle, image.indexHandle))
  {
    FooterRoundTrip(image.metaHandle, image.indexHandle);
  }

  /** Find the filter block through the metaindex block. */
  method ReadMeta(file: Bytes, name: Bytes, paranoidChecks: bool, metaHandle: Handle, ghost image: Image)
    returns (filter: Option<FilterBlockReader>)
    ensures filter.Some? ==> filter.value.InBounds()
    ensures filter == FilterNamed(file, name, paranoidChecks, metaHandle)
    ensures image.IsTable(file) && |file| < TWO32 && metaHandle == image.metaHandle ==>
              && (filter.Some? <==> image.policy.Some? && image.policy.value.name == name)
              && (filter.Some? ==> filter.value == Reader(image.filter))
  {
    hide Layout.Valid, Layout.Body, RawBlock, Layout.Contents, Image.DataOk, Image.IndexOk, FilterOk, Footer, Reader,
         Less, Transitive, Iter.Reached, Source.Sought, Search, SourceOf, FilterAt, NoRestarts, BlockAt, FilterKey;
    ghost var clean := image.IsTable(file) && |file| < TWO32 && metaHandle == image.metaHandle;
    var contents := ReadBlock(file, paranoidChecks, metaHandle, if clean then image.meta.Contents() else []);
    if contents == None {
      return None;
    }
    var metaIter := NewIterator(Less, contents.value, image.meta);
    if metaIter == null {
      NothingToSearch(Less, contents.value, FilterKey(name));
      return None;
    }
    var key := FilterKey(name);
    metaIter.Seek(key);
    metaIter.Searched(key);
    if clean {
      LessIsTransitive();
      LessIrreflexive(key);
      metaIter.CurrentIff();
    }
    if clean && image.policy.Some? && image.policy.value.name == name {
      assert image.meta.entries[0].key == key;
      assert metaIter.place == 0;
      assert metaIter.HasCurrent() && metaIter.key == key;
    }
    if !metaIter.HasCurrent() || metaIter.key != key {
      return None;
    }
    var value := metaIter.Value();
    if clean {
      assert metaIter.place == 0 && image.policy.Some?;
      SameName(name, image.policy.value.name);
    }
    filter := ReadFilter(file, value, paranoidChecks, image);
  }

  lemma {:induction false} LessIsTransitive()
    ensures Transitive(Less)
  {
    forall a, b, c | Less(a, b) && Less(b, c) ensures Less(a, c) {
      LessTransitive(a, b, c);
    }
  }

  lemma {:induction false} SameName(a: Bytes, b: Bytes)
    ensures FilterKey(a) == FilterKey(b) ==> a == b
  {
    assert FilterKey(a)[7..] == a && FilterKey(b)[7..] == b;
  }

  method ReadFilter(file: Bytes, handleValue: Bytes, paranoidChecks: bool, ghost image: Image)
    returns (filter: Option<FilterBlockReader>)
    ensures filter.Some? ==> filter.value.InBounds()
    ensures filter == FilterAt(file, handleValue, paranoidChecks)
    ensures image.IsTable(file) && |file| < TWO32 && image.policy.Some?
            && handleValue == image.filterHandle.Encode() ==>
              filter == Some(Reader(image.filter))
  {
    hide RawBlock, Image.DataOk, Image.IndexOk, Image.MetaOk, Footer, Reader, Admits;
    ghost var clean := image.IsTable(file) && |file| < TWO32 && image.policy.Some?
      && handleValue == image.filterHandle.Encode();
    if clean {
      assert handleValue == image.filterHandle.Encode() + [];
      HandleRoundTrip(image.filterHandle, []);
    }
    var handle := DecodeHandle(handleValue);
    if handle == None {
      return None;
    }
    var block := ReadBlock(file, paranoidChecks, handle.value.0, image.filter);
    if block == None {
      return None;
    }
    filter := Some(Reader(block.value));
  }
}

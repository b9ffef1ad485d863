/** The contents of a table file: data blocks, index block, metaindex block with the filter
    block it names, and footer (table/table_builder.cc, table/format.cc). */
module TableImages {
  import opened Wrappers
  import opened Coding
  import opened Comparators
  import opened BlockFormat
  import opened TableFormat
  import opened TableIndexes
  import BloomFilters
  import FilterBlocks

  /** A filter policy with its name. */
  datatype FilterPolicy = FilterPolicy(name: Bytes, bloom: BloomFilters.Policy)

  /** InternalFilterPolicy: the filter of an internal key is that of its user key. */
  function InternalFilterPolicy(user: FilterPolicy): FilterPolicy {
    user.(bloom := user.bloom.(hash := (k: Bytes) => user.bloom.hash(if |k| >= 8 then User(k) else k)))
  }

  function FilterKey(name: Bytes): Bytes {
    // "filter."
    [0x66, 0x69, 0x6c, 0x74, 0x65, 0x72, 0x2e] + name
  }

  ghost function EntriesOf(blocks: seq<Layout>): seq<seq<Entry>> {
    seq(|blocks|, i requires 0 <= i < |blocks| => blocks[i].entries)
  }

  ghost function Keys(es: seq<Entry>): (r: seq<Bytes>)
    ensures |r| == |es|
  {
    seq(|es|, i requires 0 <= i < |es| => es[i].key)
  }

  /** Data blocks written, with their handles; index keys chosen; and the entries of the block
      under construction. */
  datatype Progress = Progress(blocks: seq<Layout>, handles: seq<Handle>, seps: seq<Bytes>, open: seq<Entry>) {
    ghost function Runs(): seq<seq<Entry>> {
      EntriesOf(blocks) + if open == [] then [] else [open]
    }

    ghost function Entries(): seq<Entry> {
      Flat(EntriesOf(blocks)) + open
    }

    predicate Pending() {
      open == [] && blocks != []
    }

    ghost predicate StoredAt(file: Bytes, b: nat)
      requires b < |blocks| == |handles|
    {
      blocks[b].Valid() && Stores(file, handles[b], blocks[b].Contents())
    }

    ghost predicate Stored(file: Bytes) {
      |blocks| == |handles| && Apart() && forall b :: 0 <= b < |blocks| ==> StoredAt(file, b)
    }

    /** The blocks stand one after another. */
    ghost predicate Apart() {
      forall b, c :: 0 <= b < c < |handles| ==> handles[b].offset + handles[b].size < handles[c].offset
    }

    ghost function IndexEntries(): seq<Entry>
      requires |seps| <= |handles|
    {
      seq(|seps|, b requires 0 <= b < |seps| => Entry(seps[b], handles[b].Encode()))
    }

    ghost predicate Ok(file: Bytes) {
      Stored(file) && Indexed(Runs(), seps) && |seps| == if Pending() then |blocks| - 1 else |blocks|
    }

    /** The keys of the blocks were given to the filter under the blocks' offsets. */
    ghost predicate Covered(added: set<(nat, Bytes)>, offset: nat)
      requires |blocks| == |handles|
    {
      && (forall b :: 0 <= b < |blocks| ==> BlockCovered(added, b))
      && (forall e <- open :: (offset, e.key) in added)
    }

    ghost predicate BlockCovered(added: set<(nat, Bytes)>, b: nat)
      requires b < |blocks| == |handles|
    {
      forall e <- blocks[b].entries :: (handles[b].offset, e.key) in added
    }

    /** The filter groups after n blocks: those closed, and the keys waiting for the next.  A block
        closes the ranges before the place of the next one. */
    ghost function Grouped(n: nat): (seq<seq<Bytes>>, seq<Bytes>)
      requires n <= |blocks| == |handles|
    {
      if n == 0 then ([], []) else
      var (groups, before) := Grouped(n - 1);
      var pending := before + Keys(blocks[n - 1].entries);
      var next := (handles[n - 1].offset + handles[n - 1].size + TRAILER) / FilterBlocks.BASE;
      (FilterBlocks.Closed(groups, pending, next), if next > |groups| then [] else pending)
    }

    /** What a filter block builder holds. */
    ghost predicate Feeds(groups: seq<seq<Bytes>>, pending: seq<Bytes>) {
      |blocks| == |handles| && Grouped(|blocks|).0 == groups && Grouped(|blocks|).1 + Keys(open) == pending
    }

    /** All keys of the blocks, by the range their block starts in. */
    ghost function AllGroups(): seq<seq<Bytes>>
      requires |blocks| == |handles|
    {
      var (groups, pending) := Grouped(|blocks|);
      groups + if pending == [] then [] else [pending]
    }

    lemma {:induction false} StoredPrefix(file: Bytes, more: Bytes)
      requires Stored(file)
      ensures Stored(file + more)
    {
      hide Stores, Layout.Valid;
      forall b | 0 <= b < |blocks| ensures StoredAt(file + more, b) {
        assert StoredAt(file, b);
        StoresPrefix(file, more, handles[b], blocks[b].Contents());
      }
    }
  }

  lemma {:induction false} FlatAppend(blocks: seq<seq<Entry>>, es: seq<Entry>)
    ensures Flat(blocks + [es]) == Flat(blocks) + es
  {
    if blocks == [] {
      assert [es] == [es] + [] && Flat([]) == [];
      assert blocks + [es] == [es];
      assert Flat([es]) == es + Flat([es][1..]);
    } else {
      assert (blocks + [es])[0] == blocks[0] && (blocks + [es])[1..] == blocks[1..] + [es];
      FlatAppend(blocks[1..], es);
    }
  }

  /** Adding an entry; before the first of a block goes the separator from the previous block. */
  lemma {:induction false} AddProgress(p: Progress, q: Progress, file: Bytes, sep: Bytes, e: Entry)
    requires p.Ok(file) && |e.key| >= 8
    requires p.Entries() != [] ==> LastKey(p) && ILess(LastOf(p), e.key)
    requires p.Pending() ==> LastKey(p) && |sep| >= 8 && Separator(sep, LastOf(p), e.key)
    requires q == Progress(p.blocks, p.handles, if p.Pending() then p.seps + [sep] else p.seps, p.open + [e])
    ensures q.Ok(file) && q.Entries() == p.Entries() + [e]
  {
    hide Separator, ILess, Layout.Valid, Stores, Indexed;
    var blocks := EntriesOf(p.blocks);
    forall b | 0 <= b < |q.blocks| ensures q.StoredAt(file, b) {
      assert p.StoredAt(file, b);
    }
    if p.Pending() {
      assert p.Runs() == blocks;
      LastBlock(p, file);
      NewBlock(blocks, p.seps, sep, e);
      assert q.open == [e] && q.Runs() == blocks + [[e]];
    } else if p.open == [] {
      assert blocks == [] && p.Runs() == [] && p.seps == [];
      assert q.open == [e] && q.Runs() == [[e]];
      FirstBlock(e);
    } else {
      OpenRun(p, file);
      LastBlockGrows(blocks, p.seps, p.open, e);
      assert q.Runs() == blocks + [p.open + [e]];
    }
    assert Flat(blocks) + (p.open + [e]) == Flat(blocks) + p.open + [e];
  }

  /** The last entry's key is an internal key. */
  ghost predicate LastKey(p: Progress) {
    p.Entries() != [] && |p.Entries()[|p.Entries()| - 1].key| >= 8
  }

  ghost function LastOf(p: Progress): IKey
    requires LastKey(p)
  {
    p.Entries()[|p.Entries()| - 1].key
  }

  lemma {:induction false} LastBlock(p: Progress, file: Bytes)
    requires p.Ok(file) && p.Pending()
    ensures var blocks := EntriesOf(p.blocks);
            p.Runs() == blocks && Follows(blocks, |blocks| - 1) && LastKey(p) && LastOf(p) == Last(blocks[|blocks| - 1])
  {
    var blocks := EntriesOf(p.blocks);
    assert p.Runs() == blocks;
    assert Follows(blocks, |blocks| - 1);
    var n := |blocks| - 1;
    assert blocks == blocks[..n] + [blocks[n]];
    FlatAppend(blocks[..n], blocks[n]);
  }

  lemma {:induction false} OpenRun(p: Progress, file: Bytes)
    requires p.Ok(file) && p.open != []
    ensures Run(p.open) && LastKey(p) && LastOf(p) == Last(p.open)
  {
    assert p.Runs()[|p.blocks|] == p.open;
    assert Follows(p.Runs(), |p.blocks|);
  }

  /** Writing out the open block. */
  lemma {:induction false} FlushProgress(p: Progress, q: Progress, file: Bytes, block: Layout, h: Handle)
    requires p.Ok(file) && p.open != [] && block.entries == p.open && block.Valid()
    requires h == Handle(|file|, |block.Contents()|)
    requires q == Progress(p.blocks + [block], p.handles + [h], p.seps, [])
    ensures q.Ok(file + RawBlock(block.Contents())) && q.Entries() == p.Entries() && q.Runs() == p.Runs()
    ensures |p.blocks| == |p.handles| && (LastKey(p) ==> LastKey(q) && LastOf(q) == LastOf(p))
  {
    hide RawBlock, Layout.Valid, Indexed, Layout.Contents;
    var file' := file + RawBlock(block.Contents());
    p.StoredPrefix(file, RawBlock(block.Contents()));
    forall b | 0 <= b < |q.blocks| ensures q.StoredAt(file', b) {
      if b < |p.blocks| {
        assert p.StoredAt(file', b);
      } else {
        assert file'[|file|..] == RawBlock(block.Contents());
      }
    }
    forall b | 0 <= b < |p.handles| ensures p.handles[b].offset + p.handles[b].size < |file| {
      assert p.StoredAt(file, b);
    }
    assert EntriesOf(q.blocks) == EntriesOf(p.blocks) + [p.open];
    assert q.Runs() == p.Runs();
    FlatAppend(EntriesOf(p.blocks), p.open);
  }

  lemma {:induction false} FlushCovers(p: Progress, q: Progress, added: set<(nat, Bytes)>, offset: nat, offset': nat,
                                       block: Layout, h: Handle)
    requires |p.blocks| == |p.handles| && p.Covered(added, offset) && block.entries == p.open && h.offset == offset
    requires q == Progress(p.blocks + [block], p.handles + [h], p.seps, [])
    ensures q.Covered(added, offset')
  {
    forall b | 0 <= b < |q.blocks| ensures q.BlockCovered(added, b) {
      if b < |p.blocks| {
        assert p.BlockCovered(added, b);
      }
    }
  }

  lemma {:induction false} GroupedSame(p: Progress, q: Progress, n: nat)
    requires n <= |p.blocks| == |p.handles| && n <= |q.blocks| == |q.handles|
    requires q.blocks[..n] == p.blocks[..n] && q.handles[..n] == p.handles[..n]
    ensures q.Grouped(n) == p.Grouped(n)
  {
    hide Keys;
    if n > 0 {
      assert q.blocks[..n - 1] == q.blocks[..n][..n - 1] && p.blocks[..n - 1] == p.blocks[..n][..n - 1];
      assert q.handles[..n - 1] == q.handles[..n][..n - 1] && p.handles[..n - 1] == p.handles[..n][..n - 1];
      assert q.blocks[..n][n - 1] == p.blocks[..n][n - 1] && q.handles[..n][n - 1] == p.handles[..n][n - 1];
      GroupedSame(p, q, n - 1);
    }
  }

  lemma {:induction false} AddFeeds(p: Progress, q: Progress, groups: seq<seq<Bytes>>, pending: seq<Bytes>, e: Entry)
    requires p.Feeds(groups, pending)
    requires q.blocks == p.blocks && q.handles == p.handles && q.open == p.open + [e]
    ensures q.Feeds(groups, pending + [e.key])
  {
    GroupedSame(p, q, |p.blocks|);
    assert Keys(p.open + [e]) == Keys(p.open) + [e.key];
  }

  lemma {:induction false} FlushFeeds(p: Progress, q: Progress, groups: seq<seq<Bytes>>, pending: seq<Bytes>,
                                      groups': seq<seq<Bytes>>, pending': seq<Bytes>, block: Layout, h: Handle)
    requires p.Feeds(groups, pending) && block.entries == p.open
    requires q == Progress(p.blocks + [block], p.handles + [h], p.seps, [])
    requires groups' == FilterBlocks.Closed(groups, pending, (h.offset + h.size + TRAILER) / FilterBlocks.BASE)
    requires pending' == if |groups'| == |groups| then pending else []
    ensures q.Feeds(groups', pending')
  {
    GroupedSame(p, q, |p.blocks|);
    assert Keys([]) == [] && pending' + [] == pending';
  }

  lemma {:induction false} AddCovers(p: Progress, q: Progress, added: set<(nat, Bytes)>, offset: nat, e: Entry)
    requires |p.blocks| == |p.handles| && p.Covered(added, offset)
    requires q.blocks == p.blocks && q.handles == p.handles && q.open == p.open + [e]
    ensures q.Covered(added + {(offset, e.key)}, offset)
  {
    forall b | 0 <= b < |q.blocks| ensures q.BlockCovered(added + {(offset, e.key)}, b) {
      assert p.BlockCovered(added, b);
    }
  }

  /** The last index key. */
  lemma {:induction false} FinalProgress(p: Progress, file: Bytes, sep: Bytes)
    requires p.Ok(file) && p.open == [] && p.blocks != []
    requires LastKey(p) && |sep| >= 8 && (sep == LastOf(p) || Less(User(LastOf(p)), User(sep)))
    ensures Indexed(EntriesOf(p.blocks), p.seps + [sep])
  {
    LastBlock(p, file);
    FinalKey(EntriesOf(p.blocks), p.seps, sep);
  }

  // ---------- the finished file ----------

  /** The filter admits every key of every block. */
  ghost predicate FilterOk(data: Progress, policy: FilterPolicy, filter: Bytes, h: Handle, file: Bytes) {
    && Stores(file, h, filter) && |data.blocks| == |data.handles|
    && FilterBlocks.IsFilterBlock(policy.bloom, data.AllGroups(), filter)
    && (|filter| < TWO32 ==> forall b :: 0 <= b < |data.blocks| ==> Admits(data, policy, filter, b))
  }

  ghost predicate Admits(data: Progress, policy: FilterPolicy, filter: Bytes, b: nat)
    requires b < |data.blocks| == |data.handles|
  {
    forall e <- data.blocks[b].entries ::
      FilterBlocks.Reader(filter).MayMatch(policy.bloom, data.handles[b].offset, e.key)
  }

  /** All of a table file; the filter, when there is one, with its policy. */
  datatype Image = Image(data: Progress, index: Layout, indexHandle: Handle, meta: Layout, metaHandle: Handle,
                         policy: Option<FilterPolicy>, filter: Bytes, filterHandle: Handle)
  {
    ghost predicate DataOk(file: Bytes) {
      && data.open == [] && data.Stored(file) && |data.seps| == |data.blocks|
      && Indexed(EntriesOf(data.blocks), data.seps)
    }

    ghost predicate IndexOk(file: Bytes) {
      && index.Valid() && Stores(file, indexHandle, index.Contents())
      && |data.seps| == |data.handles| && index.entries == data.IndexEntries()
    }

    ghost predicate MetaOk(file: Bytes) {
      && meta.Valid() && Stores(file, metaHandle, meta.Contents())
      && meta.entries == if policy.Some? then [Entry(FilterKey(policy.value.name), filterHandle.Encode())] else []
    }

    ghost predicate Body(file: Bytes) {
      && DataOk(file) && IndexOk(file) && MetaOk(file)
      && (policy.Some? ==> FilterOk(data, policy.value, filter, filterHandle, file))
    }

    /** A whole table file. */
    ghost predicate IsTable(file: Bytes) {
      && |file| >= FOOTER && file[|file| - FOOTER..] == Footer(metaHandle, indexHandle)
      && Body(file)
    }
  }

  /** Blocks appended one after another, and the footer. */
  lemma {:induction false} WholeTable(image: Image, written: Bytes, filters: Bytes, file: Bytes)
    requires image.DataOk(written) && image.index.Valid() && image.meta.Valid()
    requires |image.data.seps| == |image.data.handles| && image.index.entries == image.data.IndexEntries()
    requires image.meta.entries == if image.policy.Some? then [Entry(FilterKey(image.policy.value.name),
                                                                     image.filterHandle.Encode())] else []
    requires image.policy.Some? ==> FilterOk(image.data, image.policy.value, image.filter, image.filterHandle, filters)
    requires written <= filters
    requires image.metaHandle == Handle(|filters|, |image.meta.Contents()|)
    requires var m := filters + RawBlock(image.meta.Contents());
             image.indexHandle == Handle(|m|, |image.index.Contents()|)
               && |m + RawBlock(image.index.Contents())| < TWO64
             && file == m + RawBlock(image.index.Contents()) + Footer(image.metaHandle, image.indexHandle)
    ensures image.IsTable(file)
  {
    hide *;
    var m := filters + RawBlock(image.meta.Contents());
    var n := m + RawBlock(image.index.Contents());
    var footer := Footer(image.metaHandle, image.indexHandle);
    StoresAppended(filters, image.meta.Contents());
    StoresAppended(m, image.index.Contents());
    FooterRoundTrip(image.metaHandle, image.indexHandle);
    assert filters <= m <= n <= n + footer;
    Within(image, written, filters, m, n, n + footer);
    assert (n + footer)[|n + footer| - |footer|..] == footer;
    Whole(image, file);
  }

  lemma {:induction false} Whole(image: Image, file: Bytes)
    requires |file| >= FOOTER && file[|file| - FOOTER..] == Footer(image.metaHandle, image.indexHandle)
             && image.Body(file)
    ensures image.IsTable(file)
  {
  }

  /** The parts of a table stay what they are as the file grows. */
  lemma {:induction false} Within(image: Image, written: Bytes, filters: Bytes, m: Bytes, n: Bytes, file: Bytes)
    requires image.DataOk(written) && image.index.Valid() && image.meta.Valid()
    requires |image.data.seps| == |image.data.handles| && image.index.entries == image.data.IndexEntries()
    requires image.meta.entries == if image.policy.Some? then [Entry(FilterKey(image.policy.value.name),
                                                                     image.filterHandle.Encode())] else []
    requires image.policy.Some? ==> FilterOk(image.data, image.policy.value, image.filter, image.filterHandle, filters)
    requires Stores(m, image.metaHandle, image.meta.Contents()) && Stores(n, image.indexHandle, image.index.Contents())
    requires written <= filters <= m <= n <= file
    ensures image.Body(file)
  {
    hide Stores, Layout.Valid, Indexed, Admits, Layout.Contents, Progress.IndexEntries, Progress.Stored, FilterKey,
         EntriesOf;
    StoresWithin(m, file, image.metaHandle, image.meta.Contents());
    StoresWithin(n, file, image.indexHandle, image.index.Contents());
    if image.policy.Some? {
      StoresWithin(filters, file, image.filterHandle, image.filter);
    }
    assert file == written + file[|written|..];
    image.data.StoredPrefix(written, file[|written|..]);
  }

  lemma {:induction false} StoresWithin(part: Bytes, file: Bytes, h: Handle, contents: Bytes)
    requires part <= file && Stores(part, h, contents)
    ensures Stores(file, h, contents)
  {
    hide Stores;
    assert file == part + file[|part|..];
    StoresPrefix(part, file[|part|..], h, contents);
  }

  lemma {:induction false} StoresAppended(file: Bytes, contents: Bytes)
    ensures Stores(file + RawBlock(contents), Handle(|file|, |contents|), contents)
  {
    hide RawBlock;
    assert (file + RawBlock(contents))[|file|..] == RawBlock(contents);
  }

  lemma {:induction false} FilterAdmits(data: Progress, policy: FilterPolicy, filter: Bytes, h: Handle, file: Bytes,
                                        added: set<(nat, Bytes)>, offset: nat)
    requires Stores(file, h, filter) && |data.blocks| == |data.handles| && data.Covered(added, offset)
    requires FilterBlocks.IsFilterBlock(policy.bloom, data.AllGroups(), filter)
    requires |filter| < TWO32 ==> forall a <- added :: FilterBlocks.Reader(filter).MayMatch(policy.bloom, a.0, a.1)
    ensures FilterOk(data, policy, filter, h, file)
  {
    hide FilterBlocks.Reader, Stores;
    if |filter| < TWO32 {
      forall b | 0 <= b < |data.blocks| ensures Admits(data, policy, filter, b) {
        assert data.BlockCovered(added, b);
      }
    }
  }

  lemma {:induction false} FilterOfData(data: Progress, data': Progress, policy: FilterPolicy, filter: Bytes,
                                        h: Handle, file: Bytes)
    requires FilterOk(data, policy, filter, h, file) && data'.blocks == data.blocks && data'.handles == data.handles
    ensures FilterOk(data', policy, filter, h, file)
  {
    hide FilterBlocks.Reader, Stores;
    GroupedSame(data, data', |data.blocks|);
    if |filter| < TWO32 {
      forall b | 0 <= b < |data.blocks| ensures Admits(data', policy, filter, b) {
        assert Admits(data, policy, filter, b);
      }
    }
  }
}

/** Table::NewIterator (table/table.cc): the two-level iterator (table/two_level_iterator.cc) over
    the bytes of a table file.  On the file of a builder it is a cursor over the entries added. */
module TableIterators {
  import opened Wrappers
  import opened Coding
  import opened Comparators
  import opened BlockFormat
  import opened BlockScans
  import opened Blocks
  import opened TableFormat
  import opened TableIndexes
  import opened TableImages
  import opened Tables

  // ---------- places in the concatenation of the blocks ----------

  /** The number of entries before block b. */
  ghost function Start(blocks: seq<seq<Entry>>, b: nat): nat
    requires b <= |blocks|
  {
    |Flat(blocks[..b])|
  }

  lemma {:induction false} FlatConcat(a: seq<seq<Entry>>, b: seq<seq<Entry>>)
    ensures Flat(a + b) == Flat(a) + Flat(b)
  {
    if a == [] {
      assert a + b == b;
    } else {
      assert (a + b)[1..] == a[1..] + b;
      FlatConcat(a[1..], b);
    }
  }

  lemma {:induction false} StartNext(blocks: seq<seq<Entry>>, b: nat)
    requires b < |blocks|
    ensures Start(blocks, b + 1) == Start(blocks, b) + |blocks[b]| && Start(blocks, b + 1) <= |Flat(blocks)|
  {
    assert blocks[..b + 1] == blocks[..b] + [blocks[b]];
    FlatAppend(blocks[..b], blocks[b]);
    assert blocks == blocks[..b + 1] + blocks[b + 1..];
    FlatConcat(blocks[..b + 1], blocks[b + 1..]);
  }

  /** Entry i of block b in the concatenation. */
  lemma {:induction false} EntryAt(blocks: seq<seq<Entry>>, b: nat, i: nat)
    requires b < |blocks| && i < |blocks[b]|
    ensures Start(blocks, b) + i < |Flat(blocks)| && Flat(blocks)[Start(blocks, b) + i] == blocks[b][i]
  {
    assert blocks[..b + 1] == blocks[..b] + [blocks[b]];
    FlatAppend(blocks[..b], blocks[b]);
    assert blocks == blocks[..b + 1] + blocks[b + 1..];
    FlatConcat(blocks[..b + 1], blocks[b + 1..]);
  }

  lemma {:induction false} StartEnds(blocks: seq<seq<Entry>>)
    ensures Start(blocks, 0) == 0 && Start(blocks, |blocks|) == |Flat(blocks)|
  {
    assert blocks[..|blocks|] == blocks && blocks[..0] == [];
  }

  // ---------- the iterator ----------

  class TableIterator {
    const table: Table
    const verifyChecksums: bool
    const index: Iter
    var data: Iter?
    /** If data is set, the index value it was made from. */
    var dataBlockHandle: Bytes
    /** Its block. */
    ghost var b: nat

    ghost function Blocks(): seq<seq<Entry>> {
      EntriesOf(table.image.data.blocks)
    }

    ghost function List(): seq<Entry> {
      Flat(Blocks())
    }

    ghost predicate Fixed() {
      && table.Intact() && index.Formed() && index.less == IOrder && index.layout == table.image.index
      && |table.image.data.blocks| == |table.image.data.handles| == |index.layout.entries|
    }

    /** The data iterator reads block b. */
    ghost predicate OnBlock()
      reads this, data
    {
      data != null ==>
        && data != index && data.Valid() && data.less == IOrder && !data.corrupt
        && b < |table.image.data.blocks| == |table.image.data.handles|
        && data.layout == table.image.data.blocks[b] && data.Formed()
        && dataBlockHandle == table.image.data.handles[b].Encode()
    }

    ghost predicate Parts()
      reads this, index, data
    {
      Fixed() && index.Valid() && !index.corrupt && OnBlock()
    }

    /** The data iterator, if there is one, has an entry of the block the index stands on. */
    ghost predicate Valid()
      reads this, index, data
    {
      && Parts()
      && if data == null then index.place == |index.layout.entries| else index.place == b && data.HasCurrent()
    }

    /** The place in the list; its length when there is no current entry. */
    ghost function Position(): nat
      reads this, data
    {
      if data == null then |List()| else if b <= |Blocks()| then Start(Blocks(), b) + data.place else 0
    }

    predicate HasCurrent()
      reads this, data
    {
      data != null && data.HasCurrent()
    }

    lemma {:induction false} CurrentIff()
      requires Valid()
      ensures Position() <= |List()| && (HasCurrent() <==> Position() < |List()|)
    {
      hide Iter.Valid, Iter.Formed;
      if data != null {
        data.CurrentIff();
        EntryAt(Blocks(), b, data.place);
      }
    }

    method Current() returns (e: Entry)
      requires Valid() && HasCurrent()
      ensures Position() < |List()| && e == List()[Position()]
    {
      hide Iter.Took, Iter.Reached, Iter.ScannedTo, Iter.SteppedBack, Source.Sought, Iter.Advanced, Table.Valid;
      hide Table.Intact, Layout.Valid, Iter.Formed, Iter.Valid, Start, Flat;
      data.CurrentIff();
      EntryAt(Blocks(), b, data.place);
      var value := data.Value();
      e := Entry(data.key, value);
    }

    constructor (table: Table, verifyChecksums: bool, index: Iter)
      requires table.Intact() && index.Valid() && index.Formed() && index.less == IOrder && !index.corrupt
      requires index.layout == table.image.index && index.place == |index.layout.entries|
      requires |table.image.data.blocks| == |table.image.data.handles| == |index.layout.entries|
      ensures Valid() && !HasCurrent() && this.table == table && this.index == index && data == null
    {
      this.table, this.verifyChecksums, this.index := table, verifyChecksums, index;
      data, dataBlockHandle, b := null, [], 0;
    }

    lemma {:induction false} IndexEntryAt(p: nat)
      requires Fixed() && p < |index.layout.entries|
      ensures index.layout.entries[p].value == table.image.data.handles[p].Encode()
    {
      hide Layout.Valid, Indexed, Image.MetaOk, FilterOk, Handle.Encode;
    }

    /** Different blocks have different handles. */
    lemma {:induction false} HandlesDiffer(p: nat, q: nat)
      requires Fixed() && p < |table.image.data.handles| && q < |table.image.data.handles|
      requires table.image.data.handles[p].Encode() == table.image.data.handles[q].Encode()
      ensures p == q
    {
      hide Layout.Valid, Indexed, Image.MetaOk, FilterOk, Handle.Encode, Image.IndexOk;
      var hs := table.image.data.handles;
      var lo, hi := if p < q then p else q, if p < q then q else p;
      assert lo < hi ==> hs[lo].offset + hs[lo].size < hs[hi].offset;
      Table.StoredBlock(table.image.data, table.file, p);
      Table.StoredBlock(table.image.data, table.file, q);
      HandleRoundTrip(hs[p], []);
      HandleRoundTrip(hs[q], []);
    }

    lemma {:induction false} BlocksNonempty(p: nat)
      requires Fixed() && p < |Blocks()|
      ensures Blocks()[p] != []
    {
      hide Layout.Valid, Stores;
      assert Follows(Blocks(), p);
    }

    /** Open the block that the index names, unless it is open. */
    method InitDataBlock()
      requires Parts()
      modifies this`data, this`dataBlockHandle, this`b
      ensures Parts() && (data == null || data == old(data) || fresh(data))
      ensures if index.place < |index.layout.entries| then data != null && b == index.place else data == null
    {
      hide Table.Intact, Layout.Valid, Layout.Contents, Iter.Valid, Iter.Formed;
      index.CurrentIff();
      if !index.HasCurrent() {
        data := null;
      } else {
        var handle := index.Value();
        IndexEntryAt(index.place);
        if data != null && handle == dataBlockHandle {
          HandlesDiffer(b, index.place);
        } else {
          var it, ok := table.BlockReader(verifyChecksums, handle, index.place);
          dataBlockHandle, data, b := handle, it, index.place;
        }
      }
    }

    /** Move to the first entry from here on, past blocks that are used up. */
    method SkipEmptyDataBlocksForward(ghost goal: nat)
      requires Parts() && Position() == goal
      requires if data == null then index.place == |index.layout.entries| else index.place == b
      modifies this`data, this`dataBlockHandle, this`b, index, data
      ensures Valid() && Position() == goal && (data == null || data == old(data) || fresh(data))
    {
      hide Iter.Took, Iter.Reached, Iter.ScannedTo, Iter.SteppedBack, Source.Sought, Iter.Advanced, Table.Valid;
      hide Table.Intact, Layout.Valid, Iter.Formed, Iter.Valid, Start, Flat;
      while data == null || !data.HasCurrent()
        invariant Parts() && Position() == goal && (data == null || data == old(data) || fresh(data))
        invariant if data == null then index.place == |index.layout.entries| else index.place == b
        decreases |index.layout.entries| - index.place
      {
        index.CurrentIff();
        if data != null {
          data.CurrentIff();
          StartNext(Blocks(), b);
          StartEnds(Blocks());
        }
        if !index.HasCurrent() {
          data := null;
          return;
        }
        index.Next();
        InitDataBlock();
        if data != null {
          data.SeekToFirst();
        }
      }
    }

    method SeekToFirst()
      requires Valid()
      modifies this`data, this`dataBlockHandle, this`b, index, data
      ensures Valid() && Position() == 0 && (data == null || data == old(data) || fresh(data))
    {
      hide Iter.Took, Iter.Reached, Iter.ScannedTo, Iter.SteppedBack, Source.Sought, Iter.Advanced, Table.Valid;
      hide Table.Intact, Layout.Valid, Iter.Formed;
      index.SeekToFirst();
      InitDataBlock();
      StartEnds(Blocks());
      if data != null {
        data.SeekToFirst();
      }
      SkipEmptyDataBlocksForward(0);
    }

    /** The place before block b, or none. */
    ghost function BeforeBlock(c: nat): nat
      requires c <= |Blocks()|
    {
      if Start(Blocks(), c) == 0 then |List()| else Start(Blocks(), c) - 1
    }

    /** Move back to the last entry before the current block, unless the data iterator has one. */
    method SkipEmptyDataBlocksBackward(ghost goal: nat)
      requires Parts()
      requires if data == null then index.place == |index.layout.entries| && goal == |List()|
               else index.place == b && goal == if data.HasCurrent() then Position() else BeforeBlock(b)
      modifies this`data, this`dataBlockHandle, this`b, index, data
      ensures Valid() && Position() == goal && (data == null || data == old(data) || fresh(data))
    {
      hide Iter.Took, Iter.Reached, Iter.ScannedTo, Iter.SteppedBack, Source.Sought, Iter.Advanced, Table.Valid;
      hide Table.Intact, Layout.Valid, Iter.Formed, Iter.Valid, Start, Flat, BeforeBlock;
      while data == null || !data.HasCurrent()
        invariant Parts() && (data == null || data == old(data) || fresh(data))
        invariant if data == null then index.place == |index.layout.entries| && goal == |List()|
                  else index.place == b && goal == if data.HasCurrent() then Position() else BeforeBlock(b)
        decreases data != null, index.place
      {
        index.CurrentIff();
        if !index.HasCurrent() {
          data := null;
          return;
        }
        ToPreviousBlock(goal);
      }
    }

    /** To the last entry of the block before, or off the front. */
    method ToPreviousBlock(ghost goal: nat)
      requires Parts() && data != null && !data.HasCurrent()
      requires index.HasCurrent() && index.place == b && goal == BeforeBlock(b)
      modifies this`data, this`dataBlockHandle, this`b, index, data
      ensures Parts() && (data == null || data == old(data) || fresh(data))
      ensures if data == null then index.place == |index.layout.entries| && goal == |List()|
              else index.place == b < old(b) && data.HasCurrent() && goal == Position()
    {
      hide Iter.Took, Iter.Reached, Iter.ScannedTo, Iter.SteppedBack, Source.Sought, Iter.Advanced, Table.Valid;
      hide Table.Intact, Layout.Valid, Iter.Formed, Iter.Valid, Start, Flat, BeforeBlock;
      hide Iter.Safe, Iter.At;
      BackOver(b);
      index.CurrentIff();
      index.Prev();
      InitDataBlock();
      if data != null {
        BlocksNonempty(b);
        data.SeekToLast();
        data.CurrentIff();
      }
    }

    /** Before block c is the last entry of the block before it. */
    lemma {:induction false} BackOver(c: nat)
      requires Fixed() && c < |Blocks()|
      ensures if c == 0 then BeforeBlock(c) == |List()|
              else |Blocks()[c - 1]| > 0 && BeforeBlock(c) == Start(Blocks(), c - 1) + (|Blocks()[c - 1]| - 1)
    {
      hide Layout.Valid, Table.Intact, Flat;
      StartEnds(Blocks());
      if c > 0 {
        StartNext(Blocks(), c - 1);
        BlocksNonempty(c - 1);
      }
    }

    method SeekToLast()
      requires Valid()
      modifies this`data, this`dataBlockHandle, this`b, index, data
      ensures Valid() && (data == null || data == old(data) || fresh(data))
      ensures Position() == if List() == [] then 0 else |List()| - 1
    {
      hide Iter.Took, Iter.Reached, Iter.ScannedTo, Iter.SteppedBack, Source.Sought, Iter.Advanced, Table.Valid;
      hide Table.Intact, Layout.Valid, Iter.Formed, Iter.Valid, Start, Flat, BeforeBlock;
      index.SeekToLast();
      InitDataBlock();
      StartEnds(Blocks());
      if data != null {
        data.SeekToLast();
        data.CurrentIff();
        BlocksNonempty(b);
        StartNext(Blocks(), b);
      }
      SkipEmptyDataBlocksBackward(if data == null then |List()| else Position());
    }

    method Prev()
      requires Valid() && HasCurrent()
      modifies this`data, this`dataBlockHandle, this`b, index, data
      ensures Valid() && (data == null || data == old(data) || fresh(data))
      ensures Position() == if old(Position()) == 0 then |List()| else old(Position()) - 1
    {
      hide Iter.Took, Iter.Reached, Iter.ScannedTo, Iter.SteppedBack, Source.Sought, Iter.Advanced, Table.Valid;
      hide Table.Intact, Layout.Valid, Iter.Formed, Iter.Valid, Start, Flat;
      data.CurrentIff();
      data.Prev();
      data.CurrentIff();
      SkipEmptyDataBlocksBackward(if data.HasCurrent() then Position() else BeforeBlock(b));
    }

    /** The first entry at or after the target. */
    method Seek(target: IKey)
      requires Valid()
      modifies this`data, this`dataBlockHandle, this`b, index, data
      ensures Valid() && (data == null || data == old(data) || fresh(data)) && Position() <= |List()|
      ensures FirstFrom(List(), target) == if Position() < |List()| then Some(List()[Position()]) else None
    {
      hide Iter.Took, Iter.Reached, Iter.ScannedTo, Iter.SteppedBack, Source.Sought, Iter.Advanced, Table.Valid;
      hide Table.Intact, Layout.Valid, Iter.Formed, Iter.Valid, Iter.Splits, Start, Flat, FirstFrom, Sorted, Indexed,
           Transitive;
      IOrderTransitive();
      SortedParts();
      index.Seek(target);
      ghost var p := index.place;
      IndexSplit(target, p);
      InitDataBlock();
      ghost var q := 0;
      if data != null {
        data.Seek(target);
        q := data.place;
        BlockSplit(data, target, q);
      }
      SeekPlace(target, p, q);
      SkipEmptyDataBlocksForward(Position());
    }

    lemma {:induction false} SortedParts()
      requires Fixed()
      ensures Sorted(index.layout.entries, IOrder)
      ensures forall c :: 0 <= c < |table.image.data.blocks| ==> Sorted(table.image.data.blocks[c].entries, IOrder)
    {
      hide Image.IsTable, Sorted;
      Table.IndexFacts(table.image, table.file);
      forall c | 0 <= c < |table.image.data.blocks| ensures Sorted(table.image.data.blocks[c].entries, IOrder) {
        Table.BlockSorted(table.image, table.file, c);
      }
    }

    lemma {:induction false} IndexSplit(k: IKey, p: nat)
      requires Fixed() && index.Splits(k, p)
      ensures p <= |Blocks()| && Indexed(Blocks(), table.image.data.seps) && |table.image.data.seps| == |Blocks()|
      ensures forall c :: 0 <= c < p ==> IOrder(table.image.data.seps[c], k)
      ensures p < |Blocks()| ==> !IOrder(table.image.data.seps[p], k)
    {
      hide Image.IsTable, Sorted, Indexed, IOrder, Iter.Formed, Handle.Encode;
      Table.IndexFacts(table.image, table.file);
      forall c | 0 <= c < p ensures IOrder(table.image.data.seps[c], k) {
        assert index.layout.entries[c].key == table.image.data.seps[c];
      }
      if p < |Blocks()| {
        assert index.layout.entries[p].key == table.image.data.seps[p];
      }
    }

    lemma {:induction false} BlockSplit(it: Iter, k: IKey, q: nat)
      requires it.Formed() && it.less == IOrder && it.Splits(k, q)
      ensures var es := it.layout.entries;
              q <= |es| && (forall i :: 0 <= i < q ==> IOrder(es[i].key, k)) && (q < |es| ==> !IOrder(es[q].key, k))
    {
    }

    /** The place a search in the index and in one block leads to. */
    lemma {:induction false} SeekPlace(k: IKey, p: nat, q: nat)
      requires Fixed() && p <= |Blocks()| && Indexed(Blocks(), table.image.data.seps)
               && |table.image.data.seps| == |Blocks()|
      requires forall c :: 0 <= c < p ==> IOrder(table.image.data.seps[c], k)
      requires p < |Blocks()| ==> !IOrder(table.image.data.seps[p], k)
      requires p < |Blocks()| ==> q <= |Blocks()[p]| && forall i :: 0 <= i < q ==> IOrder(Blocks()[p][i].key, k)
      requires p < |Blocks()| && q < |Blocks()[p]| ==> !IOrder(Blocks()[p][q].key, k)
      ensures var n := if p < |Blocks()| then Start(Blocks(), p) + q else |List()|;
              n <= |List()| && FirstFrom(List(), k) == if n < |List()| then Some(List()[n]) else None
    {
      hide Table.Intact, Layout.Valid, Indexed, Sorted;
      var blocks, seps := Blocks(), table.image.data.seps;
      forall c | 0 <= c < p ensures FirstFrom(blocks[c], k) == None {
        BlockIsBefore(blocks, seps, k, c);
      }
      SkipBlocks(blocks, k, p);
      StartEnds(blocks);
      if p < |blocks| {
        var rest := blocks[p..];
        assert rest[0] == blocks[p] && rest[1..] == blocks[p + 1..];
        FirstFromAppend(blocks[p], Flat(rest[1..]), k);
        FirstFromIsAt(blocks[p], k, q);
        StartNext(blocks, p);
        if q < |blocks[p]| {
          EntryAt(blocks, p, q);
        } else if p + 1 < |blocks| {
          BlocksNonempty(p + 1);
          NextBlockFirst(k, p);
          EntryAt(blocks, p + 1, 0);
          assert rest[1..][0] == blocks[p + 1];
          FirstFromAppend(blocks[p + 1], Flat(rest[1..][1..]), k);
        }
      }
    }

    /** If the index key of a block is not before k, neither is the first key of the next block. */
    lemma {:induction false} NextBlockFirst(k: IKey, p: nat)
      requires p + 1 < |Blocks()| && Indexed(Blocks(), table.image.data.seps) && |table.image.data.seps| == |Blocks()|
      requires Blocks()[p + 1] != [] && !IOrder(table.image.data.seps[p], k)
      ensures FirstFrom(Blocks()[p + 1], k) == Some(Blocks()[p + 1][0])
    {
      var blocks, seps := Blocks(), table.image.data.seps;
      IndexKeyBounds(blocks, seps, p, p + 1, 0);
      if IOrder(blocks[p + 1][0].key, k) {
        ILessTransitive(seps[p], blocks[p + 1][0].key, k);
      }
    }

    method Next()
      requires Valid() && HasCurrent()
      modifies this`data, this`dataBlockHandle, this`b, index, data
      ensures Valid() && Position() == old(Position()) + 1 && (data == null || data == old(data) || fresh(data))
    {
      hide Iter.Took, Iter.Reached, Iter.ScannedTo, Iter.SteppedBack, Source.Sought, Iter.Advanced, Table.Valid;
      hide Table.Intact, Layout.Valid, Iter.Formed;
      data.CurrentIff();
      data.Next();
      SkipEmptyDataBlocksForward(Position());
    }
  }

  /** Table::NewIterator. */
  method NewTableIterator(table: Table, verifyChecksums: bool) returns (it: TableIterator)
    requires table.Valid() && table.Intact()
    ensures fresh(it) && fresh(it.index) && it.Valid() && !it.HasCurrent() && it.table == table && it.data == null
  {
    hide Layout.Valid, Layout.Contents, Sorted, Indexed, Image.IsTable, Handle.Encode;
    Table.IndexFacts(table.image, table.file);
    var index := NewIterator(IOrder, table.indexBlock, table.image.index);
    it := new TableIterator(table, verifyChecksums, index);
  }
}

/** TwoLevelIterator (table/two_level_iterator.cc): an index of blocks walked as the
    concatenation of the blocks, empty blocks included. */
module TwoLevelIterators {
  import opened InternalKeys
  import opened Cursors

  /** Opens the block behind an index value. */
  type BlockFunction = Bytes -> seq<Entry>

  function Block(index: seq<Entry>, open: BlockFunction, i: nat): seq<Entry>
    requires i < |index|
  {
    open(index[i].value)
  }

  /** The entries of the first n blocks. */
  function Concat(index: seq<Entry>, open: BlockFunction, n: nat): seq<Entry>
    requires n <= |index|
  {
    if n == 0 then [] else Concat(index, open, n - 1) + Block(index, open, n - 1)
  }

  /** Index keys separate the blocks: none is before a key of its block, and each is
      before every key of the next. */
  ghost predicate Separates(index: seq<Entry>, open: BlockFunction) {
    && Sorted(index)
    && (forall i, e :: 0 <= i < |index| && e in Block(index, open, i) ==> !Before(index[i].key, e.key))
    && (forall i, e :: 0 < i < |index| && e in Block(index, open, i) ==> Before(index[i - 1].key, e.key))
    && (forall i :: 0 <= i < |index| ==> Sorted(Block(index, open, i)))
  }

  lemma {:induction false} ConcatPrefix(index: seq<Entry>, open: BlockFunction, m: nat, n: nat)
    requires m <= n <= |index|
    ensures Concat(index, open, m) <= Concat(index, open, n)
  {
    if m < n {
      ConcatPrefix(index, open, m, n - 1);
    }
  }

  /** Entry j of block i, seen in the concatenation. */
  lemma {:induction false} ConcatAt(index: seq<Entry>, open: BlockFunction, i: nat, j: nat)
    requires i < |index| && j < |Block(index, open, i)|
    ensures var p := |Concat(index, open, i)| + j;
            p < |Concat(index, open, |index|)| && Concat(index, open, |index|)[p] == Block(index, open, i)[j]
  {
    ConcatPrefix(index, open, i + 1, |index|);
  }

  lemma {:induction false} ConcatMember(index: seq<Entry>, open: BlockFunction, n: nat, p: nat)
    requires n <= |index| && p < |Concat(index, open, n)|
    ensures exists i, j :: 0 <= i < n && 0 <= j < |Block(index, open, i)| &&
                           p == |Concat(index, open, i)| + j && Concat(index, open, n)[p] == Block(index, open, i)[j]
  {
    if p < |Concat(index, open, n - 1)| {
      ConcatMember(index, open, n - 1, p);
    } else {
      var j := p - |Concat(index, open, n - 1)|;
      assert Concat(index, open, n)[p] == Block(index, open, n - 1)[j];
    }
  }

  /** The place of a sought key in the concatenation is its place in the block its index key picks. */
  lemma {:induction false} SeekInBlock(index: seq<Entry>, open: BlockFunction, target: InternalKey)
    requires Separates(index, open)
    ensures var i, all := SeekIndex(index, target), Concat(index, open, |index|);
            SeekIndex(all, target) ==
              if i == |index| then |all|
              else |Concat(index, open, i)| + SeekIndex(Block(index, open, i), target)
  {
    var i, all := SeekIndex(index, target), Concat(index, open, |index|);
    if i < |index| {
      ConcatPrefix(index, open, i + 1, |index|);
    }
    forall p | 0 <= p < |all| ensures p < Place(index, open, target) <==> Before(all[p].key, target) {
      BeforePlace(index, open, target, p);
    }
    SeekIsWhereOrderTurns(all, target, Place(index, open, target));
  }

  function Place(index: seq<Entry>, open: BlockFunction, target: InternalKey): nat {
    var i := SeekIndex(index, target);
    if i == |index| then |Concat(index, open, i)|
    else |Concat(index, open, i)| + SeekIndex(Block(index, open, i), target)
  }

  lemma {:induction false} BeforePlace(index: seq<Entry>, open: BlockFunction, target: InternalKey, p: nat)
    requires Separates(index, open) && p < |Concat(index, open, |index|)|
    ensures p < Place(index, open, target) <==> Before(Concat(index, open, |index|)[p].key, target)
  {
    hide Separates, SeekIndex, Before;
    ConcatMember(index, open, |index|, p);
    var b, j :| 0 <= b < |index| && 0 <= j < |Block(index, open, b)| && p == |Concat(index, open, b)| + j &&
                Concat(index, open, |index|)[p] == Block(index, open, b)[j];
    EntryInBlock(index, open, target, b, j);
    var i := SeekIndex(index, target);
    if b < i {
      ConcatPrefix(index, open, b + 1, i);
    } else if b > i {
      ConcatPrefix(index, open, i + 1, b);
    }
  }

  lemma {:induction false} SeekIsWhereOrderTurns(es: seq<Entry>, target: InternalKey, n: nat)
    requires n <= |es| && forall p :: 0 <= p < |es| ==> (p < n <==> Before(es[p].key, target))
    ensures SeekIndex(es, target) == n
  {
    var s := SeekIndex(es, target);
    assert s < |es| ==> !Before(es[s].key, target);
    assert n < |es| ==> !Before(es[n].key, target);
  }

  /** An entry is before the target just when its block is before the picked one, or it is before
      the target in that block. */
  lemma {:induction false} EntryInBlock(index: seq<Entry>, open: BlockFunction, target: InternalKey, b: nat, j: nat)
    requires Separates(index, open) && b < |index| && j < |Block(index, open, b)|
    ensures var i := SeekIndex(index, target);
            Before(Block(index, open, b)[j].key, target) <==>
            b < i || (b == i && j < SeekIndex(Block(index, open, b), target))
  {
    var i, block := SeekIndex(index, target), Block(index, open, b);
    var e := block[j];
    assert e in block;
    if b < i {
      assert Before(index[b].key, target);
    } else if b == i {
      var n := SeekIndex(block, target);
      if j >= n {
        InOrder(block, n, j);
      }
    } else {
      InOrder(index, i, b - 1);
    }
  }

  class TwoLevelIterator {
    const index: Cursor
    const open: BlockFunction
    var data: Cursor?
    /** The index value the data iterator was made from. */
    var dataBlockHandle: Bytes

    ghost function Frame(): set<object>
      reads this
    {
      {this, index} + if data == null then {} else {data}
    }

    /** The list this iterator walks. */
    ghost function List(): seq<Entry> {
      Concat(index.entries, open, |index.entries|)
    }

    ghost function Offset(): nat
      requires index.Ok()
      reads index
    {
      |Concat(index.entries, open, index.pos)|
    }

    /** The data iterator, if there is one, walks the block at the index position. */
    ghost predicate InStep()
      reads Frame()
    {
      && index.Ok()
      && (data == null ==> !index.Valid())
      && (data != null ==>
            && data != index && data.Ok() && index.Valid()
            && dataBlockHandle == index.Value() && data.entries == open(dataBlockHandle))
    }

    ghost predicate Valid()
      reads Frame()
    {
      InStep() && (data != null ==> data.Valid())
    }

    predicate Standing()
      reads Frame()
    {
      data != null && data.Valid()
    }

    ghost function Position(): nat
      requires Valid()
      reads Frame()
    {
      if data == null then |List()| else Offset() + data.pos
    }

    constructor (index: Cursor, open: BlockFunction)
      requires !index.Valid() && index.Ok()
      ensures Valid() && this.index == index && this.open == open && data == null
    {
      this.index := index;
      this.open := open;
      data := null;
      dataBlockHandle := [];
    }

    method Key() returns (k: InternalKey)
      requires Valid() && Standing()
      ensures Position() < |List()| && k == List()[Position()].key
    {
      ConcatAt(index.entries, open, index.pos, data.pos);
      k := data.Key();
    }

    method Value() returns (v: Bytes)
      requires Valid() && Standing()
      ensures Position() < |List()| && v == List()[Position()].value
    {
      ConcatAt(index.entries, open, index.pos, data.pos);
      v := data.Value();
    }

    /** Make the data iterator fit the index position. */
    method InitDataBlock()
      requires index.Ok() && (data != null ==> data != index && data.Ok() && data.entries == open(dataBlockHandle))
      modifies this
      ensures InStep() && index.pos == old(index.pos)
      ensures data == null || data == old(data) || fresh(data)
    {
      if !index.Valid() {
        data := null;
      } else {
        var handle := index.Value();
        if data == null || handle != dataBlockHandle {
          dataBlockHandle := handle;
          data := new Cursor(open(handle));
        }
      }
    }

    /** Where a forward skip arrives. */
    ghost function Ahead(): nat
      requires InStep()
      reads Frame()
    {
      if data == null then |List()| else Offset() + data.pos
    }

    /** The number of entries before a backward skip. */
    ghost function Behind(): nat
      requires InStep()
      reads Frame()
    {
      if data == null then 0 else if data.Valid() then Offset() + data.pos + 1 else Offset()
    }

    method SkipEmptyDataBlocksForward()
      requires InStep()
      modifies Frame()
      ensures Valid() && Position() == old(Ahead()) && fresh(Frame() - old(Frame()))
    {
      while data == null || !data.Valid()
        invariant InStep() && Ahead() == old(Ahead()) && fresh(Frame() - old(Frame()))
        decreases |index.entries| - index.pos
      {
        if !index.Valid() {
          data := null;
          return;
        }
        index.Next();
        InitDataBlock();
        if data != null {
          data.SeekToFirst();
        }
      }
    }

    method SkipEmptyDataBlocksBackward()
      requires InStep()
      modifies Frame()
      ensures Valid() && Position() == Preceding(old(Behind()), |List()|) && fresh(Frame() - old(Frame()))
    {
      while data == null || !data.Valid()
        invariant InStep() && Behind() == old(Behind()) && fresh(Frame() - old(Frame()))
        decreases if index.Valid() then index.pos + 1 else 0
      {
        if !index.Valid() {
          data := null;
          return;
        }
        index.Prev();
        InitDataBlock();
        if data != null {
          data.SeekToLast();
        }
      }
    }

    method Next()
      requires Valid() && Standing()
      modifies Frame()
      ensures Valid() && Position() == old(Position()) + 1 && fresh(Frame() - old(Frame()))
    {
      data.Next();
      SkipEmptyDataBlocksForward();
    }

    method Prev()
      requires Valid() && Standing()
      modifies Frame()
      ensures Valid() && Position() == Preceding(old(Position()), |List()|) && fresh(Frame() - old(Frame()))
    {
      data.Prev();
      SkipEmptyDataBlocksBackward();
    }

    method Seek(target: InternalKey)
      requires Valid() && Separates(index.entries, open)
      modifies Frame()
      ensures Valid() && Position() == SeekIndex(List(), target) && fresh(Frame() - old(Frame()))
    {
      hide Separates, SeekIndex, Concat;
      index.Seek(target);
      InitDataBlock();
      if data != null {
        data.Seek(target);
      }
      SeekInBlock(index.entries, open, target);
      SkipEmptyDataBlocksForward();
    }

    method SeekToFirst()
      requires Valid()
      modifies Frame()
      ensures Valid() && Position() == 0 && fresh(Frame() - old(Frame()))
    {
      index.SeekToFirst();
      InitDataBlock();
      if data != null {
        data.SeekToFirst();
      }
      SkipEmptyDataBlocksForward();
    }

    method SeekToLast()
      requires Valid()
      modifies Frame()
      ensures Valid() && Position() == LastOf(|List()|) && fresh(Frame() - old(Frame()))
    {
      index.SeekToLast();
      InitDataBlock();
      if data != null {
        data.SeekToLast();
      }
      SkipEmptyDataBlocksBackward();
    }
  }
}

/** Reading a block (table/block.cc): entries are decoded one after another from a restart
    point.  On the bytes that a block builder produced, the iterator is a cursor over the
    entries that were added; on any other bytes it stays within the block. */
module Blocks {
  import opened Wrappers
  import opened Coding
  import opened BlockFormat
  import opened BlockScans

  /** DecodeEntry: one byte for each length when they all fit, else three varints. */
  method DecodeEntry(data: Bytes, p: nat, limit: nat, ghost shared: nat, ghost e: Entry) returns (r: Option<Decoded>)
    requires limit <= |data|
    ensures r == DecodedAt(data, p, limit)
    ensures Holds(data, p, limit, shared, e) ==>
              && r.Some? && r.value.shared == shared
              && r.value.nonShared == |e.key| - shared && r.value.valueLength == |e.value|
              && var q := r.value.key;
                 && data[q..q + r.value.nonShared] == e.key[shared..]
                 && data[q + r.value.nonShared..q + r.value.nonShared + r.value.valueLength] == e.value
                 && q + r.value.nonShared + r.value.valueLength == p + |Encode(shared, e)|
  {
    hide ParseHeader, Encode, Holds;
    if Holds(data, p, limit, shared, e) {
      HeaderAt(data, p, limit, shared, e);
    }
    if p <= limit {
      ShortHeader(data[p..limit]);
    }
    if limit < p + 3 {
      return None;
    }
    var input := data[p..limit];
    var h: Option<Header>;
    if input[0] < 128 && input[1] < 128 && input[2] < 128 {
      FastPath(input);
      h := Some(Header(input[0], input[1], input[2], 3));
    } else {
      h := ReadHeader(input);
    }
    if h == None || limit - p - h.value.size < h.value.nonShared + h.value.valueLength {
      return None;
    }
    var q := p + h.value.size;
    r := Some(Decoded(q, h.value.shared, h.value.nonShared, h.value.valueLength));
  }

  method ReadHeader(input: Bytes) returns (r: Option<Header>)
    ensures r == ParseHeader(input)
  {
    hide GetVarint, GetVarint32;
    var a := ReadVarint32(input);
    if a == None { return None; }
    var b := ReadVarint32(a.value.1);
    if b == None { return None; }
    var c := ReadVarint32(b.value.1);
    if c == None { return None; }
    GetVarintShrinks(input);
    GetVarintShrinks(a.value.1);
    GetVarintShrinks(b.value.1);
    r := Some(Header(a.value.0, b.value.0, c.value.0, |input| - |c.value.1|));
  }

  /** GetVarint32Ptr. */
  method ReadVarint32(input: Bytes) returns (r: Option<(nat, Bytes)>)
    ensures r == GetVarint32(input)
  {
    r := GetVarintLoop(input, 5, TWO32);
  }

  // ---------- the iterator ----------

  class Iter {
    const less: Order
    const data: Bytes
    /** Offset of the restart array, and how many entries it has. */
    const restarts: nat
    const numRestarts: nat
    /** Offset of the current entry; `restarts` when there is none. */
    var current: nat
    var restartIndex: nat
    var key: Bytes
    /** The current value is data[valueStart..valueEnd]; the next entry follows it. */
    var valueStart: nat
    var valueEnd: nat
    var corrupt: bool
    /** The entries of the block, when a builder made it, and the index of the current one
        (or their number). */
    ghost const layout: Layout
    ghost var place: nat

    /** The data is the block that the builder makes of the layout. */
    ghost predicate Formed() {
      Src().Forms(layout)
    }

    /** Within bounds, whatever the data. */
    ghost predicate Safe()
      reads this
    {
      && numRestarts > 0 && restarts + 4 * numRestarts + 4 <= |data| && current <= restarts
      && (current < restarts ==> restartIndex < numRestarts && valueStart <= valueEnd <= restarts)
    }

    /** The entries that are ahead of the current one, or of the restart point. */
    ghost function Ahead(): Walk
      requires restarts <= |data|
      reads this`valueEnd, this`key
    {
      WalkFrom(data, valueEnd, restarts, key)
    }

    /** The item is the current entry. */
    ghost predicate Stands(x: Item)
      reads this`current, this`key, this`valueStart, this`valueEnd
    {
      HasCurrent() && current == x.offset && key == x.key && valueStart == x.valueStart && valueEnd == x.valueEnd
    }

    /** The item is the current entry; or there is none, and it was the end of the block or an error. */
    ghost predicate Reached(x: Option<Item>, was: bool, bad: bool)
      reads this`current, this`restartIndex, this`key, this`valueStart, this`valueEnd, this`corrupt
    {
      match x
      case Some(y) => Stands(y) && corrupt == was
      case None => !HasCurrent() && restartIndex == numRestarts && (corrupt <==> was || bad)
    }

    lemma {:induction false} AheadStep()
      requires restarts <= |data|
      ensures match if valueEnd < restarts then ItemAt(data, valueEnd, restarts, key) else None
              case None => Ahead() == Walk([], valueEnd < restarts)
              case Some(x) =>
                var rest := WalkFrom(data, x.valueEnd, restarts, x.key);
                && Ahead() == Walk([x] + rest.items, rest.bad) && Ahead().items[1..] == rest.items
    {
      hide ItemAt;
    }

    /** From a restart point, the first entry has been found that ends at the offset or after. */
    ghost predicate ScannedTo(index: nat, offset: nat, was: bool)
      requires index < numRestarts && restarts + 4 * numRestarts + 4 <= |data|
      reads this`current, this`restartIndex, this`key, this`valueStart, this`valueEnd, this`corrupt
    {
      var w := Src().FromRestart(index);
      Reached(Found(w.items, EndsAt(offset)), was, w.bad)
    }

    /** So it has been from the last restart point before the offset; without one there is no
        entry. */
    ghost predicate SteppedBack(index: nat, offset: nat, was: bool)
      requires index < numRestarts && restarts + 4 * numRestarts + 4 <= |data|
      reads this`current, this`restartIndex, this`key, this`valueStart, this`valueEnd, this`corrupt
    {
      match Src().LastBefore(index, offset)
      case None => Reached(None, was, false)
      case Some(r) => ScannedTo(r, offset, was)
    }

    /** One entry of the walk has been taken, if there is one. */
    ghost predicate Took(w: Walk, was: bool)
      requires restarts <= |data|
      reads this`current, this`restartIndex, this`key, this`valueStart, this`valueEnd, this`corrupt
    {
      && Reached(if w.items == [] then None else Some(w.items[0]), was, w.bad)
      && (w.items != [] ==> Ahead() == Walk(w.items[1..], w.bad))
    }

    /** What to do after one more entry: stop, or go on looking. */
    lemma {:induction false} TookOne(w: Walk, was: bool, stop: Item -> bool)
      requires restarts <= |data| && Took(w, was)
      ensures if w.items == [] || stop(w.items[0]) then Reached(Found(w.items, stop), was, w.bad)
              else Found(Ahead().items, stop) == Found(w.items, stop) && Ahead().bad == w.bad
      ensures w.items != [] ==> w.items[0].key == key && w.items[0].valueEnd == valueEnd && corrupt == was
    {
    }

    /** The restart index has caught up with the current entry. */
    ghost predicate Advanced(from: nat)
      requires numRestarts > 0 && restarts + 4 * numRestarts + 4 <= |data|
      reads this`restartIndex, this`current
    {
      && from <= restartIndex < numRestarts
      && (forall j :: from < j <= restartIndex ==> GetRestartPoint(j) < current)
      && (restartIndex + 1 < numRestarts ==> GetRestartPoint(restartIndex + 1) >= current)
    }

    function Src(): Source {
      Source(less, data, restarts, numRestarts)
    }

    /** On a formed block, entry i comes next: its offset is where the last value ended, and the
        last key has the bytes it shares. */
    ghost predicate Ready(i: nat)
      requires Formed()
      reads this`restartIndex, this`key, this`valueEnd
    {
      && i <= |layout.entries| && valueEnd == layout.Offset(i)
      && restartIndex < numRestarts && layout.starts[restartIndex] <= i
      && (i < |layout.entries| ==> layout.Continues(i, key))
    }

    /** Entry i is the current one; the restart index may lag behind by one when it is a
        restart point. */
    ghost predicate On(i: nat)
      requires Formed()
      reads this`current, this`restartIndex, this`key, this`valueStart, this`valueEnd
    {
      && i < |layout.entries| && current == layout.Offset(i) && key == layout.entries[i].key
      && valueStart <= valueEnd == layout.Offset(i + 1) <= |data|
      && data[valueStart..valueEnd] == layout.entries[i].value
      && restartIndex < numRestarts && layout.starts[restartIndex] <= i
      && (restartIndex + 1 < numRestarts ==> i <= layout.starts[restartIndex + 1])
    }

    ghost predicate At(i: nat)
      requires Formed()
      reads this
    {
      if i < |layout.entries| then On(i) else i == |layout.entries| && current == restarts
    }

    ghost predicate Valid()
      reads this
    {
      Safe() && (Formed() ==> At(place))
    }

    constructor (less: Order, data: Bytes, restarts: nat, numRestarts: nat, ghost layout: Layout)
      requires numRestarts > 0 && restarts + 4 * numRestarts + 4 <= |data|
      ensures Valid() && this.less == less && this.data == data && this.layout == layout && current == restarts
              && !corrupt
      ensures this.restarts == restarts && this.numRestarts == numRestarts && place == |layout.entries|
      ensures key == [] && valueStart == valueEnd == 0 && restartIndex == numRestarts
    {
      this.less, this.data, this.restarts, this.numRestarts, this.layout := less, data, restarts, numRestarts, layout;
      current, restartIndex, key, valueStart, valueEnd, corrupt := restarts, numRestarts, [], 0, 0, false;
      place := |layout.entries|;
    }

    predicate HasCurrent()
      reads this`current
    {
      current < restarts
    }

    lemma {:induction false} CurrentIff()
      requires Valid() && Formed()
      ensures place <= |layout.entries| && (HasCurrent() <==> place < |layout.entries|)
    {
      if place < |layout.entries| {
        layout.EntryAt(place);
      }
    }

    method Value() returns (v: Bytes)
      requires Valid() && HasCurrent()
      ensures v == data[valueStart..valueEnd]
      ensures Formed() ==>
              place < |layout.entries| && v == layout.entries[place].value && key == layout.entries[place].key
    {
      v := data[valueStart..valueEnd];
    }

    function GetRestartPoint(index: nat): nat
      requires index < numRestarts && restarts + 4 * numRestarts + 4 <= |data|
    {
      Src().RestartPoint(index)
    }

    lemma {:induction false} RestartIsOffset(j: nat)
      requires Formed() && j < numRestarts
      ensures restarts + 4 * numRestarts + 4 == |data| && layout.starts[j] <= |layout.entries|
      ensures GetRestartPoint(j) == layout.Offset(layout.starts[j])
    {
      Src().RestartIsOffset(layout, j);
    }

    /** Offsets are ordered as the entries are. */
    lemma {:induction false} OffsetOrder(i: nat, j: nat)
      requires Formed() && i <= |layout.entries| && j <= |layout.entries|
      ensures layout.Offset(i) < layout.Offset(j) <==> i < j
    {
      if i < j {
        layout.BodyPrefix(i, j);
      } else {
        layout.BodyPrefix(j, i);
      }
    }

    method SeekToRestartPoint(index: nat)
      requires restarts + 4 * numRestarts + 4 <= |data| && index < numRestarts
      modifies this`key, this`restartIndex, this`valueStart, this`valueEnd
      ensures restartIndex == index && key == [] && valueStart == valueEnd == GetRestartPoint(index)
      ensures Ahead() == Src().FromRestart(index)
      ensures Formed() ==> Ready(layout.starts[index])
    {
      key := [];
      restartIndex := index;
      var offset := GetRestartPoint(index);
      valueStart, valueEnd := offset, offset;
      if Formed() {
        RestartIsOffset(index);
      }
    }

    method CorruptionError()
      modifies this`current, this`restartIndex, this`key, this`valueStart, this`valueEnd, this`corrupt
      ensures current == restarts && restartIndex == numRestarts && corrupt && key == [] && valueStart == valueEnd == 0
      ensures forall was :: Reached(None, was, true)
    {
      current, restartIndex, corrupt := restarts, numRestarts, true;
      key, valueStart, valueEnd := [], 0, 0;
    }

    /** Entry i, which the data holds at its offset. */
    lemma {:induction false} EntryHolds(i: nat)
      requires Formed() && i < |layout.entries|
      ensures |layout.shared| == |layout.entries| && layout.Shares(i)
      ensures Holds(data, layout.Offset(i), restarts, layout.shared[i], layout.entries[i])
      ensures layout.Offset(i) + |Encode(layout.shared[i], layout.entries[i])| == layout.Offset(i + 1)
    {
      Src().EntryHolds(layout, i);
    }

    /** ParseNextKey.  On a formed block, the entry that comes next becomes the current one. */
    method ParseNextKey(ghost i: nat) returns (ok: bool)
      requires numRestarts > 0 && restarts + 4 * numRestarts + 4 <= |data| && restartIndex < numRestarts
      modifies this`current, this`restartIndex, this`key, this`valueStart, this`valueEnd, this`corrupt
      ensures Safe() && (ok ==> HasCurrent() && old(valueEnd) < valueEnd) && (!ok ==> !HasCurrent())
      ensures (ok <==> old(Ahead()).items != []) && Took(old(Ahead()), old(corrupt))
      ensures ok ==> Advanced(old(restartIndex))
      ensures Formed() && old(Ready(i)) ==> (ok <==> i < |layout.entries|) && (ok ==> On(i)) && corrupt == old(corrupt)
    {
      hide WalkFrom, ItemAt, Found, Advanced;
      AheadStep();
      ghost var clean := Formed() && Ready(i);
      current := valueEnd;
      var p := current;
      if clean {
        ReadyFacts(i);
      }
      if p >= restarts {
        current := restarts;
        restartIndex := numRestarts;
        return false;
      }
      ok := DecodeCurrent(i, clean);
      if !ok {
        CorruptionError();
        return false;
      }
      AdvanceRestart(i);
    }

    /** Decode the entry at the current offset into the key and the value. */
    method DecodeCurrent(ghost i: nat, ghost clean: bool) returns (ok: bool)
      requires current < restarts && restarts <= |data|
      requires clean ==>
                 Formed() && i < |layout.entries| && current == layout.Offset(i) && layout.Continues(i, key)
      modifies this`key, this`valueStart, this`valueEnd
      ensures match ItemAt(data, current, restarts, old(key))
              case None => !ok
              case Some(x) => ok && key == x.key && valueStart == x.valueStart && valueEnd == x.valueEnd
      ensures ok ==> current < valueStart <= valueEnd <= restarts
      ensures clean ==>
                && ok && key == layout.entries[i].key && valueEnd == layout.Offset(i + 1)
                && data[valueStart..valueEnd] == layout.entries[i].value
    {
      hide Encode, Layout.Valid, Layout.Body, DecodedAt, Holds;
      if clean {
        EntryHolds(i);
      }
      ghost var e := if clean then layout.entries[i] else Entry([], []);
      var decoded := DecodeEntry(data, current, restarts, if clean then layout.shared[i] else 0, e);
      if decoded == None || |key| < decoded.value.shared {
        return false;
      }
      var d := decoded.value;
      key := key[..d.shared];
      key := key + data[d.key..d.key + d.nonShared];
      valueStart := d.key + d.nonShared;
      valueEnd := valueStart + d.valueLength;
      if clean {
        assert d.shared == layout.shared[i] <= |e.key|;
        assert e.key == e.key[..d.shared] + e.key[d.shared..];
      }
      ok := true;
    }

    lemma {:induction false} ReadyFacts(i: nat)
      requires Formed() && Ready(i)
      ensures valueEnd < restarts <==> i < |layout.entries|
      ensures i < |layout.entries| ==> layout.Offset(i) < layout.Offset(i + 1) <= restarts
    {
      OffsetOrder(i, |layout.entries|);
      if i < |layout.entries| {
        layout.EntryAt(i);
      }
    }

    /** Catch up with the restart points that have been passed. */
    method AdvanceRestart(ghost i: nat)
      requires restartIndex < numRestarts && restarts + 4 * numRestarts + 4 <= |data|
      modifies this`restartIndex
      ensures restartIndex < numRestarts && Advanced(old(restartIndex))
      ensures Formed() && i < |layout.entries| && current == layout.Offset(i)
              && layout.starts[old(restartIndex)] <= i ==>
                && layout.starts[restartIndex] <= i
                && (restartIndex + 1 < numRestarts ==> i <= layout.starts[restartIndex + 1])
    {
      hide Layout.AllShare, Layout.Body, Layout.Offset, Layout.Contents, Unfixed, GetRestartPoint;
      ghost var clean := Formed() && i < |layout.entries| && current == layout.Offset(i)
        && layout.starts[restartIndex] <= i;
      while restartIndex + 1 < numRestarts && GetRestartPoint(restartIndex + 1) < current
        invariant old(restartIndex) <= restartIndex < numRestarts && (clean ==> layout.starts[restartIndex] <= i)
        invariant forall j :: old(restartIndex) < j <= restartIndex ==> GetRestartPoint(j) < current
        decreases numRestarts - restartIndex
      {
        if clean {
          RestartIsOffset(restartIndex + 1);
          OffsetOrder(layout.starts[restartIndex + 1], i);
        }
        restartIndex := restartIndex + 1;
      }
      if clean && restartIndex + 1 < numRestarts {
        RestartIsOffset(restartIndex + 1);
        OffsetOrder(layout.starts[restartIndex + 1], i);
      }
    }

    lemma {:induction false} OnIsReady(i: nat)
      requires Formed() && On(i)
      ensures i < |layout.entries| && Ready(i + 1) && valueEnd == layout.Offset(i + 1) && key == layout.entries[i].key
    {
      if i + 1 < |layout.entries| {
        assert layout.Shares(i + 1);
      }
    }

    method Next()
      requires Valid() && HasCurrent()
      modifies this
      ensures Valid() && (Formed() ==> place == old(place) + 1 && corrupt == old(corrupt))
      ensures Took(old(Ahead()), old(corrupt)) && (HasCurrent() ==> Advanced(old(restartIndex)))
    {
      hide Layout.Valid, Layout.Body, Took, Advanced, WalkFrom, Layout.Offset, Layout.Contents;
      if Formed() {
        OffsetOrder(0, |layout.entries|);
        OnIsReady(place);
      }
      var more := ParseNextKey(place + 1);
      place := if more then place + 1 else |layout.entries|;
    }

    lemma {:induction false} StartsOrder(j: nat, k: nat)
      requires Formed() && j <= k < numRestarts
      ensures layout.starts[j] <= layout.starts[k] && layout.starts[0] == 0
    {
    }

    /** Back to a restart point before the current entry, and forward again up to it. */
    method Prev()
      requires Valid() && HasCurrent()
      modifies this
      ensures Valid()
      ensures Formed() ==>
              place == (if old(place) == 0 then |layout.entries| else old(place) - 1) && corrupt == old(corrupt)
      ensures SteppedBack(old(restartIndex), old(current), old(corrupt))
    {
      hide Layout.Body;
      var original := current;
      ghost var i := place;
      if Formed() {
        OffsetOrder(0, |layout.entries|);
      }
      while GetRestartPoint(restartIndex) >= original
        invariant Safe() && HasCurrent() && current == original && corrupt == old(corrupt)
        invariant Formed() ==> i < |layout.entries| && original == layout.Offset(i) && layout.starts[restartIndex] <= i
        invariant Src().LastBefore(old(restartIndex), original) == Src().LastBefore(restartIndex, original)
        decreases restartIndex
      {
        if Formed() {
          RestartIsOffset(restartIndex);
          OffsetOrder(layout.starts[restartIndex], i);
        }
        if restartIndex == 0 {
          if Formed() {
            StartsOrder(0, 0);
          }
          current := restarts;
          restartIndex := numRestarts;
          place := |layout.entries|;
          return;
        }
        if Formed() {
          StartsOrder(restartIndex - 1, restartIndex);
        }
        restartIndex := restartIndex - 1;
      }
      if Formed() {
        RestartIsOffset(restartIndex);
        OffsetOrder(layout.starts[restartIndex], i);
      }
      ScanTo(original, i);
    }

    /** From a restart point, parse entries until one ends at `original` or after. */
    method ScanTo(original: nat, ghost i: nat)
      requires numRestarts > 0 && restarts + 4 * numRestarts + 4 <= |data| && restartIndex < numRestarts
      requires Formed() ==>
                 && i <= |layout.entries| && original == layout.Offset(i) && layout.starts[restartIndex] <= i
                 && (layout.starts[restartIndex] == i ==> i == |layout.entries|)
      modifies this
      ensures Valid()
      ensures Formed() ==> corrupt == old(corrupt) &&
                           place == if layout.starts[old(restartIndex)] < i then i - 1 else |layout.entries|
      ensures ScannedTo(old(restartIndex), original, old(corrupt))
    {
      hide Ahead, Took, Reached, Found, Advanced, Ready, On, Layout.Valid, Source.FromRestart;
      hide Layout.Body, Layout.Offset, Layout.Contents, Layout.Continues, Layout.AllShare, Encode, GetRestartPoint;
      ghost var start: nat := if Formed() then layout.starts[restartIndex] else 0;
      ghost var k: nat := start;
      SeekToRestartPoint(restartIndex);
      ghost var w, stop := Ahead(), EndsAt(original);
      var more, ok := true, true;
      while more
        invariant more ==> Ahead().bad == w.bad && Found(Ahead().items, stop) == Found(w.items, stop)
        invariant more ==> corrupt == old(corrupt)
        invariant !more ==> Reached(Found(w.items, stop), old(corrupt), w.bad)
        invariant more ==> restartIndex < numRestarts && ok
        invariant Formed() ==> corrupt == old(corrupt)
        invariant Formed() && more ==> start <= k <= i && Ready(k) && (k == i ==> k == start)
        invariant !more ==> Safe() && (ok <==> HasCurrent())
        invariant Formed() && !more ==> if ok then start < i && k + 1 == i && On(k) else start == i
        decreases more, restarts - valueEnd
      {
        ghost var ahead := Ahead();
        ok := ParseNextKey(k);
        TookOne(ahead, old(corrupt), stop);
        more := ok && valueEnd < original;
        if Formed() && ok {
          OnIsReady(k);
          OffsetOrder(k + 1, i);
          if more {
            k := k + 1;
          }
        }
      }
      place := if ok then k else |layout.entries|;
    }

    /** Entry p is the first that is not before the target. */
    ghost predicate Splits(target: Bytes, p: nat)
      requires Formed()
    {
      && p <= |layout.entries|
      && (forall i :: 0 <= i < p ==> less(layout.entries[i].key, target))
      && (forall i :: p <= i < |layout.entries| ==> !less(layout.entries[i].key, target))
    }

    /** Binary search over the restart points, then a linear scan. */
    method Seek(target: Bytes)
      requires Valid()
      modifies this
      ensures Valid()
      ensures Formed() && Transitive(less) && Sorted(layout.entries, less) ==>
              Splits(target, place) && corrupt == old(corrupt)
      ensures var found := Src().Sought(target); Reached(found.0, old(corrupt), found.1)
    {
      hide Reached, Ahead, Source.FromRestart, DecodedAt, Found, Layout.Valid, Source.RestartPoint,
           Source.Start;
      hide Transitive, Sorted, Splits, On, Holds, Layout.Contents, Layout.Offset;
      hide Layout.Body, Encode;
      ghost var clean := Formed() && Transitive(less) && Sorted(layout.entries, less);
      ghost var source := Src();
      var left: nat, right: nat := 0, numRestarts - 1;
      while left < right
        invariant left <= right < numRestarts && corrupt == old(corrupt)
        invariant source.Start(0, numRestarts - 1, target) == source.Start(left, right, target)
        invariant clean && left > 0 ==>
                  layout.starts[left] < |layout.entries| && less(layout.entries[layout.starts[left]].key, target)
        decreases right - left
      {
        var mid: nat := (left + right + 1) / 2;
        source.StartStep(left, right, target);
        if Formed() {
          StartHolds(mid);
        }
        ghost var e := if Formed() then layout.entries[layout.starts[mid]] else Entry([], []);
        var decoded := DecodeEntry(data, GetRestartPoint(mid), restarts, 0, e);
        if decoded == None || decoded.value.shared != 0 {
          CorruptionError();
          place := |layout.entries|;
          return;
        }
        var midKey := data[decoded.value.key..decoded.value.key + decoded.value.nonShared];
        if less(midKey, target) {
          left := mid;
        } else {
          right := mid - 1;
        }
      }
      source.StartStep(left, left, target);
      ghost var start: nat := if Formed() then layout.starts[left] else 0;
      if Formed() {
        RestartIsOffset(left);
        StartsOrder(0, left);
      }
      if clean {
        AllBefore(target, start);
      }
      SeekToRestartPoint(left);
      ScanFor(target, start);
    }

    /** Where a search from a fresh iterator ends. */
    lemma {:induction false} Searched(target: Bytes)
      requires SourceOf(less, data) == Some(Src())
      requires var found := Src().Sought(target); Reached(found.0, false, found.1)
      ensures HasCurrent() ==> valueStart <= valueEnd <= |data| && !corrupt
      ensures Search(less, data, target) ==
              (if HasCurrent() then Some(Entry(key, data[valueStart..valueEnd])) else None, !corrupt)
    {
      hide Source.Sought;
    }

    /** The entry at a restart point is whole. */
    lemma {:induction false} StartHolds(j: nat)
      requires Formed() && 0 < j < numRestarts && restarts + 4 * numRestarts + 4 <= |data|
      ensures layout.starts[j] < |layout.entries|
      ensures Holds(data, GetRestartPoint(j), restarts, 0, layout.entries[layout.starts[j]])
    {
      RestartIsOffset(j);
      EntryHolds(layout.starts[j]);
    }

    lemma {:induction false} AllBefore(target: Bytes, p: nat)
      requires Formed() && Transitive(less) && Sorted(layout.entries, less) && p <= |layout.entries|
      requires p > 0 ==> p < |layout.entries| && less(layout.entries[p].key, target)
      ensures forall i :: 0 <= i < p ==> less(layout.entries[i].key, target)
    {
    }

    lemma {:induction false} NoneBefore(target: Bytes, p: nat)
      requires Formed() && Transitive(less) && Sorted(layout.entries, less) && p < |layout.entries|
      requires !less(layout.entries[p].key, target)
      requires forall i :: 0 <= i < p ==> less(layout.entries[i].key, target)
      ensures Splits(target, p)
    {
      forall i | p < i < |layout.entries| ensures !less(layout.entries[i].key, target) {
        assert less(layout.entries[p].key, layout.entries[i].key);
      }
    }

    lemma {:induction false} AllAreBefore(target: Bytes)
      requires Formed() && forall i :: 0 <= i < |layout.entries| ==> less(layout.entries[i].key, target)
      ensures Splits(target, |layout.entries|)
    {
    }

    /** Parse entries until one is not before the target. */
    method ScanFor(target: Bytes, ghost start: nat)
      requires restarts + 4 * numRestarts + 4 <= |data| && restartIndex < numRestarts
      requires Formed() ==> Ready(start)
      modifies this
      ensures Valid()
      ensures Formed() && Transitive(less) && Sorted(layout.entries, less)
              && (forall i :: 0 <= i < start ==> less(layout.entries[i].key, target)) ==>
                Splits(target, place) && corrupt == old(corrupt)
      ensures var w := old(Ahead()); Reached(Found(w.items, Src().NotBefore(target)), old(corrupt), w.bad)
    {
      hide Ahead, Took, Reached, Found, Advanced, Splits, On;
      hide Layout.Valid, Layout.Body, Layout.Offset, Layout.Contents, Layout.Continues, Encode, Transitive, Sorted;
      ghost var clean := Formed() && Transitive(less) && Sorted(layout.entries, less)
                         && forall i :: 0 <= i < start ==> less(layout.entries[i].key, target);
      ghost var k: nat := start;
      place := start;
      ghost var w, stop := Ahead(), Src().NotBefore(target);
      while true
        invariant Ahead().bad == w.bad && Found(Ahead().items, stop) == Found(w.items, stop) && corrupt == old(corrupt)
        invariant restartIndex < numRestarts
        invariant Formed() ==> corrupt == old(corrupt) && Ready(k)
        invariant clean ==> forall i :: 0 <= i < k ==> less(layout.entries[i].key, target)
        invariant place == k
        decreases restarts - valueEnd
      {
        ghost var ahead := Ahead();
        var ok := ParseNextKey(k);
        TookOne(ahead, old(corrupt), stop);
        if !ok {
          place := |layout.entries|;
          if clean {
            AllAreBefore(target);
          }
          return;
        }
        if Formed() {
          OnIsReady(k);
        }
        if !less(key, target) {
          if clean {
            NoneBefore(target, k);
          }
          return;
        }
        k := k + 1;
        place := k;
      }
    }

    method SeekToFirst()
      requires Valid()
      modifies this
      ensures Valid() && (Formed() ==> place == 0 && corrupt == old(corrupt))
      ensures Took(Src().FromRestart(0), old(corrupt))
    {
      hide WalkFrom, Took, Advanced;
      hide Layout.Body, Layout.Offset, Layout.Contents, Layout.Continues, Layout.AllShare, Encode, GetRestartPoint;
      SeekToRestartPoint(0);
      if Formed() {
        StartsOrder(0, 0);
      }
      var ok := ParseNextKey(0);
      place := if ok then 0 else |layout.entries|;
    }

    method SeekToLast()
      requires Valid()
      modifies this
      ensures Valid() && (Formed() ==>
                          place == (if layout.entries == [] then 0 else |layout.entries| - 1)
                          && corrupt == old(corrupt))
      ensures ScannedTo(numRestarts - 1, restarts, old(corrupt))
    {
      hide ScannedTo, Layout.Body, Layout.Offset, Layout.Contents;
      if Formed() {
        LastStart();
      }
      restartIndex := numRestarts - 1;
      ScanTo(restarts, |layout.entries|);
    }

    lemma {:induction false} LastStart()
      requires Formed() && numRestarts > 0
      ensures if layout.entries == [] then layout.starts[numRestarts - 1] == 0
              else layout.starts[numRestarts - 1] < |layout.entries|
    {
      var j: nat := numRestarts - 1;
      assert layout.starts[j] >= |layout.entries| ==> j == 0;
    }
  }

  /** Block::Block and Block::NewIterator: null stands for the error iterator and for the
      iterator over a block without restart points. */
  method NewIterator(less: Order, contents: Bytes, ghost layout: Layout) returns (it: Iter?)
    ensures it != null ==> fresh(it) && it.Valid() && it.less == less && it.layout == layout && !it.corrupt
    ensures it != null ==> it.place == |layout.entries|
    ensures it != null <==> SourceOf(less, contents).Some?
    ensures it != null ==> it.Src() == SourceOf(less, contents).value
    ensures layout.Valid() && |contents| < TWO32 && contents == layout.Contents() ==> it != null && it.Formed()
  {
    hide Layout.Body;
    if layout.Valid() && |contents| < TWO32 && contents == layout.Contents() {
      layout.Trailer();
    }
    if |contents| < 4 {
      return null;
    }
    var numRestarts := Unfixed(contents[|contents| - 4..]);
    var maxRestartsAllowed := (|contents| - 4) / 4;
    if numRestarts > maxRestartsAllowed || numRestarts == 0 {
      return null;
    }
    it := new Iter(less, contents, |contents| - (1 + numRestarts) * 4, numRestarts, layout);
  }
}

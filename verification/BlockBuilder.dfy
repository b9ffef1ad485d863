/** BlockBuilder (table/block_builder.cc): prefix compression with restart points. */
module BlockBuilders {
  import opened Coding
  import opened BlockFormat

  class BlockBuilder {
    const interval: nat
    var buffer: Bytes
    var restarts: seq<nat>
    var counter: nat
    var finished: bool
    var lastKey: Bytes
    ghost var layout: Layout

    ghost predicate Valid()
      reads this
    {
      interval >= 1 && Built(layout, buffer, restarts, counter, lastKey, interval)
    }

    /** What the fields hold when the entries of a layout have been added. */
    static ghost predicate Built(layout: Layout, buffer: Bytes, restarts: seq<nat>, counter: nat, lastKey: Bytes,
                                 interval: nat) {
      && layout.Valid()
      && buffer == layout.Body(|layout.entries|)
      && OffsetsOf(layout, restarts)
      && counter == |layout.entries| - layout.starts[|layout.starts| - 1] <= interval
      && (forall j :: 0 <= j < |layout.starts| - 1 ==> layout.starts[j + 1] == layout.starts[j] + interval)
      && lastKey == if layout.entries == [] then [] else layout.entries[|layout.entries| - 1].key
    }

    static ghost predicate OffsetsOf(layout: Layout, restarts: seq<nat>)
      requires layout.Valid()
    {
      && |restarts| == |layout.starts|
      && forall j :: 0 <= j < |restarts| ==> OffsetIs(layout, j, restarts[j])
    }

    static ghost predicate OffsetIs(layout: Layout, j: nat, offset: nat)
      requires layout.Valid() && j < |layout.starts|
    {
      layout.starts[j] <= |layout.entries| && offset == layout.Offset(layout.starts[j])
    }

    constructor (interval: nat)
      requires interval >= 1
      ensures Valid() && layout.entries == [] && !finished && this.interval == interval
    {
      this.interval := interval;
      buffer, restarts, counter, finished, lastKey := [], [0], 0, false, [];
      layout := Layout([], [], [0]);
    }

    method Reset()
      requires interval >= 1
      modifies this
      ensures Valid() && layout.entries == [] && !finished
    {
      buffer, restarts, counter, finished, lastKey := [], [0], 0, false, [];
      layout := Layout([], [], [0]);
    }

    function CurrentSizeEstimate(): nat
      reads this
    {
      |buffer| + |restarts| * 4 + 4
    }

    predicate Empty()
      reads this
    {
      buffer == []
    }

    /** The estimate is exact, and only a builder without entries is empty. */
    lemma {:induction false} Sizes()
      requires Valid() && !finished
      ensures layout.Valid() && |layout.Contents()| == CurrentSizeEstimate()
      ensures Empty() <==> layout.entries == []
    {
      layout.RestartArrayLength(|layout.starts|);
      layout.BodyPrefix(0, |layout.entries|);
    }

    method Add(key: Bytes, value: Bytes)
      requires Valid() && !finished && |key| < TWO32 && |value| < TWO32
      modifies this
      ensures Valid() && !finished && layout.entries == old(layout.entries) + [Entry(key, value)]
    {
      hide Built, Encode;
      ghost var before, restarts0, counter0 := layout, restarts, counter;
      ghost var isStart := counter >= interval;
      var shared := 0;
      if counter < interval {
        shared := SharedPrefix(lastKey, key);
      } else {
        restarts := restarts + [|buffer|];
        counter := 0;
      }
      assert key == key[..shared] + key[shared..];
      NextLayout(before, buffer, restarts0, counter0, lastKey, interval, key, value, shared, isStart);
      buffer := Append(buffer, shared, Entry(key, value));
      lastKey := lastKey[..shared] + key[shared..];
      counter := counter + 1;
      layout := Layout(layout.entries + [Entry(key, value)], layout.shared + [shared],
                       if isStart then layout.starts + [|layout.entries|] else layout.starts);
    }

    static method SharedPrefix(a: Bytes, b: Bytes) returns (shared: nat)
      ensures shared <= |a| && shared <= |b| && a[..shared] == b[..shared]
      ensures shared < |a| && shared < |b| ==> a[shared] != b[shared]
    {
      shared := 0;
      var minLength := if |a| < |b| then |a| else |b|;
      while shared < minLength && a[shared] == b[shared]
        invariant shared <= minLength && a[..shared] == b[..shared]
      {
        shared := shared + 1;
      }
    }

    /** The state after one more entry, which shares with the last or is a new restart point. */
    static lemma {:induction false} NextLayout(a: Layout, buffer: Bytes, restarts: seq<nat>, counter: nat,
                                               lastKey: Bytes, interval: nat,
                                               key: Bytes, value: Bytes, shared: nat, isStart: bool)
      requires interval >= 1 && Built(a, buffer, restarts, counter, lastKey, interval)
      requires shared <= |key| && shared <= |lastKey| && lastKey[..shared] == key[..shared]
      requires isStart <==> counter >= interval
      requires isStart ==> shared == 0
      ensures var b := Layout(a.entries + [Entry(key, value)], a.shared + [shared],
                              if isStart then a.starts + [|a.entries|] else a.starts);
              Built(b, buffer + Encode(shared, Entry(key, value)), if isStart then restarts + [|buffer|] else restarts,
                    if isStart then 1 else counter + 1, key, interval)
    {
      hide Encode, Layout.Body, Layout.AllShare, Layout.Valid, OffsetsOf;
      StartsKnown(a);
      var b := Layout(a.entries + [Entry(key, value)], a.shared + [shared],
                      if isStart then a.starts + [|a.entries|] else a.starts);
      AddFacts(a, b, key, value, shared);
      NextOffsets(a, b, buffer, restarts, isStart);
    }

    static lemma {:induction false} NextOffsets(a: Layout, b: Layout, buffer: Bytes, restarts: seq<nat>, isStart: bool)
      requires a.Valid() && b.Valid() && OffsetsOf(a, restarts) && buffer == a.Body(|a.entries|)
      requires |a.entries| < |b.entries| && b.starts == if isStart then a.starts + [|a.entries|] else a.starts
      requires forall n :: 0 <= n <= |a.entries| ==> b.Offset(n) == a.Offset(n)
      ensures OffsetsOf(b, if isStart then restarts + [|buffer|] else restarts)
    {
      hide Layout.Body, Layout.Valid;
      var restarts' := if isStart then restarts + [|buffer|] else restarts;
      forall j | 0 <= j < |restarts'| ensures OffsetIs(b, j, restarts'[j]) {
        if j < |restarts| {
          assert OffsetIs(a, j, restarts[j]);
        }
      }
    }

    static lemma {:induction false} StartsKnown(a: Layout)
      requires a.Valid()
      ensures a.entries != [] ==> forall j :: 0 <= j < |a.starts| ==> a.starts[j] < |a.entries|
      ensures a.entries == [] ==> a.starts == [0]
      ensures a.starts != []
    {
      assert 1 < |a.starts| ==> a.starts[1] < |a.entries|;
    }

    static method Append(buffer: Bytes, shared: nat, e: Entry) returns (r: Bytes)
      requires shared <= |e.key| < TWO32 && |e.value| < TWO32
      ensures r == buffer + Encode(shared, e)
    {
      r := PutVarint32(buffer, shared);
      r := PutVarint32(r, |e.key| - shared);
      r := PutVarint32(r, |e.value|);
      r := r + e.key[shared..];
      r := r + e.value;
    }

    /** One more entry, that shares with the last or is a new restart point. */
    static lemma {:induction false} AddFacts(a: Layout, b: Layout, key: Bytes, value: Bytes, shared: nat)
      requires a.Valid() && b.entries == a.entries + [Entry(key, value)] && b.shared == a.shared + [shared]
      requires shared <= |key| && (a.entries == [] ==> shared == 0)
      requires a.entries != [] ==>
               shared <= |a.entries[|a.entries| - 1].key| && a.entries[|a.entries| - 1].key[..shared] == key[..shared]
      requires b.starts == a.starts || (shared == 0 && a.entries != [] && b.starts == a.starts + [|a.entries|])
      requires a.entries != [] ==> forall j :: 0 <= j < |a.starts| ==> a.starts[j] < |a.entries|
      requires a.entries == [] ==> a.starts == [0]
      ensures b.Valid() && b.Body(|b.entries|) == a.Body(|a.entries|) + Encode(shared, Entry(key, value))
      ensures forall n :: 0 <= n <= |a.entries| ==> b.Offset(n) == a.Offset(n)
    {
      hide Encode;
      forall i | 0 <= i < |b.entries| ensures b.Shares(i) {
        if i < |a.entries| {
          assert a.Shares(i);
        }
      }
      forall n | 0 <= n <= |a.entries| ensures b.Body(n) == a.Body(n) {
        SameBody(a, b, n);
      }
    }

    static lemma {:induction false} SameBody(a: Layout, b: Layout, n: nat)
      requires a.AllShare() && b.AllShare() && n <= |a.entries| <= |b.entries|
      requires a.entries == b.entries[..|a.entries|] && a.shared == b.shared[..|a.shared|]
      ensures a.Body(n) == b.Body(n)
    {
      if n > 0 {
        SameBody(a, b, n - 1);
      }
    }

    /** Append the restart array. */
    method Finish() returns (contents: Bytes)
      requires Valid() && !finished
      modifies this`buffer, this`finished
      ensures contents == layout.Contents() && finished && buffer == contents
    {
      hide Fixed, Encode, Layout.Body, Layout.Contents, Layout.Shares;
      for i := 0 to |restarts|
        invariant buffer == layout.Body(|layout.entries|) + layout.RestartArray(i)
      {
        buffer := buffer + Fixed(restarts[i], 4);
      }
      buffer := buffer + Fixed(|restarts|, 4);
      finished := true;
      contents := buffer;
      ContentsOf(layout);
    }

    static lemma {:induction false} ContentsOf(l: Layout)
      requires l.Valid()
      ensures l.Body(|l.entries|) + l.RestartArray(|l.starts|) + Fixed(|l.starts|, 4) == l.Contents()
    {
      hide Fixed, Layout.Body;
    }
  }
}

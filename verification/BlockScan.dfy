/** What the bytes of a block hold (table/block.cc): whole entries one after another from each
    restart point, up to the end or to bytes that are no entry; and what a search over them
    stops at.  On the bytes that a block builder produced it is the entries that were added. */
module BlockScans {
  import opened Wrappers
  import opened Coding
  import opened BlockFormat

  /** Whether the comparator puts one key before another. */
  type Order = (Bytes, Bytes) -> bool

  ghost predicate Transitive(less: Order) {
    forall a, b, c :: less(a, b) && less(b, c) ==> less(a, c)
  }

  ghost predicate Sorted(es: seq<Entry>, less: Order) {
    forall i, j :: 0 <= i < j < |es| ==> less(es[i].key, es[j].key)
  }

  // ---------- entry headers ----------

  /** The three lengths at the front of an entry, and the number of bytes they take. */
  datatype Header = Header(shared: nat, nonShared: nat, valueLength: nat, size: nat)

  function ParseHeader(input: Bytes): (r: Option<Header>)
    ensures r.Some? ==> 0 < r.value.size <= |input|
  {
    match GetVarint32(input)
    case None => None
    case Some(a) =>
      match GetVarint32(a.1)
      case None => None
      case Some(b) =>
        match GetVarint32(b.1)
        case None => None
        case Some(c) => Some(Header(a.0, b.0, c.0, |input| - |c.1|))
  }

  /** When the first three bytes are all below 128, they are the three lengths. */
  lemma {:induction false} FastPath(input: Bytes)
    requires |input| >= 3 && input[0] < 128 && input[1] < 128 && input[2] < 128
    ensures ParseHeader(input) == Some(Header(input[0], input[1], input[2], 3))
  {
    OneByte(input);
    OneByte(input[1..]);
    OneByte(input[2..]);
    assert input[1..][1..] == input[2..] && input[2..][1..] == input[3..];
  }

  lemma {:induction false} OneByte(input: Bytes)
    requires input != [] && input[0] < 128
    ensures GetVarint32(input) == Some((input[0] as nat, input[1..]))
  {
    LastByte(input, 5);
  }

  lemma {:induction false} HeaderOf(shared: nat, e: Entry, tail: Bytes)
    requires shared <= |e.key| < TWO32 && |e.value| < TWO32
    ensures var input := Encode(shared, e) + tail;
            var h := ParseHeader(input);
            && h.Some? && h.value.shared == shared && h.value.nonShared == |e.key| - shared
            && h.value.valueLength == |e.value|
            && h.value.size + h.value.nonShared + h.value.valueLength == |Encode(shared, e)|
            && input[h.value.size..h.value.size + h.value.nonShared] == e.key[shared..]
            && input[h.value.size + h.value.nonShared..|Encode(shared, e)|] == e.value
  {
    hide Varint, GetVarint32;
    var a, b, c, rest := Varint(shared), Varint(|e.key| - shared), Varint(|e.value|), e.key[shared..] + e.value;
    assert Encode(shared, e) + tail == a + (b + (c + (rest + tail)));
    GetVarint32Of(shared, b + (c + (rest + tail)));
    GetVarint32Of(|e.key| - shared, c + (rest + tail));
    GetVarint32Of(|e.value|, rest + tail);
  }

  /** The entry at offset p of the data. */
  ghost predicate Holds(data: Bytes, p: nat, limit: nat, shared: nat, e: Entry) {
    && shared <= |e.key| < TWO32 && |e.value| < TWO32
    && p <= limit <= |data| && p + |Encode(shared, e)| <= limit && data[p..p + |Encode(shared, e)|] == Encode(shared, e)
  }

  datatype Decoded = Decoded(key: nat, shared: nat, nonShared: nat, valueLength: nat)

  /** The entry at offset p: three lengths, and as many bytes as they say. */
  ghost function DecodedAt(data: Bytes, p: nat, limit: nat): (r: Option<Decoded>)
    requires limit <= |data|
    ensures r.Some? ==> p < r.value.key && r.value.key + r.value.nonShared + r.value.valueLength <= limit
  {
    if p > limit then None else
    match ParseHeader(data[p..limit])
    case None => None
    case Some(h) =>
      var q := p + h.size;
      if q + h.nonShared + h.valueLength > limit then None
      else Some(Decoded(q, h.shared, h.nonShared, h.valueLength))
  }

  /** An entry as the bytes give it: its offset, its key, and where its value is. */
  datatype Item = Item(offset: nat, key: Bytes, valueStart: nat, valueEnd: nat)

  ghost function ItemAt(data: Bytes, p: nat, limit: nat, last: Bytes): (r: Option<Item>)
    requires limit <= |data|
    ensures r.Some? ==> p == r.value.offset < r.value.valueStart <= r.value.valueEnd <= limit
  {
    match DecodedAt(data, p, limit)
    case None => None
    case Some(d) =>
      if |last| < d.shared then None
      else Some(Item(p, last[..d.shared] + data[d.key..d.key + d.nonShared], d.key + d.nonShared,
                     d.key + d.nonShared + d.valueLength))
  }

  /** Entries one after another, and whether bytes that are no entry end them. */
  datatype Walk = Walk(items: seq<Item>, bad: bool)

  /** The entries from offset p on, when `last` is the key before them. */
  ghost function WalkFrom(data: Bytes, p: nat, limit: nat, last: Bytes): (r: Walk)
    requires limit <= |data|
    ensures forall x <- r.items :: x.valueStart <= x.valueEnd <= limit
    decreases limit - p
  {
    if p >= limit then Walk([], false) else
    match ItemAt(data, p, limit, last)
    case None => Walk([], true)
    case Some(x) =>
      var w := WalkFrom(data, x.valueEnd, limit, x.key);
      Walk([x] + w.items, w.bad)
  }

  ghost function Found(items: seq<Item>, stop: Item -> bool): (r: Option<Item>)
    ensures r.Some? ==> r.value in items
  {
    if items == [] then None else if stop(items[0]) then Some(items[0]) else Found(items[1..], stop)
  }

  lemma {:induction false} FoundAt(items: seq<Item>, stop: Item -> bool, p: nat)
    requires p <= |items| && forall k :: 0 <= k < p ==> !stop(items[k])
    requires p < |items| ==> stop(items[p])
    ensures Found(items, stop) == if p < |items| then Some(items[p]) else None
  {
    if p > 0 {
      FoundAt(items[1..], stop, p - 1);
    }
  }

  lemma {:induction false} ShortHeader(input: Bytes)
    ensures ParseHeader(input).Some? ==> |input| >= 3
  {
    hide GetVarint32;
    GetVarintShrinks(input);
    match GetVarint32(input)
    case None =>
    case Some(a) =>
      GetVarintShrinks(a.1);
      match GetVarint32(a.1)
      case None =>
      case Some(b) => GetVarintShrinks(b.1);
  }

  /** The header at the offset of an entry, and the bytes after it. */
  lemma {:induction false} HeaderAt(data: Bytes, p: nat, limit: nat, shared: nat, e: Entry)
    requires Holds(data, p, limit, shared, e)
    ensures p + 3 <= limit <= |data|
    ensures var h := ParseHeader(data[p..limit]);
            && h.Some? && h.value.shared == shared && h.value.nonShared == |e.key| - shared
            && h.value.valueLength == |e.value|
            && var q, end := p + h.value.size, p + |Encode(shared, e)|;
               && q + h.value.nonShared + h.value.valueLength == end <= limit
               && data[q..q + h.value.nonShared] == e.key[shared..] && data[q + h.value.nonShared..end] == e.value
  {
    hide ParseHeader, Encode;
    var size := |Encode(shared, e)|;
    assert data[p..limit] == Encode(shared, e) + data[p + size..limit] by {
      assert data[p..limit] == data[p..p + size] + data[p + size..limit];
    }
    HeaderOf(shared, e, data[p + size..limit]);
    var h := ParseHeader(data[p..limit]).value;
    SubSlice(data, p, limit, h.size, h.size + h.nonShared);
    SubSlice(data, p, limit, h.size + h.nonShared, size);
  }

  /** What Holds says is what is decoded. */
  lemma {:induction false} HoldsIsItem(data: Bytes, p: nat, limit: nat, shared: nat, e: Entry, last: Bytes)
    requires Holds(data, p, limit, shared, e) && shared <= |last| && last[..shared] == e.key[..shared]
    ensures p < limit <= |data|
    ensures var x := ItemAt(data, p, limit, last);
            && x.Some? && x.value.key == e.key && x.value.valueEnd == p + |Encode(shared, e)|
            && data[x.value.valueStart..x.value.valueEnd] == e.value
  {
    hide ParseHeader, Encode, Holds;
    HeaderAt(data, p, limit, shared, e);
    assert e.key == e.key[..shared] + e.key[shared..];
  }

  lemma {:induction false} SubSlice(data: Bytes, p: nat, limit: nat, i: nat, j: nat)
    requires i <= j && p + j <= limit <= |data|
    ensures data[p..limit][i..j] == data[p + i..p + j]
  {
    var a, b := data[p..limit][i..j], data[p + i..p + j];
    assert |a| == |b| && forall k :: 0 <= k < |a| ==> a[k] == b[k];
  }

  lemma {:induction false} GetVarintShrinks(input: Bytes)
    ensures GetVarint32(input).Some? ==> |GetVarint32(input).value.1| < |input|
  {
  }

  lemma {:induction false} EncodeSize(shared: nat, e: Entry)
    requires shared <= |e.key|
    ensures |Encode(shared, e)| >= |e.key| - shared + |e.value|
  {
  }

  /** Entries are no longer than the block. */
  lemma {:induction false} EntrySize(layout: Layout, i: nat)
    requires layout.Valid() && i < |layout.entries|
    ensures |layout.entries[i].key| <= layout.Offset(i + 1) && |layout.entries[i].value| <= layout.Offset(i + 1)
  {
    hide Encode;
    assert layout.Shares(i);
    assert layout.Body(i + 1) == layout.Body(i) + Encode(layout.shared[i], layout.entries[i]);
    EncodeSize(layout.shared[i], layout.entries[i]);
    if i > 0 {
      EntrySize(layout, i - 1);
    }
  }

  /** A block's bytes with its restart array, and the comparator of its keys. */
  datatype Source = Source(less: Order, data: Bytes, restarts: nat, numRestarts: nat) {
    predicate Sound() {
      numRestarts > 0 && restarts + 4 * numRestarts + 4 <= |data|
    }

    /** The data is the block that a builder makes of the layout. */
    ghost predicate Forms(layout: Layout) {
      && layout.Valid() && |data| < TWO32 && data == layout.Contents()
      && restarts == layout.Offset(|layout.entries|) && numRestarts == |layout.starts|
    }

    function RestartPoint(index: nat): nat
      requires Sound() && index < numRestarts
    {
      Unfixed(data[restarts + 4 * index..restarts + 4 * index + 4])
    }

    ghost function FromRestart(index: nat): Walk
      requires Sound() && index < numRestarts
    {
      WalkFrom(data, RestartPoint(index), restarts, [])
    }

    /** The last restart point, from `index` down, that is before the offset. */
    ghost function LastBefore(index: nat, offset: nat): (r: Option<nat>)
      requires Sound() && index < numRestarts
      ensures r.Some? ==> r.value <= index
    {
      if RestartPoint(index) < offset then Some(index)
      else if index == 0 then None else LastBefore(index - 1, offset)
    }

    /** The whole key at a restart point. */
    ghost function RestartKey(index: nat): Option<Bytes>
      requires Sound() && index < numRestarts
    {
      match DecodedAt(data, RestartPoint(index), restarts)
      case None => None
      case Some(d) => if d.shared != 0 then None else Some(data[d.key..d.key + d.nonShared])
    }

    ghost predicate RestartBefore(index: nat, target: Bytes)
      requires Sound() && index < numRestarts
    {
      RestartKey(index).Some? && less(RestartKey(index).value, target)
    }

    /** The restart point to start a search at, or none when it meets one without a whole key. */
    ghost function Start(left: nat, right: nat, target: Bytes): (r: Option<nat>)
      requires Sound() && left <= right < numRestarts
      ensures r.Some? ==> left <= r.value <= right
      decreases right - left
    {
      if left == right then Some(left) else
      var mid: nat := (left + right + 1) / 2;
      if RestartKey(mid).None? then None
      else if RestartBefore(mid, target) then Start(mid, right, target)
      else Start(left, mid - 1, target)
    }

    lemma {:induction false} StartStep(left: nat, right: nat, target: Bytes)
      requires Sound() && left <= right < numRestarts
      ensures Start(left, left, target) == Some(left)
      ensures left < right ==>
                var mid: nat := (left + right + 1) / 2;
                Start(left, right, target) ==
                if RestartKey(mid).None? then None
                else if RestartBefore(mid, target) then Start(mid, right, target) else Start(left, mid - 1, target)
    {
      hide RestartKey, RestartBefore;
    }

    /** It is before the target, and the next one is not. */
    lemma {:induction false} StartSplits(left: nat, right: nat, target: Bytes)
      requires Sound() && left <= right < numRestarts && Start(left, right, target).Some?
      ensures var j := Start(left, right, target).value;
              && (j > left ==> RestartBefore(j, target))
              && (j < right ==> RestartKey(j + 1).Some? && !RestartBefore(j + 1, target))
      decreases right - left
    {
      hide RestartBefore, RestartKey;
      if left < right {
        var mid: nat := (left + right + 1) / 2;
        if RestartBefore(mid, target) {
          StartSplits(mid, right, target);
        } else {
          StartSplits(left, mid - 1, target);
        }
      }
    }

    /** What a search stops at; and if at nothing, whether that is because of bytes that are no
        entry. */
    ghost function Sought(target: Bytes): (r: (Option<Item>, bool))
      requires Sound()
      ensures r.0.Some? ==> r.0.value.valueStart <= r.0.value.valueEnd <= |data|
    {
      match Start(0, numRestarts - 1, target)
      case None => (None, true)
      case Some(j) =>
        var w := FromRestart(j);
        (Found(w.items, NotBefore(target)), w.bad)
    }

    // ---------- on the bytes of a builder ----------

    lemma {:induction false} RestartIsOffset(layout: Layout, j: nat)
      requires Forms(layout) && j < numRestarts
      ensures restarts + 4 * numRestarts + 4 == |data| && layout.starts[j] <= |layout.entries|
      ensures RestartPoint(j) == layout.Offset(layout.starts[j])
    {
      hide Layout.Valid, Layout.Body, Layout.Contents, Layout.RestartArray, Fixed, Unfixed;
      layout.RestartPoint(j);
      layout.Trailer();
      layout.StartInRange(j);
    }

    /** Entry i, which the data holds at its offset. */
    lemma {:induction false} EntryHolds(layout: Layout, i: nat)
      requires Forms(layout) && i < |layout.entries|
      ensures layout.AllShare() && layout.Shares(i) && restarts <= |data|
      ensures Holds(data, layout.Offset(i), restarts, layout.shared[i], layout.entries[i])
      ensures layout.Offset(i) + |Encode(layout.shared[i], layout.entries[i])| == layout.Offset(i + 1)
    {
      hide Encode, Layout.Contents, Layout.RestartArray, Layout.Continues, Fixed, Unfixed;
      layout.EntryAt(i);
      layout.Trailer();
      EntrySize(layout, i);
      assert data[..restarts] == data[0..restarts] == layout.Body(|layout.entries|);
      SubSlice(data, 0, restarts, layout.Offset(i), layout.Offset(i + 1));
    }

    /** Entry i is decoded at its offset, after a key it shares its prefix with. */
    lemma {:induction false} EntryIsItem(layout: Layout, i: nat, last: Bytes)
      requires Forms(layout) && i < |layout.entries| && layout.Continues(i, last)
      ensures layout.Offset(i) < restarts <= |data|
      ensures var x := ItemAt(data, layout.Offset(i), restarts, last);
              && x.Some? && x.value.key == layout.entries[i].key && x.value.valueEnd == layout.Offset(i + 1)
              && data[x.value.valueStart..x.value.valueEnd] == layout.entries[i].value
    {
      hide ItemAt, Encode, Holds, Layout.Contents, Layout.RestartArray;
      EntryHolds(layout, i);
      HoldsIsItem(data, layout.Offset(i), restarts, layout.shared[i], layout.entries[i], last);
    }

    /** Walking from entry i on, one meets all entries from i on, and nothing else. */
    lemma {:induction false} WalkOfEntries(layout: Layout, i: nat, last: Bytes)
      requires Forms(layout) && i <= |layout.entries| && (i < |layout.entries| ==> layout.Continues(i, last))
      ensures restarts <= |data|
      ensures var w := WalkFrom(data, layout.Offset(i), restarts, last);
              && !w.bad && |w.items| == |layout.entries| - i
              && forall k :: 0 <= k < |w.items| ==> IsEntry(w.items[k], layout.entries[i + k])
      decreases |layout.entries| - i
    {
      hide ItemAt, Encode, Layout.Contents, Layout.Body;
      layout.Trailer();
      if i < |layout.entries| {
        EntryIsItem(layout, i, last);
        if i + 1 < |layout.entries| {
          assert layout.Shares(i + 1);
        }
        WalkOfEntries(layout, i + 1, layout.entries[i].key);
      }
    }

    ghost predicate IsEntry(x: Item, e: Entry) {
      x.valueStart <= x.valueEnd <= |data| && x.key == e.key && data[x.valueStart..x.valueEnd] == e.value
    }

    lemma {:induction false} RestartKeyIs(layout: Layout, j: nat)
      requires Forms(layout) && 0 < j < numRestarts
      ensures Sound() && layout.starts[j] < |layout.entries|
      ensures RestartKey(j) == Some(layout.entries[layout.starts[j]].key)
    {
      hide ParseHeader, Encode, Holds, Layout.Contents, RestartPoint;
      var i := layout.starts[j];
      RestartIsOffset(layout, j);
      EntryHolds(layout, i);
      HeaderAt(data, layout.Offset(i), restarts, 0, layout.entries[i]);
    }

    /** On sorted entries, a search stops at the first that is not before the target. */
    lemma {:induction false} SoughtIs(layout: Layout, target: Bytes, p: nat)
      requires Forms(layout) && Transitive(less) && Sorted(layout.entries, less) && p <= |layout.entries|
      requires forall i :: 0 <= i < p ==> less(layout.entries[i].key, target)
      requires p < |layout.entries| ==> !less(layout.entries[p].key, target)
      ensures Sound() && !Sought(target).1
      ensures if p < |layout.entries| then Sought(target).0.Some? && IsEntry(Sought(target).0.value, layout.entries[p])
              else Sought(target).0 == None
    {
      hide RestartPoint, Layout.Contents, Layout.Body, RestartKey, Start, IsEntry, WalkFrom;
      RestartIsOffset(layout, 0);
      StartFound(layout, 0, numRestarts - 1, target);
      StartSplits(0, numRestarts - 1, target);
      var j := Start(0, numRestarts - 1, target).value;
      var start := layout.starts[j];
      RestartIsOffset(layout, j);
      if j > 0 {
        RestartKeyIs(layout, j);
        EarlierToo(layout.entries, start, target);
      }
      WalkOfEntries(layout, start, []);
      var w := FromRestart(j);
      forall k | 0 <= k < |w.items|
        ensures w.items[k].key == layout.entries[start + k].key
      {
        KeyOfEntry(w.items[k], layout.entries[start + k]);
      }
      FoundAt(w.items, NotBefore(target), p - start);
    }

    lemma {:induction false} EarlierToo(es: seq<Entry>, q: nat, target: Bytes)
      requires Transitive(less) && Sorted(es, less) && q < |es| && less(es[q].key, target)
      ensures forall i :: 0 <= i <= q ==> less(es[i].key, target)
    {
    }

    lemma {:induction false} KeyOfEntry(x: Item, e: Entry)
      requires IsEntry(x, e)
      ensures x.key == e.key
    {
    }

    /** Every restart point has a whole key. */
    lemma {:induction false} StartFound(layout: Layout, left: nat, right: nat, target: Bytes)
      requires Forms(layout) && Sound() && left <= right < numRestarts
      ensures Start(left, right, target).Some?
      decreases right - left
    {
      hide RestartKey, Forms;
      if left < right {
        var mid: nat := (left + right + 1) / 2;
        RestartKeyIs(layout, mid);
        if RestartBefore(mid, target) {
          StartFound(layout, mid, right, target);
        } else {
          StartFound(layout, left, mid - 1, target);
        }
      }
    }

    ghost function NotBefore(target: Bytes): Item -> bool {
      (x: Item) => !less(x.key, target)
    }
  }

  ghost function EndsAt(offset: nat): Item -> bool {
    (x: Item) => x.valueEnd >= offset
  }

  /** A block without restart points; its iterator is empty, and not an error. */
  predicate NoRestarts(contents: Bytes) {
    |contents| >= 4 && Unfixed(contents[|contents| - 4..]) == 0
  }

  /** A block is searched when its last word is a possible number of restart points. */
  ghost function SourceOf(less: Order, contents: Bytes): (r: Option<Source>)
    ensures r.Some? ==> r.value.Sound() && r.value.less == less && r.value.data == contents
  {
    if |contents| < 4 then None else
    var n := Unfixed(contents[|contents| - 4..]);
    if n == 0 || n > (|contents| - 4) / 4 then None
    else Some(Source(less, contents, |contents| - 4 * (n + 1), n))
  }

  /** The first entry of a block that is not before the target, and whether the block is good as
      far as the search has come. */
  ghost function Search(less: Order, contents: Bytes, target: Bytes): (Option<Entry>, bool) {
    match SourceOf(less, contents)
    case None => (None, NoRestarts(contents))
    case Some(s) =>
      var found := s.Sought(target);
      match found.0
      case None => (None, !found.1)
      case Some(x) => (Some(Entry(x.key, contents[x.valueStart..x.valueEnd])), true)
  }

  lemma {:induction false} NothingToSearch(less: Order, contents: Bytes, target: Bytes)
    ensures SourceOf(less, contents).None? ==> Search(less, contents, target) == (None, NoRestarts(contents))
  {
  }

  lemma {:induction false} SourceOfLayout(less: Order, layout: Layout)
    requires layout.Valid() && |layout.Contents()| < TWO32
    ensures SourceOf(less, layout.Contents()).Some? && SourceOf(less, layout.Contents()).value.Forms(layout)
  {
    hide Layout.Valid, Layout.Body, Layout.Contents;
    layout.Trailer();
    assert layout.starts != [] by {
      LayoutStarts(layout);
    }
  }

  lemma {:induction false} LayoutStarts(layout: Layout)
    requires layout.Valid()
    ensures layout.starts != []
  {
  }

  /** The bytes of a builder are searched as its entries are. */
  lemma {:induction false} SearchIs(less: Order, layout: Layout, target: Bytes, p: nat)
    requires layout.Valid() && |layout.Contents()| < TWO32
    requires Transitive(less) && Sorted(layout.entries, less) && p <= |layout.entries|
    requires forall i :: 0 <= i < p ==> less(layout.entries[i].key, target)
    requires p < |layout.entries| ==> !less(layout.entries[p].key, target)
    ensures Search(less, layout.Contents(), target) ==
            (if p < |layout.entries| then Some(layout.entries[p]) else None, true)
  {
    hide Layout.Valid, Layout.Body, Layout.Contents, Source.Sought, Sorted, Transitive, SourceOf;
    SourceOfLayout(less, layout);
    SourceOf(less, layout.Contents()).value.SoughtIs(layout, target, p);
  }
}

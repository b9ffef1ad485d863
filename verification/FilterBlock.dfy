/** The filter block of a table (table/filter_block.cc): one filter for each 2 KB range of
    block offsets, made from the keys of all blocks that start in it. */
module FilterBlocks {
  import opened Coding
  import opened BloomFilters

  const BASE_LG: nat := 11
  const BASE: nat := 2048

  // ---------- cutting a string at offsets ----------

  /** cuts[i]..cuts[i + 1] is a piece of the text. */
  ghost predicate Piece(text: Bytes, cuts: seq<nat>, i: nat) {
    i + 1 < |cuts| && cuts[i] <= cuts[i + 1] <= |text|
  }

  /** The key list is cut into these keys. */
  ghost predicate Cut(keys: Bytes, cuts: seq<nat>, list: seq<Bytes>) {
    && |cuts| == |list| + 1 && cuts[|list|] == |keys|
    && forall i :: 0 <= i < |list| ==> Piece(keys, cuts, i) && keys[cuts[i]..cuts[i + 1]] == list[i]
  }

  /** Piece i is the filter of group i, or empty if the group is. */
  ghost predicate FilterAt(policy: Policy, result: Bytes, cuts: seq<nat>, groups: seq<seq<Bytes>>, i: nat)
    requires i < |groups|
  {
    && Piece(result, cuts, i)
    && if groups[i] == [] then cuts[i] == cuts[i + 1] else FilterOf(policy, groups[i], result[cuts[i]..cuts[i + 1]])
  }

  ghost predicate Filters(policy: Policy, result: Bytes, cuts: seq<nat>, groups: seq<seq<Bytes>>) {
    && |cuts| == |groups| + 1 && cuts[|groups|] == |result|
    && forall i :: 0 <= i < |groups| ==> FilterAt(policy, result, cuts, groups, i)
  }

  /** A key that was added under a block offset is in its range's group, or still waiting for it. */
  ghost predicate Kept(offset: nat, key: Bytes, groups: seq<seq<Bytes>>, pending: seq<Bytes>) {
    var i := offset / BASE;
    i <= |groups| && key in if i < |groups| then groups[i] else pending
  }

  ghost predicate AllKept(added: set<(nat, Bytes)>, groups: seq<seq<Bytes>>, pending: seq<Bytes>) {
    forall a <- added :: Kept(a.0, a.1, groups, pending)
  }

  /** The groups once all ranges below number n are closed: the pending keys are the next group. */
  ghost function Closed(groups: seq<seq<Bytes>>, pending: seq<Bytes>, n: nat): seq<seq<Bytes>> {
    if n <= |groups| then groups else groups + [pending] + seq(n - |groups| - 1, i => [])
  }

  /** A whole filter block: the filters of the groups, their offsets, and base_lg. */
  ghost predicate IsFilterBlock(policy: Policy, groups: seq<seq<Bytes>>, contents: Bytes) {
    exists filters, cuts :: Filters(policy, filters, cuts, groups) && contents == filters + Words(cuts) + [BASE_LG]
  }

  lemma {:induction false} CutExtends(keys: Bytes, cuts: seq<nat>, list: seq<Bytes>, key: Bytes)
    requires Cut(keys, cuts, list)
    ensures Cut(keys + key, cuts + [|keys + key|], list + [key])
  {
    var keys', cuts', list' := keys + key, cuts + [|keys + key|], list + [key];
    forall i | 0 <= i < |list'| ensures Piece(keys', cuts', i) && keys'[cuts'[i]..cuts'[i + 1]] == list'[i] {
      if i < |list| {
        assert Piece(keys, cuts, i);
        assert keys'[cuts[i]..cuts[i + 1]] == keys[cuts[i]..cuts[i + 1]];
      } else {
        assert keys'[|keys|..] == key;
      }
    }
  }

  lemma {:induction false} FiltersExtend(policy: Policy, result: Bytes, cuts: seq<nat>, groups: seq<seq<Bytes>>,
                                         filter: Bytes, group: seq<Bytes>)
    requires Filters(policy, result, cuts, groups)
    requires if group == [] then filter == [] else FilterOf(policy, group, filter)
    ensures Filters(policy, result + filter, cuts + [|result + filter|], groups + [group])
  {
    hide FilterOf;
    var result', cuts', groups' := result + filter, cuts + [|result + filter|], groups + [group];
    forall i | 0 <= i < |groups'| ensures FilterAt(policy, result', cuts', groups', i) {
      if i < |groups| {
        assert FilterAt(policy, result, cuts, groups, i);
        assert result'[cuts[i]..cuts[i + 1]] == result[cuts[i]..cuts[i + 1]];
      } else {
        assert result'[cuts'[i]..cuts'[i + 1]] == filter;
      }
    }
  }

  // ---------- the builder ----------

  class FilterBlockBuilder {
    const policy: Policy
    var keys: Bytes
    var start: seq<nat>
    var result: Bytes
    var filterOffsets: seq<nat>
    /** The keys of each filter made so far, the keys waiting for the next one, the offset of
        the current block, and all keys added with the offsets of their blocks. */
    ghost var groups: seq<seq<Bytes>>
    ghost var pending: seq<Bytes>
    ghost var current: nat
    ghost var added: set<(nat, Bytes)>

    ghost predicate Consistent()
      reads this
    {
      && policy.Valid()
      && Cut(keys, start + [|keys|], pending)
      && Filters(policy, result, filterOffsets + [|result|], groups)
      && AllKept(added, groups, pending)
    }

    ghost predicate Valid()
      reads this
    {
      Consistent() && current / BASE == |groups|
    }

    constructor (policy: Policy)
      requires policy.Valid()
      ensures Valid() && current == 0 && added == {} && this.policy == policy && groups == [] && pending == []
    {
      this.policy := policy;
      keys, start, result, filterOffsets := [], [], [], [];
      groups, pending, current, added := [], [], 0, {};
    }

    /** Start a block: close the ranges before its offset. */
    method StartBlock(blockOffset: nat)
      requires Valid() && current <= blockOffset
      modifies this
      ensures Valid() && current == blockOffset && added == old(added)
      ensures groups == Closed(old(groups), old(pending), blockOffset / BASE)
      ensures pending == if |groups| == old(|groups|) then old(pending) else []
    {
      var filterIndex := blockOffset / BASE;
      while filterIndex > |filterOffsets|
        invariant Consistent() && old(|groups|) <= |groups| <= filterIndex && added == old(added)
        invariant groups == Closed(old(groups), old(pending), |groups|)
        invariant pending == if |groups| == old(|groups|) then old(pending) else []
      {
        GenerateFilter();
      }
      current := blockOffset;
    }

    method AddKey(key: Bytes)
      requires Valid()
      modifies this`start, this`keys, this`pending, this`added
      ensures Valid() && added == old(added) + {(current, key)} && pending == old(pending) + [key]
    {
      CutExtends(keys, start + [|keys|], pending, key);
      assert (start + [|keys|]) + [|keys + key|] == start + [|keys|] + [|keys + key|];
      AddedToo(added, groups, pending, current, key);
      start := start + [|keys|];
      keys := keys + key;
      pending := pending + [key];
      added := added + {(current, key)};
    }

    static lemma {:induction false} AddedToo(added: set<(nat, Bytes)>, groups: seq<seq<Bytes>>, pending: seq<Bytes>,
                                             current: nat, key: Bytes)
      requires AllKept(added, groups, pending) && current / BASE == |groups|
      ensures AllKept(added + {(current, key)}, groups, pending + [key])
    {
      forall a <- added + {(current, key)} ensures Kept(a.0, a.1, groups, pending + [key]) {
        if a in added {
          assert Kept(a.0, a.1, groups, pending);
        }
      }
    }

    /** Make the filter of the pending keys. */
    method GenerateFilter()
      requires Consistent()
      modifies this`keys, this`start, this`result, this`filterOffsets, this`groups, this`pending
      ensures Consistent() && added == old(added)
      ensures groups == old(groups) + [old(pending)] && pending == [] && |start| == 0 && |filterOffsets| == |groups|
    {
      hide FilterOf;
      var numKeys := |start|;
      ghost var result0, cuts0 := result, filterOffsets + [|result|];
      if numKeys == 0 {
        FiltersExtend(policy, result, cuts0, groups, [], []);
        assert result + [] == result;
        filterOffsets := filterOffsets + [|result|];
        Shift(groups, pending, added);
        groups := groups + [[]];
        return;
      }
      start := start + [|keys|];
      var tmpKeys: seq<Bytes> := [];
      for i := 0 to numKeys
        invariant tmpKeys == pending[..i]
      {
        assert Piece(keys, start, i);
        tmpKeys := tmpKeys + [keys[start[i]..start[i + 1]]];
      }
      assert tmpKeys == pending;
      filterOffsets := filterOffsets + [|result|];
      result := CreateFilter(policy, tmpKeys, result);
      FiltersExtend(policy, result0, cuts0, groups, result[|result0|..], pending);
      assert result == result0 + result[|result0|..];
      Shift(groups, pending, added);
      groups, pending := groups + [pending], [];
      keys, start := [], [];
    }

    /** The pending keys become a group. */
    static lemma {:induction false} Shift(groups: seq<seq<Bytes>>, pending: seq<Bytes>, added: set<(nat, Bytes)>)
      requires AllKept(added, groups, pending)
      ensures AllKept(added, groups + [pending], [])
    {
      forall a <- added ensures Kept(a.0, a.1, groups + [pending], []) {
        assert Kept(a.0, a.1, groups, pending);
      }
    }

    /** Append the offsets.  Every key that was added may match under its block's offset. */
    method Finish() returns (contents: Bytes)
      requires Valid()
      modifies this`keys, this`start, this`result, this`filterOffsets, this`groups, this`pending
      ensures IsFilterBlock(policy, old(groups) + if old(pending) == [] then [] else [old(pending)], contents)
      ensures |contents| < TWO32 ==> forall a <- added :: Reader(contents).MayMatch(policy, a.0, a.1)
    {
      hide FilterOf, Fixed, Words, Reader, Kept, FilterBlockReader.MayMatch, IsFilterBlock;
      assert pending == [] <==> |start| == 0;
      if |start| > 0 {
        GenerateFilter();
      }
      ghost var filters, cuts, all := result, filterOffsets + [|result|], groups;
      assert all == old(groups) + if old(pending) == [] then [] else [old(pending)];
      var arrayOffset := |result|;
      NoWords();
      var offsets := filterOffsets;
      for i := 0 to |offsets|
        invariant result == filters + Words(offsets[..i])
      {
        WordsNext(offsets, i);
        result := result + Fixed(offsets[i], 4);
      }
      assert offsets[..|offsets|] == cuts[..|offsets|] && cuts[..|cuts|] == cuts;
      WordsNext(cuts, |offsets|);
      result := result + Fixed(arrayOffset, 4);
      result := result + [BASE_LG];
      contents := result;
      assert contents == filters + Words(cuts) + [BASE_LG];
      AllMatch(policy, filters, cuts, all, contents, added);
    }

    static lemma {:induction false} AllMatch(policy: Policy, filters: Bytes, cuts: seq<nat>, groups: seq<seq<Bytes>>,
                                             contents: Bytes, added: set<(nat, Bytes)>)
      requires Filters(policy, filters, cuts, groups) && contents == filters + Words(cuts) + [BASE_LG]
      requires AllKept(added, groups, [])
      ensures IsFilterBlock(policy, groups, contents)
      ensures |contents| < TWO32 ==> forall a <- added :: Reader(contents).MayMatch(policy, a.0, a.1)
    {
      hide Filters, Words, Kept, Reader, FilterBlockReader.MayMatch;
      if |contents| < TWO32 {
        forall a <- added ensures Reader(contents).MayMatch(policy, a.0, a.1) {
          assert Kept(a.0, a.1, groups, []);
          AddedMatches(policy, filters, cuts, groups, contents, a.0, a.1);
        }
      }
    }
  }

  // ---------- the offset array ----------

  ghost function Words(ws: seq<nat>): Bytes {
    if ws == [] then [] else Words(ws[..|ws| - 1]) + Fixed(ws[|ws| - 1], 4)
  }

  lemma {:induction false} NoWords()
    ensures forall ws: seq<nat> :: Words(ws[..0]) == []
  {
  }

  lemma {:induction false} WordsNext(ws: seq<nat>, i: nat)
    requires i < |ws|
    ensures Words(ws[..i + 1]) == Words(ws[..i]) + Fixed(ws[i], 4)
  {
    hide Fixed;
    assert ws[..i + 1][..i] == ws[..i];
  }

  lemma {:induction false} WordAt(ws: seq<nat>, i: nat)
    requires i < |ws| && ws[i] < TWO32
    ensures |Words(ws)| == 4 * |ws| && Unfixed(Words(ws)[4 * i..4 * i + 4]) == ws[i]
  {
    hide Fixed, Unfixed;
    var front := ws[..|ws| - 1];
    WordsLength(front);
    if i == |ws| - 1 {
      assert Words(ws)[4 * i..4 * i + 4] == Fixed(ws[i], 4);
      PowersOf256();
      FixedRoundTrip(ws[i], 4);
    } else {
      WordAt(front, i);
      assert Words(ws)[4 * i..4 * i + 4] == Words(front)[4 * i..4 * i + 4];
    }
  }

  lemma {:induction false} WordsLength(ws: seq<nat>)
    ensures |Words(ws)| == 4 * |ws|
  {
    if ws != [] {
      WordsLength(ws[..|ws| - 1]);
    }
  }

  // ---------- the reader ----------

  /** block_offset >> base_lg. */
  function Index(blockOffset: nat, baseLg: nat): nat {
    if baseLg == 0 then blockOffset else Index(blockOffset / 2, baseLg - 1)
  }

  /** FilterBlockReader::FilterBlockReader: a block that is too short has no filters. */
  function Reader(contents: Bytes): (r: FilterBlockReader)
    ensures r.InBounds()
  {
    var n := |contents|;
    if n < 5 then FilterBlockReader([], 0, 0, 0)
    else
      var lastWord := Unfixed(contents[n - 5..n - 1]);
      if lastWord > n - 5 then FilterBlockReader([], 0, 0, contents[n - 1])
      else FilterBlockReader(contents, lastWord, (n - 5 - lastWord) / 4, contents[n - 1])
  }

  /** The answer for a block offset: that of the filter of its group, and no for an empty group. */
  lemma {:induction false} MatchesGroup(policy: Policy, filters: Bytes, cuts: seq<nat>, groups: seq<seq<Bytes>>,
                                        contents: Bytes, offset: nat, key: Bytes)
    requires Filters(policy, filters, cuts, groups) && contents == filters + Words(cuts) + [BASE_LG]
             && |contents| < TWO32
    ensures var i := offset / BASE;
            if i < |groups| then
              && FilterAt(policy, filters, cuts, groups, i)
              && (Reader(contents).MayMatch(policy, offset, key) <==>
                  MayHold(policy, key, filters[cuts[i]..cuts[i + 1]]))
            else Reader(contents).MayMatch(policy, offset, key)
  {
    hide FilterOf, MayHold, Words, Unfixed, Index;
    var i := offset / BASE;
    WordsLength(cuts);
    FoundWord(filters, cuts, contents, |groups|);
    IndexOf(offset);
    var reader := Reader(contents);
    assert reader == FilterBlockReader(contents, |filters|, |groups|, BASE_LG);
    if i < |groups| {
      assert FilterAt(policy, filters, cuts, groups, i);
      FoundWord(filters, cuts, contents, i);
      FoundWord(filters, cuts, contents, i + 1);
      var filter := contents[cuts[i]..cuts[i + 1]];
      assert filter == filters[cuts[i]..cuts[i + 1]];
    }
  }

  lemma {:induction false} AddedMatches(policy: Policy, filters: Bytes, cuts: seq<nat>, groups: seq<seq<Bytes>>,
                                        contents: Bytes, offset: nat, key: Bytes)
    requires Filters(policy, filters, cuts, groups) && contents == filters + Words(cuts) + [BASE_LG]
             && |contents| < TWO32
    requires Kept(offset, key, groups, [])
    ensures Reader(contents).MayMatch(policy, offset, key)
  {
    hide FilterOf, MayHold, Reader, FilterBlockReader.MayMatch;
    MatchesGroup(policy, filters, cuts, groups, contents, offset, key);
    var i := offset / BASE;
    NoFalseNegatives(policy, groups[i], key, filters[cuts[i]..cuts[i + 1]]);
  }

  lemma {:induction false} FoundWord(filters: Bytes, cuts: seq<nat>, contents: Bytes, i: nat)
    requires i < |cuts| && contents == filters + Words(cuts) + [BASE_LG] && |contents| < TWO32 && cuts[i] <= |filters|
    ensures var at := |filters| + 4 * i; at + 4 <= |contents| && Unfixed(contents[at..at + 4]) == cuts[i]
  {
    hide Words, Unfixed;
    WordAt(cuts, i);
    assert contents[|filters| + 4 * i..|filters| + 4 * i + 4] == Words(cuts)[4 * i..4 * i + 4];
  }

  lemma {:induction false} IndexOf(offset: nat)
    ensures Index(offset, BASE_LG) == offset / BASE
  {
    var a := offset / 16;
    var b := a / 16;
    FourBits(offset, 7);
    FourBits(a, 3);
    OneBit(b, 2);
    OneBit(b / 2, 1);
    OneBit(b / 2 / 2, 0);
    assert b / 2 / 2 / 2 == b / 8;
  }

  lemma {:induction false} OneBit(v: nat, n: nat)
    ensures Index(v, n + 1) == Index(v / 2, n) && Index(v, 0) == v
    ensures Index(v / 2, 0) == v / 2
  {
  }

  lemma {:induction false} FourBits(v: nat, n: nat)
    ensures Index(v, n + 4) == Index(v / 16, n)
  {
    hide Index;
    OneBit(v, n + 3);
    OneBit(v / 2, n + 2);
    OneBit(v / 2 / 2, n + 1);
    OneBit(v / 2 / 2 / 2, n);
    assert v / 2 / 2 / 2 / 2 == v / 16;
  }

  /** data_, the position of the offset array, the number of filters and base_lg_. */
  datatype FilterBlockReader = FilterBlockReader(data: Bytes, offset: nat, num: nat, baseLg: nat) {
    predicate InBounds() {
      num > 0 ==> offset + 4 * num + 5 <= |data|
    }

    /** What KeyMayMatch answers for the block at the given offset. */
    ghost predicate MayMatch(policy: Policy, blockOffset: nat, key: Bytes) {
      InBounds() ==>
        var index := Index(blockOffset, baseLg);
        index < num ==>
          var start, limit := Word(index), Word(index + 1);
          if start <= limit <= offset then BloomFilters.MayHold(policy, key, data[start..limit]) else start != limit
    }

    /** Word i of the offset array. */
    function Word(i: nat): nat
      requires InBounds() && 0 < num && i <= num
    {
      Unfixed(data[offset + 4 * i..offset + 4 * i + 4])
    }

    method KeyMayMatch(policy: Policy, blockOffset: nat, key: Bytes) returns (r: bool)
      requires InBounds()
      ensures r <==> MayMatch(policy, blockOffset, key)
    {
      hide Word, MayHold, Pow2, Index;
      var index := Index(blockOffset, baseLg);
      if index < num {
        var start, limit := Word(index), Word(index + 1);
        if start <= limit && limit <= offset {
          var filter := data[start..limit];
          r := BloomFilters.KeyMayMatch(policy, key, filter);
          return;
        } else if start == limit {
          return false;
        }
      }
      r := true;
    }
  }

  /** The answer depends on the key's hash only. */
  lemma {:induction false} SameHashSameAnswer(reader: FilterBlockReader, p: Policy, a: Bytes, q: Policy, b: Bytes,
                                              offset: nat)
    requires p.hash(a) == q.hash(b)
    ensures reader.MayMatch(p, offset, a) <==> reader.MayMatch(q, offset, b)
  {
    assert Hash(p, a) == Hash(q, b);
  }
}

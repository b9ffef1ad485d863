/** Why a table's index finds the right block: separators between sorted blocks, and point
    lookups that open one block only (table/table_builder.cc, Table::InternalGet). */
module TableIndexes {
  import opened Wrappers
  import opened Coding
  import opened Comparators
  import opened BlockFormat
  import opened BlockScans
  import opened Blocks

  /** The order of internal keys, on byte strings. */
  predicate IOrder(a: Bytes, b: Bytes) {
    |a| >= 8 && |b| >= 8 && ILess(a, b)
  }

  lemma {:induction false} IOrderTransitive()
    ensures Transitive(IOrder)
  {
    forall a, b, c | IOrder(a, b) && IOrder(b, c) ensures IOrder(a, c) {
      ILessTransitive(a, b, c);
    }
  }

  /** The entries of one block. */
  ghost predicate Run(es: seq<Entry>) {
    es != [] && (forall i :: 0 <= i < |es| ==> |es[i].key| >= 8) && Sorted(es, IOrder)
  }

  function First(es: seq<Entry>): IKey
    requires es != [] && |es[0].key| >= 8
  {
    es[0].key
  }

  function Last(es: seq<Entry>): IKey
    requires es != [] && |es[|es| - 1].key| >= 8
  {
    es[|es| - 1].key
  }

  /** Block b is sorted and before the next one. */
  ghost predicate Follows(blocks: seq<seq<Entry>>, b: nat)
    requires b < |blocks|
  {
    Run(blocks[b]) && (b + 1 < |blocks| ==> Run(blocks[b + 1]) && ILess(Last(blocks[b]), First(blocks[b + 1])))
  }

  ghost predicate Runs(blocks: seq<seq<Entry>>) {
    forall b :: 0 <= b < |blocks| ==> Follows(blocks, b)
  }

  /** Index key b may stand between block b and the next one, or after the last one. */
  ghost predicate Separates(blocks: seq<seq<Entry>>, seps: seq<Bytes>, b: nat)
    requires b < |seps| <= |blocks|
  {
    && Follows(blocks, b) && |seps[b]| >= 8
    && if b + 1 < |blocks| then Separator(seps[b], Last(blocks[b]), First(blocks[b + 1]))
       else seps[b] == Last(blocks[b]) || Less(User(Last(blocks[b])), User(seps[b]))
  }

  ghost predicate Indexed(blocks: seq<seq<Entry>>, seps: seq<Bytes>) {
    Runs(blocks) && |seps| <= |blocks| && forall b :: 0 <= b < |seps| ==> Separates(blocks, seps, b)
  }

  // ---------- building ----------

  lemma {:induction false} RunExtends(es: seq<Entry>, e: Entry)
    requires Run(es) && |e.key| >= 8 && ILess(Last(es), e.key)
    ensures Run(es + [e])
  {
    var es' := es + [e];
    forall i, j | 0 <= i < j < |es'| ensures IOrder(es'[i].key, es'[j].key) {
      if j == |es| && i < |es| - 1 {
        assert IOrder(es[i].key, es[|es| - 1].key);
        ILessTransitive(es[i].key, Last(es), e.key);
      }
    }
  }

  /** One more entry in the last block. */
  lemma {:induction false} LastBlockGrows(blocks: seq<seq<Entry>>, seps: seq<Bytes>, open: seq<Entry>, e: Entry)
    requires Indexed(blocks + [open], seps) && |seps| == |blocks|
    requires open != [] && Run(open) && |e.key| >= 8 && ILess(Last(open), e.key)
    ensures Indexed(blocks + [open + [e]], seps)
  {
    hide Sorted;
    var a, c := blocks + [open], blocks + [open + [e]];
    RunExtends(open, e);
    forall b | 0 <= b < |c| ensures Follows(c, b) {
      assert Follows(a, b);
    }
    forall b | 0 <= b < |seps| ensures Separates(c, seps, b) {
      assert Separates(a, seps, b);
    }
  }

  /** A new block, with the separator before it. */
  lemma {:induction false} NewBlock(blocks: seq<seq<Entry>>, seps: seq<Bytes>, sep: IKey, e: Entry)
    requires Indexed(blocks, seps) && blocks != [] && |seps| == |blocks| - 1 && |e.key| >= 8
    requires Follows(blocks, |blocks| - 1) && ILess(Last(blocks[|blocks| - 1]), e.key)
             && Separator(sep, Last(blocks[|blocks| - 1]), e.key)
    ensures Indexed(blocks + [[e]], seps + [sep])
  {
    var c, seps' := blocks + [[e]], seps + [sep];
    forall b | 0 <= b < |c| ensures Follows(c, b) {
      if b < |blocks| {
        assert Follows(blocks, b);
      }
    }
    forall b | 0 <= b < |seps'| ensures Separates(c, seps', b) {
      if b < |seps| {
        assert Separates(blocks, seps, b);
        assert c[b] == blocks[b] && c[b + 1] == blocks[b + 1];
      }
    }
  }

  lemma {:induction false} FirstBlock(e: Entry)
    requires |e.key| >= 8
    ensures Indexed([[e]], [])
  {
  }

  lemma {:induction false} FinalKey(blocks: seq<seq<Entry>>, seps: seq<Bytes>, sep: IKey)
    requires Indexed(blocks, seps) && blocks != [] && |seps| == |blocks| - 1
    requires Follows(blocks, |blocks| - 1) && (sep == Last(blocks[|blocks| - 1])
                                               || Less(User(Last(blocks[|blocks| - 1])), User(sep)))
    ensures Indexed(blocks, seps + [sep])
  {
    forall b | 0 <= b < |blocks| ensures Separates(blocks, seps + [sep], b) {
      if b < |seps| {
        assert Separates(blocks, seps, b);
      }
    }
  }

  // ---------- what the index keys promise ----------

  lemma {:induction false} KeyInRun(es: seq<Entry>, i: nat)
    requires Run(es) && i < |es|
    ensures !ILess(Last(es), es[i].key) && !ILess(es[i].key, First(es))
  {
    forall a: IKey, b: IKey | ILess(a, b) ensures !ILess(b, a) {
      Antisymmetric(a, b);
    }
    ILessIrreflexive(es[i].key);
    assert i < |es| - 1 ==> IOrder(es[i].key, es[|es| - 1].key);
    assert i > 0 ==> IOrder(es[0].key, es[i].key);
  }

  lemma {:induction false} Antisymmetric(a: IKey, b: IKey)
    requires ILess(a, b)
    ensures !ILess(b, a)
  {
    if ILess(b, a) {
      ILessTransitive(a, b, a);
      ILessIrreflexive(a);
    }
  }

  /** Not after, then before: before. */
  lemma {:induction false} NotAfterThenBefore(a: IKey, b: IKey, c: IKey)
    requires !ILess(b, a) && ILess(b, c)
    ensures ILess(a, c)
  {
    ILessTotal(a, b);
    if ILess(a, b) {
      ILessTransitive(a, b, c);
    }
  }

  lemma {:induction false} BeforeThenNotAfter(a: IKey, b: IKey, c: IKey)
    requires ILess(a, b) && !ILess(c, b)
    ensures ILess(a, c)
  {
    ILessTotal(b, c);
    if ILess(b, c) {
      ILessTransitive(a, b, c);
    }
  }

  /** Keys of an earlier block are before keys of a later one. */
  lemma {:induction false} Across(blocks: seq<seq<Entry>>, b: nat, c: nat)
    requires Runs(blocks) && b < c < |blocks|
    ensures Follows(blocks, b) && Follows(blocks, c) && ILess(Last(blocks[b]), First(blocks[c]))
  {
    assert Follows(blocks, b) && Follows(blocks, c) && Follows(blocks, c - 1);
    if b < c - 1 {
      Across(blocks, b, c - 1);
      KeyInRun(blocks[c - 1], |blocks[c - 1]| - 1);
      BeforeThenNotAfter(Last(blocks[b]), First(blocks[c - 1]), Last(blocks[c - 1]));
      ILessTransitive(Last(blocks[b]), Last(blocks[c - 1]), First(blocks[c]));
    }
  }

  /** Each index key is at or after every key of its block and before every key of later blocks. */
  lemma {:induction false} IndexKeyBounds(blocks: seq<seq<Entry>>, seps: seq<Bytes>, b: nat, c: nat, i: nat)
    requires Indexed(blocks, seps) && |seps| == |blocks| && b < |blocks| && c < |blocks| && i < |blocks[c]|
    ensures |seps[b]| >= 8 && |blocks[c][i].key| >= 8
    ensures c <= b ==> !ILess(seps[b], blocks[c][i].key)
    ensures b < c ==> ILess(seps[b], blocks[c][i].key)
  {
    assert Separates(blocks, seps, b) && Follows(blocks, c) && Follows(blocks, b);
    var sep: IKey, key: IKey := seps[b], blocks[c][i].key;
    KeyInRun(blocks[c], i);
    if b < c {
      SeparatorIsBetween(sep, Last(blocks[b]), First(blocks[b + 1]));
      if b + 1 < c {
        Across(blocks, b + 1, c);
        KeyInRun(blocks[b + 1], |blocks[b + 1]| - 1);
        BeforeThenNotAfter(sep, First(blocks[b + 1]), Last(blocks[b + 1]));
        ILessTransitive(sep, Last(blocks[b + 1]), First(blocks[c]));
      }
      BeforeThenNotAfter(sep, First(blocks[c]), key);
    } else {
      NotBeforeLast(blocks, seps, b);
      if ILess(sep, key) {
        if c < b {
          Across(blocks, c, b);
          KeyInRun(blocks[b], |blocks[b]| - 1);
          NotAfterThenBefore(key, Last(blocks[c]), First(blocks[b]));
          BeforeThenNotAfter(key, First(blocks[b]), Last(blocks[b]));
          ILessTransitive(sep, key, Last(blocks[b]));
        } else {
          BeforeThenNotAfter(sep, key, Last(blocks[b]));
        }
      }
    }
  }

  lemma {:induction false} NotBeforeLast(blocks: seq<seq<Entry>>, seps: seq<Bytes>, b: nat)
    requires Indexed(blocks, seps) && b < |seps| && Separates(blocks, seps, b)
    ensures !ILess(seps[b], Last(blocks[b]))
  {
    var sep: IKey := seps[b];
    if b + 1 < |blocks| {
      SeparatorIsBetween(sep, Last(blocks[b]), First(blocks[b + 1]));
    } else if sep == Last(blocks[b]) {
      ILessIrreflexive(sep);
    } else {
      Antisymmetric(Last(blocks[b]), sep);
    }
  }

  /** So the index keys increase. */
  lemma {:induction false} IndexKeysIncrease(blocks: seq<seq<Entry>>, seps: seq<Bytes>, b: nat, c: nat)
    requires Indexed(blocks, seps) && |seps| == |blocks| && b < c < |blocks|
    ensures IOrder(seps[b], seps[c])
  {
    assert Follows(blocks, c);
    IndexKeyBounds(blocks, seps, b, c, 0);
    IndexKeyBounds(blocks, seps, c, c, 0);
    BeforeThenNotAfter(seps[b], blocks[c][0].key, seps[c]);
  }

  // ---------- point lookup ----------

  function Flat(blocks: seq<seq<Entry>>): seq<Entry> {
    if blocks == [] then [] else blocks[0] + Flat(blocks[1..])
  }

  /** The first entry that is not before k. */
  function FirstFrom(es: seq<Entry>, k: IKey): Option<Entry> {
    if es == [] then None else if !IOrder(es[0].key, k) then Some(es[0]) else FirstFrom(es[1..], k)
  }

  lemma {:induction false} FirstFromAppend(a: seq<Entry>, b: seq<Entry>, k: IKey)
    ensures FirstFrom(a + b, k) == if FirstFrom(a, k).Some? then FirstFrom(a, k) else FirstFrom(b, k)
  {
    if a == [] {
      assert a + b == b;
    } else {
      assert (a + b)[1..] == a[1..] + b;
      FirstFromAppend(a[1..], b, k);
    }
  }

  lemma {:induction false} FirstFromIsAt(es: seq<Entry>, k: IKey, p: nat)
    requires p <= |es| && (forall i :: 0 <= i < p ==> IOrder(es[i].key, k)) && (p < |es| ==> !IOrder(es[p].key, k))
    ensures FirstFrom(es, k) == if p < |es| then Some(es[p]) else None
  {
    if p > 0 {
      FirstFromIsAt(es[1..], k, p - 1);
    }
  }

  /** It is one of the entries. */
  lemma {:induction false} FirstFromMember(blocks: seq<seq<Entry>>, k: IKey) returns (b: nat, i: nat)
    requires FirstFrom(Flat(blocks), k).Some?
    ensures b < |blocks| && i < |blocks[b]| && FirstFrom(Flat(blocks), k).value == blocks[b][i]
  {
    FirstFromAppend(blocks[0], Flat(blocks[1..]), k);
    if FirstFrom(blocks[0], k).Some? {
      i := MemberOfRun(blocks[0], k);
      b := 0;
    } else {
      b, i := FirstFromMember(blocks[1..], k);
      b := b + 1;
    }
  }

  lemma {:induction false} MemberOfRun(es: seq<Entry>, k: IKey) returns (i: nat)
    requires FirstFrom(es, k).Some?
    ensures i < |es| && FirstFrom(es, k).value == es[i]
  {
    i := 0;
    if IOrder(es[0].key, k) {
      i := MemberOfRun(es[1..], k);
      i := i + 1;
    }
  }

  /** What a lookup may answer: the first entry from k on, or nothing when that entry does not
      have the user key of k. */
  ghost predicate Answers(entries: seq<Entry>, k: IKey, r: Option<Entry>) {
    var e := FirstFrom(entries, k);
    r == e || (r == None && |e.value.key| >= 8 && User(e.value.key) != User(k))
  }

  /** Blocks that end before k hold nothing from k on. */
  lemma {:induction false} SkipBlocks(blocks: seq<seq<Entry>>, k: IKey, p: nat)
    requires p <= |blocks| && forall b :: 0 <= b < p ==> FirstFrom(blocks[b], k) == None
    ensures FirstFrom(Flat(blocks), k) == FirstFrom(Flat(blocks[p..]), k)
  {
    if p > 0 {
      FirstFromAppend(blocks[0], Flat(blocks[1..]), k);
      SkipBlocks(blocks[1..], k, p - 1);
      assert blocks[1..][p - 1..] == blocks[p..];
    }
  }

  /** The block whose index key is the first not before k is the only one to open. */
  lemma {:induction false} PointLookup(blocks: seq<seq<Entry>>, seps: seq<Bytes>, k: IKey, p: nat)
    requires Indexed(blocks, seps) && |seps| == |blocks| && p <= |blocks|
    requires (forall b :: 0 <= b < p ==> IOrder(seps[b], k)) && (p < |blocks| ==> !IOrder(seps[p], k))
    ensures Answers(Flat(blocks), k, if p < |blocks| then FirstFrom(blocks[p], k) else None)
  {
    forall b | 0 <= b < p ensures FirstFrom(blocks[b], k) == None {
      BlockIsBefore(blocks, seps, k, b);
    }
    SkipBlocks(blocks, k, p);
    if p < |blocks| {
      var rest := blocks[p..];
      assert rest[0] == blocks[p] && rest[1..] == blocks[p + 1..];
      FirstFromAppend(blocks[p], Flat(rest[1..]), k);
      if FirstFrom(blocks[p], k) == None && FirstFrom(Flat(rest[1..]), k) != None {
        var b, i := FirstFromMember(rest[1..], k);
        LaterUserDiffers(blocks, seps, k, p, p + 1 + b, i);
      }
    }
  }

  lemma {:induction false} BlockIsBefore(blocks: seq<seq<Entry>>, seps: seq<Bytes>, k: IKey, b: nat)
    requires Indexed(blocks, seps) && |seps| == |blocks| && b < |blocks| && IOrder(seps[b], k)
    ensures FirstFrom(blocks[b], k) == None
  {
    forall i | 0 <= i < |blocks[b]| ensures IOrder(blocks[b][i].key, k) {
      IndexKeyBounds(blocks, seps, b, b, i);
      NotAfterThenBefore(blocks[b][i].key, seps[b], k);
    }
    FirstFromIsAt(blocks[b], k, |blocks[b]|);
  }

  /** When all of block p is before k and its index key is not, the index key is a made-up one,
      and the user keys of later blocks are after that of k. */
  lemma {:induction false} LaterUserDiffers(blocks: seq<seq<Entry>>, seps: seq<Bytes>, k: IKey, p: nat, c: nat, i: nat)
    requires Indexed(blocks, seps) && |seps| == |blocks| && p < c < |blocks| && i < |blocks[c]|
    requires FirstFrom(blocks[p], k) == None && !IOrder(seps[p], k)
    ensures |blocks[c][i].key| >= 8 && User(blocks[c][i].key) != User(k)
  {
    hide Sorted, User, Tag, Less, ILess, FirstFrom;
    assert Separates(blocks, seps, p) && Follows(blocks, p) && Follows(blocks, p + 1) && Follows(blocks, c);
    NothingFrom(blocks[p], k, |blocks[p]| - 1);
    assert seps[p] != Last(blocks[p]);
    NotBeforeFirst(blocks, p + 1, c, i);
    UsersApart(k, seps[p], First(blocks[p + 1]), blocks[c][i].key);
    LessIrreflexive(User(k));
  }

  lemma {:induction false} NotBeforeFirst(blocks: seq<seq<Entry>>, b: nat, c: nat, i: nat)
    requires Runs(blocks) && b <= c < |blocks| && i < |blocks[c]| && Follows(blocks, b) && Follows(blocks, c)
    ensures |blocks[c][i].key| >= 8 && !ILess(blocks[c][i].key, First(blocks[b]))
  {
    hide Sorted, User, Tag, ILess;
    KeyInRun(blocks[c], i);
    if b < c {
      Across(blocks, b, c);
      KeyInRun(blocks[b], 0);
      NotAfterThenBefore(First(blocks[b]), Last(blocks[b]), First(blocks[c]));
      BeforeThenNotAfter(First(blocks[b]), First(blocks[c]), blocks[c][i].key);
      Antisymmetric(First(blocks[b]), blocks[c][i].key);
    }
  }

  lemma {:induction false} NothingFrom(es: seq<Entry>, k: IKey, i: nat)
    requires FirstFrom(es, k) == None && i < |es|
    ensures IOrder(es[i].key, k)
  {
    if i > 0 {
      NothingFrom(es[1..], k, i - 1);
    }
  }

  lemma {:induction false} UsersApart(k: IKey, sep: IKey, first: IKey, key: IKey)
    requires !ILess(sep, k) && Less(User(sep), User(first)) && !ILess(key, first)
    ensures Less(User(k), User(key))
  {
    LessTotal(User(sep), User(k));
    LessTotal(User(first), User(key));
    if Less(User(k), User(sep)) {
      LessTransitive(User(k), User(sep), User(first));
    }
    if Less(User(first), User(key)) {
      LessTransitive(User(k), User(first), User(key));
    }
  }
}

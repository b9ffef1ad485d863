/** MemTable (db/memtable.cc): entries of length-prefixed internal key and value, ordered by
    the internal key comparator.  The table is kept as the sequence of its entries, as the
    skip list orders them. */
module MemTables {
  import opened Wrappers
  import opened Coding
  import opened Comparators

  /** A write; kind is 0 for a deletion and 1 for a value. */
  datatype Item = Item(sequence: nat, kind: nat, key: Bytes, value: Bytes) {
    function Tag(): nat {
      sequence * 256 + kind
    }

    predicate Fits() {
      sequence <= MAX_SEQUENCE && kind <= 1 && |key| + 8 < TWO32 && |value| < TWO32
    }

    function Internal(): IKey {
      Pack(key, Tag())
    }

    function Encode(): Bytes {
      LengthPrefixed(Internal()) + LengthPrefixed(value)
    }
  }

  lemma {:induction false} ItemParts(x: Item)
    requires x.Fits()
    ensures GetLengthPrefixed(x.Encode()) == Some((x.Internal(), LengthPrefixed(x.value)))
    ensures GetLengthPrefixed(LengthPrefixed(x.value)) == Some((x.value, []))
    ensures User(x.Internal()) == x.key && Tag(x.Internal()) == x.Tag()
  {
    hide GetLengthPrefixed, LengthPrefixed;
    GetLengthPrefixedOf(x.Internal(), LengthPrefixed(x.value));
    assert LengthPrefixed(x.value) + [] == LengthPrefixed(x.value);
    GetLengthPrefixedOf(x.value, []);
    PackRoundTrip(x.key, x.Tag());
  }

  /** Before in the order of the table. */
  predicate ItemLess(a: Item, b: Item) {
    Less(a.key, b.key) || (a.key == b.key && a.Tag() > b.Tag())
  }

  /** The newest item of a user key that a reader at sequence s may see. */
  ghost predicate Newest(items: seq<Item>, i: nat, user: Bytes, s: nat) {
    && i < |items| && items[i].key == user && items[i].sequence <= s
    && forall j :: 0 <= j < |items| && items[j].key == user && items[j].sequence <= s ==>
       items[j].Tag() <= items[i].Tag()
  }

  ghost predicate Ordered(items: seq<Item>) {
    forall i, j :: 0 <= i < j < |items| ==> ItemLess(items[i], items[j])
  }

  lemma {:induction false} ItemLessTransitive(a: Item, b: Item, c: Item)
    requires ItemLess(a, b) && ItemLess(b, c)
    ensures ItemLess(a, c)
  {
    if Less(a.key, b.key) && Less(b.key, c.key) {
      LessTransitive(a.key, b.key, c.key);
    }
  }

  datatype Found = Missing | Deleted | Present(value: Bytes)

  class MemTable {
    var table: seq<Bytes>
    ghost var items: seq<Item>

    ghost predicate Valid()
      reads this
    {
      Ordered(items) && |table| == |items| && forall i :: 0 <= i < |items| ==>
        items[i].Fits() && table[i] == items[i].Encode()
    }

    constructor ()
      ensures Valid() && items == []
    {
      table, items := [], [];
    }

    /** KeyComparator: is the entry's internal key before k? */
    method EntryBefore(entry: Bytes, k: IKey, ghost x: Item) returns (r: bool)
      requires x.Fits() && entry == x.Encode()
      ensures r <==> Less(x.key, User(k)) || (x.key == User(k) && x.Tag() > Tag(k))
    {
      hide Item.Encode, Item.Internal, Item.Tag, GetLengthPrefixed, Comparators.Tag;
      ItemParts(x);
      var a := GetLengthPrefixed(entry).value.0;
      r := ILess(a, k);
    }

    /** The place of the first entry that is not before k. */
    method FindGreaterOrEqual(k: IKey) returns (p: nat)
      requires Valid()
      ensures p <= |items|
      ensures forall i :: 0 <= i < p ==>
              Less(items[i].key, User(k)) || (items[i].key == User(k) && items[i].Tag() > Tag(k))
      ensures p < |items| ==> !(Less(items[p].key, User(k)) || (items[p].key == User(k) && items[p].Tag() > Tag(k)))
    {
      hide Item.Encode, Item.Tag, User, Comparators.Tag;
      p := 0;
      while p < |table|
        invariant p <= |table|
        invariant forall i :: 0 <= i < p ==>
                  Less(items[i].key, User(k)) || (items[i].key == User(k) && items[i].Tag() > Tag(k))
      {
        var before := EntryBefore(table[p], k, items[p]);
        if !before {
          return;
        }
        p := p + 1;
      }
    }

    /** Encode an entry and insert it at its place; no entry may have the same internal key. */
    method Add(s: nat, kind: nat, key: Bytes, value: Bytes)
      requires Valid() && Item(s, kind, key, value).Fits()
      requires forall i :: 0 <= i < |items| && items[i].key == key ==> items[i].Tag() != Item(s, kind, key, value).Tag()
      modifies this
      ensures Valid()
      ensures exists p ::
              0 <= p <= |old(items)| && items == old(items)[..p] + [Item(s, kind, key, value)] + old(items)[p..]
    {
      hide Item.Encode, Item.Internal, Item.Fits, Comparators.Tag, User;
      ghost var x := Item(s, kind, key, value);
      var internal, buf := EncodeEntry(s, kind, key, value);
      ItemParts(x);
      var p := FindGreaterOrEqual(internal);
      InsertOrdered(items, p, x);
      table := table[..p] + [buf] + table[p..];
      items := items[..p] + [x] + items[p..];
    }

    static method EncodeEntry(s: nat, kind: nat, key: Bytes, value: Bytes) returns (internal: IKey, buf: Bytes)
      requires Item(s, kind, key, value).Fits()
      ensures internal == Item(s, kind, key, value).Internal() && buf == Item(s, kind, key, value).Encode()
    {
      ghost var x := Item(s, kind, key, value);
      var internalKeySize, valueSize := |key| + 8, |value|;
      var n := VarintLength(internalKeySize);
      var m := VarintLength(valueSize);
      var encodedLength := n + internalKeySize + m + valueSize;
      internal := key + Fixed(s * 256 + kind, 8);
      InternalIs(x);
      buf := PutVarint32([], internalKeySize);
      buf := buf + internal;
      buf := PutVarint32(buf, valueSize);
      buf := buf + value;
      EncodeIs(x, buf);
      assert |buf| == encodedLength;
    }

    static lemma {:induction false} InternalIs(x: Item)
      ensures x.Internal() == x.key + Fixed(x.sequence * 256 + x.kind, 8)
    {
    }

    static lemma {:induction false} EncodeIs(x: Item, buf: Bytes)
      requires x.Fits() && buf == [] + Varint(|x.key| + 8) + x.Internal() + Varint(|x.value|) + x.value
      ensures buf == x.Encode()
    {
      hide Varint;
      assert |x.Internal()| == |x.key| + 8;
    }

    static lemma {:induction false} InsertOrdered(items: seq<Item>, p: nat, x: Item)
      requires Ordered(items) && p <= |items|
      requires forall i :: 0 <= i < p ==> ItemLess(items[i], x)
      requires p < |items| ==> !ItemLess(items[p], x) && !(items[p].key == x.key && items[p].Tag() == x.Tag())
      ensures Ordered(items[..p] + [x] + items[p..])
    {
      var r := items[..p] + [x] + items[p..];
      if p < |items| {
        LessTotal(items[p].key, x.key);
        assert ItemLess(x, items[p]);
      }
      forall i, j | 0 <= i < j < |r| ensures ItemLess(r[i], r[j]) {
        if i == p && j > p + 1 {
          ItemLessTransitive(x, items[p], items[j - 1]);
        }
      }
    }

    /** The newest version of the key with sequence at most s, if there is one. */
    method Get(user: Bytes, s: nat) returns (r: Found)
      requires Valid() && s <= MAX_SEQUENCE && |user| + 8 < TWO32
      ensures match r
              case Missing => forall i :: 0 <= i < |items| && items[i].key == user ==> items[i].sequence > s
              case Deleted => exists i: nat :: Newest(items, i, user, s) && items[i].kind == 0
              case Present(v) => exists i: nat :: Newest(items, i, user, s) && items[i].kind == 1 && items[i].value == v
    {
      hide Item.Encode, Item.Internal, User, Comparators.Tag, GetLengthPrefixed, LengthPrefixed, Ordered, Newest, Less;
      var key := Pack(user, s * 256 + 1);
      PackRoundTrip(user, s * 256 + 1);
      var p := FindGreaterOrEqual(key);
      SearchDecides(items, p, user, s);
      if p < |table| {
        ItemParts(items[p]);
        var entry := GetLengthPrefixed(table[p]).value;
        if User(entry.0) == user {
          var tag := Tag(entry.0);
          if tag % 256 == 1 {
            var v := GetLengthPrefixed(entry.1).value.0;
            return Present(v);
          }
          return Deleted;
        }
      }
      r := Missing;
    }

    /** The first item from the lookup key on is the newest one, if it has the user key at all. */
    static lemma {:induction false} SearchDecides(items: seq<Item>, p: nat, user: Bytes, s: nat)
      requires Ordered(items) && p <= |items| && forall i :: 0 <= i < |items| ==> items[i].Fits()
      requires forall i :: 0 <= i < p ==>
               Less(items[i].key, user) || (items[i].key == user && items[i].Tag() > s * 256 + 1)
      requires p < |items| ==> !(Less(items[p].key, user) || (items[p].key == user && items[p].Tag() > s * 256 + 1))
      ensures if p < |items| && items[p].key == user then Newest(items, p, user, s)
              else forall i :: 0 <= i < |items| && items[i].key == user ==> items[i].sequence > s
    {
      LessIrreflexive(user);
      if p < |items| {
        if items[p].key == user {
          NewestAt(items, p, user, s);
        } else {
          NoneAfter(items, p, user);
        }
      }
    }

    static lemma {:induction false} NewestAt(items: seq<Item>, p: nat, user: Bytes, s: nat)
      requires Ordered(items) && p < |items| && (forall i :: 0 <= i < |items| ==> items[i].Fits())
               && items[p].key == user
      requires forall i :: 0 <= i < p ==>
               Less(items[i].key, user) || (items[i].key == user && items[i].Tag() > s * 256 + 1)
      requires !(items[p].Tag() > s * 256 + 1)
      ensures Newest(items, p, user, s)
    {
      LessIrreflexive(user);
      forall j | 0 <= j < |items| && items[j].key == user && items[j].sequence <= s
        ensures items[j].Tag() <= items[p].Tag()
      {
        if j > p {
          assert ItemLess(items[p], items[j]);
        }
      }
    }

    static lemma {:induction false} NoneAfter(items: seq<Item>, p: nat, user: Bytes)
      requires Ordered(items) && p < |items| && items[p].key != user && !Less(items[p].key, user)
      ensures forall i :: p <= i < |items| ==> items[i].key != user
    {
      LessTotal(items[p].key, user);
      forall i | p < i < |items| ensures items[i].key != user {
        assert ItemLess(items[p], items[i]);
        if Less(items[p].key, items[i].key) {
          LessTransitive(user, items[p].key, items[i].key);
        }
        LessIrreflexive(user);
      }
    }
  }
}

/** The block format (table/block_builder.cc): entries with shared key prefixes, and the
    offsets of the entries that share nothing, the restart points. */
module BlockFormat {
  import opened Coding

  datatype Entry = Entry(key: Bytes, value: Bytes)

  /** One entry, which shares `shared` bytes of its key with the previous entry. */
  function Encode(shared: nat, e: Entry): (r: Bytes)
    requires shared <= |e.key|
    ensures |r| >= 3
  {
    Varint(shared) + (Varint(|e.key| - shared) + (Varint(|e.value|) + (e.key[shared..] + e.value)))
  }

  /** A block's entries, the prefix length each shares, and which entries are restart points. */
  datatype Layout = Layout(entries: seq<Entry>, shared: seq<nat>, starts: seq<nat>) {
    ghost predicate Valid() {
      && AllShare()
      && starts != [] && starts[0] == 0
      && (forall j, k :: 0 <= j < k < |starts| ==> starts[j] < starts[k])
      && (forall j :: 0 <= j < |starts| ==> if starts[j] < |entries| then shared[starts[j]] == 0 else j == 0)
    }

    ghost predicate AllShare() {
      |shared| == |entries| && forall i :: 0 <= i < |entries| ==> Shares(i)
    }

    /** Entry i begins with the bytes it shares with the entry before it. */
    ghost predicate Shares(i: nat)
      requires i < |entries| == |shared|
    {
      && shared[i] <= |entries[i].key|
      && Continues(i, if i == 0 then [] else entries[i - 1].key)
    }

    /** After key `last` entry i can be rebuilt. */
    ghost predicate Continues(i: nat, last: Bytes)
      requires i < |entries| == |shared|
    {
      shared[i] <= |entries[i].key| && shared[i] <= |last| && last[..shared[i]] == entries[i].key[..shared[i]]
    }

    /** The first n entries. */
    ghost function Body(n: nat): Bytes
      requires AllShare() && n <= |entries|
    {
      if n == 0 then []
      else
        assert Shares(n - 1);
        Body(n - 1) + Encode(shared[n - 1], entries[n - 1])
    }

    ghost function Offset(n: nat): nat
      requires AllShare() && n <= |entries|
    {
      |Body(n)|
    }

    ghost function RestartArray(n: nat): Bytes
      requires n <= |starts| && Valid()
    {
      if n == 0 then [] else RestartArray(n - 1) + Fixed(Offset(starts[n - 1]), 4)
    }

    ghost function Contents(): Bytes
      requires Valid()
    {
      Body(|entries|) + (RestartArray(|starts|) + Fixed(|starts|, 4))
    }

    lemma {:induction false} StartInRange(j: nat)
      requires Valid() && j < |starts|
      ensures starts[j] <= |entries|
    {
    }

    lemma {:induction false} BodyPrefix(m: nat, n: nat)
      requires Valid() && m <= n <= |entries|
      ensures Body(m) <= Body(n)
      ensures m < n ==> Offset(m) + 3 <= Offset(n)
    {
      if m < n {
        BodyPrefix(m, n - 1);
      }
    }

    /** Entry i stands at its offset. */
    lemma {:induction false} EntryAt(i: nat)
      requires Valid() && i < |entries|
      ensures Offset(i) < Offset(i + 1) <= Offset(|entries|)
      ensures Shares(i) && Body(|entries|)[Offset(i)..Offset(i + 1)] == Encode(shared[i], entries[i])
    {
      hide Encode;
      BodyPrefix(i + 1, |entries|);
      var b := Body(|entries|);
      assert Shares(i);
      assert b[..Offset(i + 1)] == Body(i) + Encode(shared[i], entries[i]);
      assert b[Offset(i)..Offset(i + 1)] == b[..Offset(i + 1)][Offset(i)..];
    }

    lemma {:induction false} RestartArrayLength(n: nat)
      requires Valid() && n <= |starts|
      ensures |RestartArray(n)| == 4 * n
    {
      if n > 0 {
        RestartArrayLength(n - 1);
      }
    }

    lemma {:induction false} RestartAt(j: nat, n: nat)
      requires Valid() && j < n <= |starts| && Offset(starts[j]) < TWO32
      ensures |RestartArray(n)| == 4 * n
      ensures Unfixed(RestartArray(n)[4 * j..4 * j + 4]) == Offset(starts[j])
    {
      RestartArrayLength(n);
      RestartArrayLength(n - 1);
      if j == n - 1 {
        assert RestartArray(n)[4 * j..4 * j + 4] == Fixed(Offset(starts[j]), 4);
        PowersOf256();
        FixedRoundTrip(Offset(starts[j]), 4);
      } else {
        RestartAt(j, n - 1);
        assert RestartArray(n)[4 * j..4 * j + 4] == RestartArray(n - 1)[4 * j..4 * j + 4];
      }
    }

    /** What a reader finds at the end of the block. */
    lemma {:induction false} Trailer()
      requires Valid() && |Contents()| < TWO32
      ensures var b := Contents();
              && |b| == Offset(|entries|) + 4 * |starts| + 4
              && Unfixed(b[|b| - 4..]) == |starts|
              && b[..Offset(|entries|)] == Body(|entries|)
    {
      var b := Contents();
      RestartArrayLength(|starts|);
      PowersOf256();
      FixedRoundTrip(|starts|, 4);
      assert b[|b| - 4..] == Fixed(|starts|, 4);
    }

    lemma {:induction false} RestartPoint(j: nat)
      requires Valid() && |Contents()| < TWO32 && j < |starts|
      ensures var at := Offset(|entries|) + 4 * j;
              at + 4 <= |Contents()| && Unfixed(Contents()[at..at + 4]) == Offset(starts[j])
    {
      hide Fixed, Unfixed, Body;
      var n := Offset(|entries|);
      RestartArrayLength(|starts|);
      StartInRange(j);
      BodyPrefix(starts[j], |entries|);
      RestartAt(j, |starts|);
      assert Contents()[n + 4 * j..n + 4 * j + 4] == RestartArray(|starts|)[4 * j..4 * j + 4];
    }
  }
}

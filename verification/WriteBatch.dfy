/** Batches of updates (db/write_batch.cc): an eight-byte sequence number, a four-byte
    count, and the operations one after another. */
module WriteBatches {
  import opened Wrappers
  import opened Coding

  const HEADER: nat := 12

  datatype Op = Put(key: Bytes, value: Bytes) | Delete(key: Bytes) {
    /** The lengths fit the varints that carry them. */
    predicate Fits() {
      |key| < TWO32 && (Put? ==> |value| < TWO32)
    }
  }

  datatype Status = Ok | Corruption(reason: string)

  function EncodeOp(op: Op): (r: Bytes)
    ensures r != []
  {
    match op
    case Put(key, value) => [1] + LengthPrefixed(key) + LengthPrefixed(value)
    case Delete(key) => [0] + LengthPrefixed(key)
  }

  function EncodeOps(ops: seq<Op>): Bytes {
    if ops == [] then [] else EncodeOp(ops[0]) + EncodeOps(ops[1..])
  }

  /** The representation of a batch. */
  function Rep(sequence: nat, ops: seq<Op>): (r: Bytes)
    ensures |r| == HEADER + |EncodeOps(ops)|
  {
    Fixed(sequence, 8) + Fixed(|ops|, 4) + EncodeOps(ops)
  }

  ghost predicate AllFit(ops: seq<Op>) {
    forall i :: 0 <= i < |ops| ==> ops[i].Fits()
  }

  lemma {:induction false} EncodeOpsConcat(a: seq<Op>, b: seq<Op>)
    ensures EncodeOps(a + b) == EncodeOps(a) + EncodeOps(b)
  {
    if a == [] {
      assert a + b == b;
    } else {
      assert (a + b)[1..] == a[1..] + b;
      EncodeOpsConcat(a[1..], b);
    }
  }

  lemma {:induction false} EncodeOpsLength(ops: seq<Op>)
    ensures |ops| <= |EncodeOps(ops)|
  {
    if ops != [] {
      EncodeOpsLength(ops[1..]);
    }
  }

  // ---------- reading a batch ----------

  datatype Parsed = Next(op: Op, rest: Bytes) | Bad(reason: string)

  function ParseOp(input: Bytes): (r: Parsed)
    requires input != []
    ensures r.Next? ==> |r.rest| < |input|
  {
    if input[0] == 1 then
      match GetLengthPrefixed(input[1..])
      case None => Bad("bad WriteBatch Put")
      case Some(k) =>
        match GetLengthPrefixed(k.1)
        case None => Bad("bad WriteBatch Put")
        case Some(v) => Next(Put(k.0, v.0), v.1)
    else if input[0] == 0 then
      match GetLengthPrefixed(input[1..])
      case None => Bad("bad WriteBatch Delete")
      case Some(k) => Next(Delete(k.0), k.1)
    else Bad("unknown WriteBatch tag")
  }

  /** The operations up to the first malformed one, and the verdict. */
  function ParseOps(input: Bytes): (seq<Op>, Status)
    decreases |input|
  {
    if input == [] then ([], Ok)
    else
      match ParseOp(input)
      case Bad(reason) => ([], Corruption(reason))
      case Next(op, rest) => var r := ParseOps(rest); ([op] + r.0, r.1)
  }

  function Sequence(rep: Bytes): nat
    requires |rep| >= HEADER
  {
    Unfixed(rep[..8])
  }

  function Count(rep: Bytes): nat
    requires |rep| >= HEADER
  {
    Unfixed(rep[8..HEADER])
  }

  /** What a handler is called with, and how the iteration ends. */
  function Iterated(rep: Bytes): (seq<Op>, Status) {
    if |rep| < HEADER then ([], Corruption("malformed WriteBatch (too small)"))
    else
      var r := ParseOps(rep[HEADER..]);
      if r.1 == Ok && |r.0| != Count(rep) then (r.0, Corruption("WriteBatch has wrong count")) else r
  }

  lemma {:induction false} ParseOpOf(op: Op, rest: Bytes)
    requires op.Fits()
    ensures ParseOp(EncodeOp(op) + rest) == Next(op, rest)
  {
    hide LengthPrefixed, GetLengthPrefixed;
    match op
    case Put(key, value) =>
      GetLengthPrefixedOf(key, LengthPrefixed(value) + rest);
      GetLengthPrefixedOf(value, rest);
      assert (EncodeOp(op) + rest)[1..] == LengthPrefixed(key) + (LengthPrefixed(value) + rest);
    case Delete(key) =>
      GetLengthPrefixedOf(key, rest);
      assert (EncodeOp(op) + rest)[1..] == LengthPrefixed(key) + rest;
  }

  lemma {:induction false} ParseOpsOf(ops: seq<Op>)
    requires AllFit(ops)
    ensures ParseOps(EncodeOps(ops)) == (ops, Ok)
  {
    hide ParseOp, EncodeOp;
    if ops != [] {
      var op, rest := ops[0], EncodeOps(ops[1..]);
      ParseOpOf(op, rest);
      ParseOpsOf(ops[1..]);
      assert EncodeOps(ops) == EncodeOp(op) + rest && |EncodeOp(op)| > 0;
      assert [op] + ops[1..] == ops;
    }
  }

  /** Reading back what was written gives the operations, the count and the sequence. */
  lemma {:induction false} BatchRoundTrip(sequence: nat, ops: seq<Op>)
    requires AllFit(ops) && sequence < TWO64 && |ops| < TWO32
    ensures var rep := Rep(sequence, ops);
            Iterated(rep) == (ops, Ok) && Sequence(rep) == sequence && Count(rep) == |ops|
  {
    var rep := Rep(sequence, ops);
    assert rep[..8] == Fixed(sequence, 8) && rep[8..HEADER] == Fixed(|ops|, 4) && rep[HEADER..] == EncodeOps(ops);
    PowersOf256();
    FixedRoundTrip(sequence, 8);
    FixedRoundTrip(|ops|, 4);
    ParseOpsOf(ops);
  }

  /** WriteBatch::Iterate over any string of bytes. */
  method Iterate(rep: Bytes) returns (calls: seq<Op>, status: Status)
    ensures (calls, status) == Iterated(rep)
  {
    if |rep| < HEADER {
      return [], Corruption("malformed WriteBatch (too small)");
    }
    calls, status := IterateOps(rep[HEADER..]);
    if status == Ok && |calls| != Count(rep) {
      status := Corruption("WriteBatch has wrong count");
    }
  }

  /** The loop of Iterate. */
  method IterateOps(contents: Bytes) returns (calls: seq<Op>, status: Status)
    ensures (calls, status) == ParseOps(contents)
  {
    hide ParseOp;
    var input := contents;
    calls := [];
    assert calls + ParseOps(input).0 == ParseOps(input).0;
    while input != []
      invariant ParseOps(contents) == (calls + ParseOps(input).0, ParseOps(input).1)
      decreases |input|
    {
      match ParseOp(input)
      case Bad(reason) =>
        assert calls + [] == calls;
        return calls, Corruption(reason);
      case Next(op, rest) =>
        assert ParseOps(input) == ([op] + ParseOps(rest).0, ParseOps(rest).1);
        assert calls + ([op] + ParseOps(rest).0) == calls + [op] + ParseOps(rest).0;
        calls := calls + [op];
        input := rest;
    }
    assert calls + [] == calls;
    status := Ok;
  }

  // ---------- the batch object ----------

  class WriteBatch {
    var rep: Bytes
    ghost var sequence: nat
    ghost var ops: seq<Op>

    ghost predicate Valid()
      reads this
    {
      rep == Rep(sequence, ops) && AllFit(ops) && |ops| < TWO32 && sequence < TWO64
    }

    constructor ()
      ensures Valid() && ops == [] && sequence == 0
    {
      rep := seq(HEADER, _ => 0);
      sequence, ops := 0, [];
      new;
      ZeroHeader();
    }

    method Clear()
      modifies this
      ensures Valid() && ops == [] && sequence == 0
    {
      rep := seq(HEADER, _ => 0);
      sequence, ops := 0, [];
      ZeroHeader();
    }

    method SetCount(n: nat)
      requires |rep| >= HEADER
      modifies `rep
      ensures rep == old(rep)[..8] + Fixed(n, 4) + old(rep)[HEADER..]
    {
      rep := rep[..8] + Fixed(n, 4) + rep[HEADER..];
    }

    method SetSequence(s: nat)
      requires Valid() && s < TWO64
      modifies this
      ensures Valid() && sequence == s && ops == old(ops)
    {
      rep := Fixed(s, 8) + rep[8..];
      sequence := s;
    }

    /** Raise the count by n, before n operations are appended. */
    method AddToCount(n: nat)
      requires Valid()
      modifies `rep
      ensures rep == Fixed(sequence, 8) + Fixed(|ops| + n, 4) + EncodeOps(ops)
    {
      hide Fixed, EncodeOps;
      BatchRoundTrip(sequence, ops);
      assert rep[..8] == Fixed(sequence, 8) && rep[HEADER..] == EncodeOps(ops);
      SetCount(Count(rep) + n);
    }

    method Put(key: Bytes, value: Bytes)
      requires Valid() && |ops| + 1 < TWO32 && Op.Put(key, value).Fits()
      modifies this
      ensures Valid() && sequence == old(sequence) && ops == old(ops) + [Op.Put(key, value)]
    {
      hide Fixed, EncodeOps, LengthPrefixed;
      AddToCount(1);
      rep := rep + [1];
      rep := rep + LengthPrefixed(key);
      rep := rep + LengthPrefixed(value);
      Grown(sequence, ops, Op.Put(key, value));
      ops := ops + [Op.Put(key, value)];
    }

    method Delete(key: Bytes)
      requires Valid() && |ops| + 1 < TWO32 && Op.Delete(key).Fits()
      modifies this
      ensures Valid() && sequence == old(sequence) && ops == old(ops) + [Op.Delete(key)]
    {
      hide Fixed, EncodeOps, LengthPrefixed;
      AddToCount(1);
      rep := rep + [0];
      rep := rep + LengthPrefixed(key);
      Grown(sequence, ops, Op.Delete(key));
      ops := ops + [Op.Delete(key)];
    }

    /** Append another batch, given by its representation. */
    method Append(src: Bytes, ghost srcSequence: nat, ghost srcOps: seq<Op>)
      requires Valid() && src == Rep(srcSequence, srcOps) && AllFit(srcOps) && srcSequence < TWO64
      requires |ops| + |srcOps| < TWO32
      modifies this
      ensures Valid() && sequence == old(sequence) && ops == old(ops) + srcOps
    {
      hide Fixed, EncodeOps, Op.Fits;
      BatchRoundTrip(srcSequence, srcOps);
      RepBody(srcSequence, srcOps);
      AddToCount(Count(src));
      rep := rep + src[HEADER..];
      GrownBy(sequence, ops, srcOps);
      ops := ops + srcOps;
    }

    static lemma {:induction false} RepBody(sequence: nat, ops: seq<Op>)
      ensures |Rep(sequence, ops)| >= HEADER && Rep(sequence, ops)[HEADER..] == EncodeOps(ops)
    {
    }

    static lemma {:induction false} GrownBy(sequence: nat, ops: seq<Op>, more: seq<Op>)
      ensures Fixed(sequence, 8) + Fixed(|ops| + |more|, 4) + EncodeOps(ops) + EncodeOps(more) ==
              Rep(sequence, ops + more)
    {
      hide Fixed, EncodeOps;
      EncodeOpsConcat(ops, more);
    }

    static lemma {:induction false} Grown(sequence: nat, ops: seq<Op>, op: Op)
      ensures Fixed(sequence, 8) + Fixed(|ops| + 1, 4) + EncodeOps(ops) + EncodeOp(op) == Rep(sequence, ops + [op])
    {
      hide Fixed, EncodeOp;
      assert EncodeOps([op]) == EncodeOp(op) by {
        assert [op][1..] == [];
      }
      GrownBy(sequence, ops, [op]);
    }

    static lemma {:induction false} ZeroHeader()
      ensures Rep(0, []) == seq(HEADER, _ => 0)
    {
      ZeroFixed(8);
      ZeroFixed(4);
    }

    static lemma {:induction false} ZeroFixed(n: nat)
      ensures Fixed(0, n) == seq(n, _ => 0)
    {
      if n > 0 {
        ZeroFixed(n - 1);
      }
    }
  }
}

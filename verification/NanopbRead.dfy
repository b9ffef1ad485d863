/** What nanopb reads from any bytes: the message that pb_decode gives, or that it refuses
    (nanopb/pb_decode.c). */
module NanopbReadings {
  import opened Wrappers
  import opened Coding
  import opened NanopbMessages
  import opened NanopbEncoding
  import opened NanopbStreams

  // ---------- storage before decoding ----------

  /** Zeroed storage (memset). */
  function ZeroedValue(f: Field): Value
    decreases f, 0
  {
    match f.ltype
    case SubMessage(d) => Sub(ZeroedMsg(d))
    case BytesType => Blob([])
    case StringType => Blob([])
    case FixedLengthBytes => Blob(seq(f.dataSize, _ => 0))
    case _ => Int(0)
  }

  function ZeroedSlot(f: Field): Slot
    decreases f, 1
  {
    match f.htype
    case Repeated => Array(0, seq(f.arraySize, _ => ZeroedValue(f)))
    case OneOf => Choice(0, ZeroedValue(f), {})
    case _ => Single(false, ZeroedValue(f))
  }

  function ZeroedMsg(d: Desc): Msg
    decreases d, 2
  {
    Msg(seq(d.slotCount, i requires 0 <= i < d.slotCount => ZeroedAt(d, i, |d.fields|)))
  }

  /** The zeroed storage of slot i, as the last of the first n fields that has it sees it. */
  function ZeroedAt(d: Desc, i: nat, n: nat): Slot
    requires n <= |d.fields|
    decreases d, 1, n
  {
    if n == 0 then Single(false, Int(0))
    else if d.fields[n - 1].slot == i then ZeroedSlot(d.fields[n - 1])
    else ZeroedAt(d, i, n - 1)
  }

  /** A message with the default of each field; array contents and unions are not touched. */
  function Defaulted(d: Desc, m: Msg): Msg
    decreases d, 1
  {
    DefaultedTo(d, m, |d.fields|)
  }

  /** The first n fields are done. */
  function DefaultedTo(d: Desc, m: Msg, n: nat): Msg
    requires n <= |d.fields|
    decreases d, 0, n
  {
    if n == 0 then m
    else
      var done, slot := DefaultedTo(d, m, n - 1), d.fields[n - 1].slot;
      if slot < |done.slots| then Msg(done.slots[slot := DefaultedSlot(d.fields[n - 1], done.slots[slot])]) else done
  }

  function DefaultedSlot(f: Field, s: Slot): Slot
    decreases f, 1
  {
    match s
    case Array(_, items) => Array(0, items)
    case Choice(_, member, zeroAs) => Choice(0, member, zeroAs)
    case Single(has, value) =>
      Single(if f.htype == Optional then false else has, DefaultedValue(f, value))
  }

  function DefaultedValue(f: Field, v: Value): Value
    decreases f, 0
  {
    match f.ltype
    case SubMessage(d) => if v.Sub? then Sub(Defaulted(d, v.m)) else v
    case _ => f.dflt
  }

  // ---------- integers ----------

  /** A C cast of an unsigned number to the signed type of the same width. */
  function ToSigned(u: nat, bound: nat): int {
    if 2 * u >= bound then u - bound else u
  }

  /** A cast to the width of the field, and the check that it lost nothing. */
  function Clamped(v: int, size: nat, signed: bool): Option<int> {
    var low := v % Bound(size);
    var r := if signed then ToSigned(low, Bound(size)) else low;
    if IntegerSize(size) && r == v then Some(r) else None
  }

  /** pb_decode_svarint undoes the zigzag. */
  function UnZigZag(u: nat): int {
    if u % 2 == 1 then -(u / 2) - 1 else u / 2
  }

  /** The number a varint stands for, before it is cast to the size of the field. */
  function Widened(f: Field, value: nat): int {
    if f.ltype.UVarIntType? then value
    else if f.ltype.SVarIntType? then UnZigZag(value)
    else if f.dataSize == 8 then ToSigned(value, TWO64)
    else ToSigned(value % TWO32, TWO32)
  }

  // ---------- values ----------

  /** What the length at the front says, and the bytes after it. */
  function ReadBody(bs: Bytes): (r: Option<(Bytes, Bytes)>)
    ensures r.Some? ==> |r.value.1| < |bs|
  {
    match GetVarint32(bs)
    case None => None
    case Some(n) =>
      if n.0 > |n.1| then None
      else
        VarintTakes(bs);
        Some((n.1[..n.0], n.1[n.0..]))
  }

  lemma {:induction false} VarintTakes(bs: Bytes)
    ensures GetVarint32(bs).Some? ==> |GetVarint32(bs).value.1| < |bs| && GetVarint32(bs).value.0 < TWO32
    ensures GetVarint64(bs).Some? ==> |GetVarint64(bs).value.1| < |bs|
  {
  }

  function ReadInteger(f: Field, bs: Bytes): (r: Option<(Value, Bytes)>)
    ensures r.Some? ==> |r.value.1| < |bs|
  {
    if f.ltype.Fixed32Type? || f.ltype.Fixed64Type? then
      var width := if f.ltype.Fixed32Type? then 4 else 8;
      if |bs| < width then None else Some((Int(Unfixed(bs[..width])), bs[width..]))
    else
      match GetVarint64(bs)
      case None => None
      case Some(n) =>
        VarintTakes(bs);
        match Clamped(Widened(f, n.0), f.dataSize, !f.ltype.UVarIntType?)
        case None => None
        case Some(v) => Some((Int(v), n.1))
  }

  /** A length-delimited value.  A submessage in an array starts from defaults, any other is
      merged into what is there. */
  function ReadBlob(f: Field, dest: Value, body: Bytes): Option<Value>
    decreases f, 0
  {
    match f.ltype
    case BytesType => if |body| + BYTES_OFFSET > f.dataSize then None else Some(Blob(body))
    case StringType => if |body| + 1 > f.dataSize then None else Some(Blob(UpToNul(body)))
    case SubMessage(d) =>
      if !dest.Sub? then None
      else (
        match ReadMessage(d, if f.htype == Repeated then Defaulted(d, dest.m) else dest.m, body)
        case None => None
        case Some(m) => Some(Sub(m)))
    case _ =>
      if body == [] then Some(Blob(seq(f.dataSize, _ => 0)))
      else if |body| != f.dataSize then None
      else Some(Blob(body))
  }

  /** The characters of a C string. */
  function UpToNul(bytes: Bytes): Bytes {
    if bytes == [] || bytes[0] == 0 then [] else [bytes[0]] + UpToNul(bytes[1..])
  }

  function ReadValue(f: Field, dest: Value, bs: Bytes): (r: Option<(Value, Bytes)>)
    ensures r.Some? ==> |r.value.1| < |bs|
    decreases f, 1
  {
    if f.ltype.Packable() then ReadInteger(f, bs)
    else
      match ReadBody(bs)
      case None => None
      case Some(b) =>
        match ReadBlob(f, dest, b.0)
        case None => None
        case Some(v) => Some((v, b.1))
  }

  /** A value behind its length, by type. */
  lemma {:induction false} ReadDelimited(f: Field, dest: Value, bs: Bytes)
    requires !f.ltype.Packable()
    ensures match ReadBody(bs)
            case None => ReadValue(f, dest, bs) == None
            case Some(b) =>
              && ReadValue(f, dest, bs) ==
                   (if ReadBlob(f, dest, b.0).Some? then Some((ReadBlob(f, dest, b.0).value, b.1)) else None)
              && (f.ltype.BytesType? ==>
                    ReadBlob(f, dest, b.0) == if |b.0| + BYTES_OFFSET > f.dataSize then None else Some(Blob(b.0)))
              && (f.ltype.StringType? ==>
                    ReadBlob(f, dest, b.0) == if |b.0| + 1 > f.dataSize then None else Some(Blob(UpToNul(b.0))))
              && (f.ltype.FixedLengthBytes? ==>
                    ReadBlob(f, dest, b.0) ==
                      if b.0 == [] then Some(Blob(seq(f.dataSize, _ => 0)))
                      else if |b.0| != f.dataSize then None
                      else Some(Blob(b.0)))
              && (f.ltype.SubMessage? && dest.Sub? ==>
                    var d := f.ltype.desc;
                    var r := ReadMessage(d, if f.htype == Repeated then Defaulted(d, dest.m) else dest.m, b.0);
                    ReadBlob(f, dest, b.0) == if r.Some? then Some(Sub(r.value)) else None)
  {
    hide ReadMessage, Defaulted, UpToNul;
  }

  // ---------- fields ----------

  /** A packed array fills the storage until the bytes are used up; too many are refused. */
  function ReadItems(f: Field, t: Slot, body: Bytes): Option<Slot>
    decreases |body|
  {
    if body == [] then Some(t)
    else if !t.Array? || t.count >= f.arraySize || t.count >= |t.items| then None
    else
      match ReadInteger(f, body)
      case None => None
      case Some(p) => ReadItems(f, Array(t.count + 1, t.items[t.count := p.0]), p.1)
  }

  lemma {:induction false} ReadItemsStep(f: Field, t: Slot, body: Bytes)
    requires t.Array? && |t.items| == f.arraySize
    ensures ReadItems(f, t, body) ==
            if body == [] then Some(t)
            else if t.count >= f.arraySize || ReadInteger(f, body) == None then None
            else
              var p := ReadInteger(f, body).value;
              ReadItems(f, Array(t.count + 1, t.items[t.count := p.0]), p.1)
  {
    hide ReadInteger;
  }

  /** The packed array of a field. */
  lemma {:induction false} ReadPacked(f: Field, t: Slot, bs: Bytes)
    requires f.htype == Repeated && f.ltype.Packable()
    ensures ReadField(WT_STRING, f, t, bs) ==
            match ReadBody(bs)
            case None => None
            case Some(b) => if ReadItems(f, t, b.0).Some? then Some((ReadItems(f, t, b.0).value, b.1)) else None
  {
    hide ReadItems, ReadBody;
  }

  function ReadField(wireType: nat, f: Field, t: Slot, bs: Bytes): (r: Option<(Slot, Bytes)>)
    ensures r.Some? ==> |r.value.1| < |bs|
    decreases f, 2
  {
    match f.htype
    case Repeated =>
      if wireType == WT_STRING && f.ltype.Packable() then (
        match ReadBody(bs)
        case None => None
        case Some(b) =>
          match ReadItems(f, t, b.0)
          case None => None
          case Some(r) => Some((r, b.1)))
      else if !t.Array? || t.count >= f.arraySize || t.count >= |t.items| then None
      else (
        match ReadValue(f, t.items[t.count], bs)
        case None => None
        case Some(v) => Some((Array(t.count + 1, t.items[t.count := v.0]), v.1)))
    case OneOf =>
      var dest :=
        if f.ltype.SubMessage? then DefaultedValue(f, ZeroedValue(f))
        else if t.Choice? && t.which == f.tag then t.member
        else ZeroedValue(f);
      (match ReadValue(f, dest, bs)
       case None => None
       case Some(v) => Some((Choice(f.tag, v.0, {}), v.1)))
    case _ =>
      var has := if f.htype == Optional then true else t.Single? && t.has;
      if !t.Single? then None
      else
        match ReadValue(f, t.value, bs)
        case None => None
        case Some(v) => Some((Single(has, v.0), v.1))
  }

  // ---------- messages ----------

  /** The field with the tag, or the number of fields. */
  function FieldOf(fields: seq<Field>, tag: nat): (i: nat)
    ensures i <= |fields|
    ensures i < |fields| ==> fields[i].tag == tag
    ensures i == |fields| ==> forall j :: 0 <= j < |fields| ==> fields[j].tag != tag
  {
    if fields == [] then 0
    else if fields[0].tag == tag then 0
    else
      var i := FieldOf(fields[1..], tag);
      assert i == |fields| - 1 ==> forall j :: 0 < j < |fields| ==> fields[j] == fields[1..][j - 1];
      i + 1
  }

  /** One key and what belongs to it: the message after it, and the bytes that are left. */
  function ReadOne(d: Desc, x: Msg, key: nat, bs: Bytes): (r: Option<(Msg, Bytes)>)
    ensures r.Some? ==> |r.value.1| <= |bs|
    decreases d, 5
  {
    var i := FieldOf(d.fields, key / 8);
    if i == |d.fields| then
      if d.fields == [] && key / 8 == 0 then None
      else
        match Skipped(key % 8, bs)
        case None => None
        case Some(rest) => SkippedShrinks(key % 8, bs); Some((x, rest))
    else if d.fields[i].slot >= |x.slots| then None
    else
      match ReadField(key % 8, d.fields[i], x.slots[d.fields[i].slot], bs)
      case None => None
      case Some(t) => Some((Msg(x.slots[d.fields[i].slot := t.0]), t.1))
  }

  lemma {:induction false} SkippedShrinks(wireType: nat, bs: Bytes)
    ensures Skipped(wireType, bs).Some? ==> |Skipped(wireType, bs).value| <= |bs|
  {
    VarintTakes(bs);
    AfterVarintShrinks(bs);
  }

  lemma {:induction false} AfterVarintShrinks(bs: Bytes)
    ensures AfterVarint(bs).Some? ==> |AfterVarint(bs).value| < |bs|
  {
    if bs != [] && bs[0] >= 128 {
      AfterVarintShrinks(bs[1..]);
    }
  }

  /** All keys up to the end, which a zero key or a key that is cut off also is: the message,
      and the tags that were read. */
  function ReadFields(d: Desc, x: Msg, bs: Bytes): Option<(Msg, set<nat>)>
    decreases d, 6, |bs|
  {
    if bs == [] then Some((x, {}))
    else
      match GetVarint32(bs)
      case None => if |bs| <= 5 then Some((x, {})) else None
      case Some(key) =>
        if key.0 == 0 then Some((x, {}))
        else
          VarintTakes(bs);
          match ReadOne(d, x, key.0, key.1)
          case None => None
          case Some(one) =>
            match ReadFields(d, one.0, one.1)
            case None => None
            case Some(r) => Some((r.0, r.1 + {key.0 / 8}))
  }

  /** Every required field was among the keys. */
  predicate RequiredRead(d: Desc, tags: set<nat>) {
    forall i :: 0 <= i < |d.fields| && d.fields[i].htype == Required ==> d.fields[i].tag in tags
  }

  /** What one step of the loop adds to a reading. */
  lemma {:induction false} ReadFieldsStep(d: Desc, x: Msg, bs: Bytes, tags: set<nat>)
    ensures bs == [] ==> With(ReadFields(d, x, bs), tags) == Some((x, tags))
    ensures bs != [] && GetVarint32(bs) == None ==>
              With(ReadFields(d, x, bs), tags) == if |bs| <= 5 then Some((x, tags)) else None
    ensures bs != [] && GetVarint32(bs).Some? ==>
              var key := GetVarint32(bs).value;
              var one := ReadOne(d, x, key.0, key.1);
              With(ReadFields(d, x, bs), tags) ==
                if key.0 == 0 then Some((x, tags))
                else if one == None then None
                else With(ReadFields(d, one.value.0, one.value.1), tags + {key.0 / 8})
  {
    hide ReadOne, GetVarint32;
    var nothing: set<nat> := {};
    assert nothing + tags == tags;
    if bs != [] && GetVarint32(bs).Some? && GetVarint32(bs).value.0 != 0 {
      var key := GetVarint32(bs).value;
      var one := ReadOne(d, x, key.0, key.1);
      if one.Some? && ReadFields(d, one.value.0, one.value.1).Some? {
        var r := ReadFields(d, one.value.0, one.value.1).value;
        assert r.1 + {key.0 / 8} + tags == r.1 + (tags + {key.0 / 8});
      }
    }
  }

  /** A reading with tags that were read before. */
  function With(r: Option<(Msg, set<nat>)>, tags: set<nat>): Option<(Msg, set<nat>)> {
    if r.Some? then Some((r.value.0, r.value.1 + tags)) else None
  }

  /** pb_decode_noinit. */
  function ReadMessage(d: Desc, x: Msg, bs: Bytes): Option<Msg>
    decreases d, 7
  {
    match ReadFields(d, x, bs)
    case None => None
    case Some(r) => if RequiredRead(d, r.1) then Some(r.0) else None
  }

  lemma {:induction false} WithNone(r: Option<(Msg, set<nat>)>)
    ensures With(r, {}) == r
  {
    if r.Some? {
      assert r.value.1 + {} == r.value.1;
    }
  }

  lemma {:induction false} ReadMessageIs(d: Desc, x: Msg, bs: Bytes)
    ensures ReadMessage(d, x, bs) ==
            match ReadFields(d, x, bs)
            case None => None
            case Some(r) => if RequiredRead(d, r.1) then Some(r.0) else None
  {
    hide ReadFields, RequiredRead;
  }

  /** pb_decode. */
  function ReadNew(d: Desc, dest: Msg, bs: Bytes): Option<Msg> {
    ReadMessage(d, Defaulted(d, dest), bs)
  }
}

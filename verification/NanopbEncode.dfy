/** Nanopb encoding (nanopb/pb_encode.c): what a message becomes, and the two passes
    that write it. */
module NanopbEncoding {
  import opened Wrappers
  import opened Coding
  import opened NanopbMessages
  import opened NanopbIterators

  // ---------- the encoding as a function ----------

  function Cat(a: Option<Bytes>, b: Option<Bytes>): Option<Bytes> {
    if a.Some? && b.Some? then Some(a.value + b.value) else None
  }

  /** A C cast to uint64_t. */
  function Unsigned64(v: int): nat {
    v % TWO64
  }

  function Unsigned32(v: int): nat {
    v % TWO32
  }

  function ZigZag(v: int): nat {
    if v < 0 then -2 * v - 1 else 2 * v
  }

  const WT_VARINT: nat := 0
  const WT_64BIT: nat := 1
  const WT_STRING: nat := 2
  const WT_32BIT: nat := 5

  function WireType(t: LType): (r: nat)
    ensures r < 8
  {
    match t
    case VarIntType => WT_VARINT
    case UVarIntType => WT_VARINT
    case SVarIntType => WT_VARINT
    case Fixed32Type => WT_32BIT
    case Fixed64Type => WT_64BIT
    case _ => WT_STRING
  }

  function Key(tag: nat, wireType: nat): Bytes {
    Varint(tag * 8 + wireType)
  }

  /** A value, without its key.  None when the encoder refuses it. */
  function EncodedValue(f: Field, v: Value): Option<Bytes>
    requires ValueShape(f, v)
    decreases f, 0
  {
    match f.ltype
    case VarIntType =>
      if IntegerSize(f.dataSize) then Some(Varint(Unsigned64(v.v))) else None
    case UVarIntType =>
      if IntegerSize(f.dataSize) then Some(Varint(Unsigned64(v.v))) else None
    case SVarIntType =>
      if IntegerSize(f.dataSize) then Some(Varint(ZigZag(v.v))) else None
    case Fixed32Type => Some(Fixed(Unsigned32(v.v), 4))
    case Fixed64Type => Some(Fixed(Unsigned64(v.v), 8))
    case BytesType => if |v.b| + BYTES_OFFSET > f.dataSize then None else Some(LengthPrefixed(v.b))
    case StringType => Some(LengthPrefixed(v.b))
    case FixedLengthBytes => Some(LengthPrefixed(v.b))
    case SubMessage(d) =>
      match EncodedFields(d, v.m, 0)
      case None => None
      case Some(body) => Some(LengthPrefixed(body))
  }

  ghost predicate ItemsShape(f: Field, items: seq<Value>) {
    forall i :: 0 <= i < |items| ==> ValueShape(f, items[i])
  }

  /** The items from i on, one after another: the body of a packed array. */
  function EncodedItems(f: Field, items: seq<Value>, i: nat): Option<Bytes>
    requires i <= |items| && ItemsShape(f, items)
    decreases f, 2, |items| - i
  {
    if i == |items| then Some([]) else Cat(EncodedValue(f, items[i]), EncodedItems(f, items, i + 1))
  }

  /** The items from i on, each behind its own key. */
  function EncodedKeyed(f: Field, items: seq<Value>, i: nat): Option<Bytes>
    requires i <= |items| && ItemsShape(f, items)
    decreases f, 2, |items| - i
  {
    if i == |items| then Some([])
    else Cat(EncodedEntry(f, items[i]), EncodedKeyed(f, items, i + 1))
  }

  /** A value behind its key. */
  function EncodedEntry(f: Field, v: Value): Option<Bytes>
    requires ValueShape(f, v)
    decreases f, 1
  {
    Cat(Some(Key(f.tag, WireType(f.ltype))), EncodedValue(f, v))
  }

  function EncodedArray(f: Field, items: seq<Value>): Option<Bytes>
    requires ItemsShape(f, items)
    decreases f, 3
  {
    if items == [] then Some([])
    else if f.ltype.Packable() then
      match EncodedItems(f, items, 0)
      case None => None
      case Some(body) => Some(Key(f.tag, WT_STRING) + LengthPrefixed(body))
    else EncodedKeyed(f, items, 0)
  }

  function EncodedSlot(f: Field, s: Slot): Option<Bytes>
    requires SlotShape(f, s)
    decreases f, 4
  {
    match f.htype
    case Required => EncodedEntry(f, s.value)
    case Optional => if s.has then EncodedEntry(f, s.value) else Some([])
    case Implicit => if ZeroValue(f, s.value) then Some([]) else EncodedEntry(f, s.value)
    case OneOf => if s.which == f.tag then EncodedEntry(f, s.member) else Some([])
    case Repeated => if s.count > f.arraySize then None else EncodedArray(f, s.items[..s.count])
  }

  /** The fields from i on, in descriptor order. */
  function EncodedFields(d: Desc, m: Msg, i: nat): Option<Bytes>
    requires i <= |d.fields| && MsgShape(d, m)
    decreases d, 5, |d.fields| - i
  {
    if i == |d.fields| then Some([])
    else Cat(EncodedSlot(d.fields[i], m.slots[d.fields[i].slot]), EncodedFields(d, m, i + 1))
  }

  function Encoded(d: Desc, m: Msg): Option<Bytes>
    requires MsgShape(d, m)
  {
    EncodedFields(d, m, 0)
  }

  // ---------- the output stream ----------

  /** pb_ostream_t.  A sizing stream counts and writes nothing. */
  class OStream {
    const sizing: bool
    const maxSize: nat
    var output: Bytes
    var bytesWritten: nat

    constructor Sizing()
      ensures sizing && bytesWritten == 0 && output == []
    {
      sizing, maxSize := true, 0;
      output, bytesWritten := [], 0;
    }

    constructor (maxSize: nat)
      ensures !sizing && this.maxSize == maxSize && bytesWritten == 0 && output == []
    {
      sizing := false;
      this.maxSize := maxSize;
      output, bytesWritten := [], 0;
    }

    /** pb_write. */
    method Write(bytes: Bytes) returns (ok: bool)
      modifies this
      ensures Wrote(this, old(bytesWritten), old(output), Some(bytes), ok)
    {
      if !sizing {
        if bytesWritten + |bytes| > maxSize {
          return false;
        }
        output := output + bytes;
      }
      bytesWritten := bytesWritten + |bytes|;
      ok := true;
    }

    /** pb_write without data, on a sizing stream. */
    method Count(size: nat)
      requires sizing
      modifies this
      ensures bytesWritten == old(bytesWritten) + size && output == old(output)
    {
      bytesWritten := bytesWritten + size;
    }
  }

  /** What writing an encoding does to a stream, from `written` bytes and `output` on: all of
      it is written, or the encoder refused, or a real stream is too short. */
  ghost predicate Wrote(s: OStream, written: nat, output: Bytes, e: Option<Bytes>, ok: bool)
    reads s
  {
    && (ok ==>
        e.Some? && s.bytesWritten == written + |e.value| && s.output == output + if s.sizing then [] else e.value)
    && (ok ==> WithinLimit(s, written, s.bytesWritten))
    && (!ok ==> e.None? || (!s.sizing && written + |e.value| > s.maxSize))
  }

  /** A real stream that was within its limit still is. */
  ghost predicate WithinLimit(s: OStream, before: nat, after: nat) {
    s.sizing || (before <= s.maxSize ==> after <= s.maxSize)
  }

  /** Two writes in a row. */
  lemma {:induction false} WroteBoth(s: OStream, w0: nat, o0: Bytes, w1: nat, o1: Bytes, a: Option<Bytes>,
                                     b: Option<Bytes>, ok: bool)
    requires a.Some? && w1 == w0 + |a.value| && o1 == o0 + if s.sizing then [] else a.value
    requires WithinLimit(s, w0, w1)
    requires Wrote(s, w1, o1, b, ok)
    ensures Wrote(s, w0, o0, Cat(a, b), ok)
  {
    if ok && !s.sizing {
      assert o0 + a.value + b.value == o0 + (a.value + b.value);
    }
  }

  lemma {:induction false} WroteNot(s: OStream, w: nat, o: Bytes, a: Option<Bytes>, b: Option<Bytes>)
    requires Wrote(s, w, o, a, false)
    ensures Wrote(s, w, o, Cat(a, b), false)
  {
  }

  // ---------- encoding into a stream ----------

  function TopBitCleared(buffer: Bytes): Bytes
    requires buffer != [] && buffer[|buffer| - 1] >= 128
  {
    var last: byte := buffer[|buffer| - 1];
    buffer[..|buffer| - 1] + [last - 128]
  }

  /** pb_encode_varint: seven bits a byte. */
  method EncodeVarint(stream: OStream, value: nat) returns (ok: bool)
    modifies stream
    ensures Wrote(stream, old(stream.bytesWritten), old(stream.output), Some(Varint(value)), ok)
  {
    if value <= 0x7f {
      ok := stream.Write([value]);
      return;
    }
    var buffer: Bytes := [];
    var v: nat := value;
    while v > 0
      invariant v > 0 ==> buffer + Varint(v) == Varint(value)
      invariant v == 0 ==> buffer != [] && buffer[|buffer| - 1] >= 128
      invariant v == 0 ==> TopBitCleared(buffer) == Varint(value)
    {
      var low: byte := v % 128 + 128;
      buffer := buffer + [low];
      v := v / 128;
    }
    // Unset the top bit of the last byte.
    ok := stream.Write(TopBitCleared(buffer));
  }

  method EncodeString(stream: OStream, bytes: Bytes) returns (ok: bool)
    modifies stream
    ensures Wrote(stream, old(stream.bytesWritten), old(stream.output), Some(LengthPrefixed(bytes)), ok)
  {
    hide Varint, Wrote;
    ghost var w, o := stream.bytesWritten, stream.output;
    ok := EncodeVarint(stream, |bytes|);
    if !ok {
      WroteNot(stream, w, o, Some(Varint(|bytes|)), Some(bytes));
      return;
    }
    WroteAll(stream, w, o, Some(Varint(|bytes|)));
    ghost var w1, o1 := stream.bytesWritten, stream.output;
    ok := stream.Write(bytes);
    WroteBoth(stream, w, o, w1, o1, Some(Varint(|bytes|)), Some(bytes), ok);
  }

  lemma {:induction false} WroteAll(s: OStream, w: nat, o: Bytes, e: Option<Bytes>)
    requires Wrote(s, w, o, e, true)
    ensures e.Some? && s.bytesWritten == w + |e.value| && s.output == o + if s.sizing then [] else e.value
    ensures WithinLimit(s, w, s.bytesWritten)
  {
  }

  /** pb_encode_tag_for_field and then the value. */
  method EncodeEntry(stream: OStream, f: Field, v: Value) returns (ok: bool)
    requires FieldOk(f) && ValueShape(f, v)
    modifies stream
    ensures Wrote(stream, old(stream.bytesWritten), old(stream.output), EncodedEntry(f, v), ok)
    decreases f, 1
  {
    hide Wrote, EncodedValue;
    ghost var w, o := stream.bytesWritten, stream.output;
    var tag := Key(f.tag, WireType(f.ltype));
    ok := EncodeVarint(stream, f.tag * 8 + WireType(f.ltype));
    if !ok {
      WroteNot(stream, w, o, Some(tag), EncodedValue(f, v));
      return;
    }
    WroteAll(stream, w, o, Some(tag));
    ghost var w1, o1 := stream.bytesWritten, stream.output;
    ok := EncodeValue(stream, f, v);
    WroteBoth(stream, w, o, w1, o1, Some(tag), EncodedValue(f, v), ok);
  }

  /** The field encoders of PB_ENCODERS. */
  method EncodeValue(stream: OStream, f: Field, v: Value) returns (ok: bool)
    requires FieldOk(f) && ValueShape(f, v)
    modifies stream
    ensures Wrote(stream, old(stream.bytesWritten), old(stream.output), EncodedValue(f, v), ok)
    decreases f, 0
  {
    match f.ltype
    case VarIntType =>
      if !IntegerSize(f.dataSize) { return false; }
      ok := EncodeVarint(stream, Unsigned64(v.v));
    case UVarIntType =>
      if !IntegerSize(f.dataSize) { return false; }
      ok := EncodeVarint(stream, Unsigned64(v.v));
    case SVarIntType =>
      if !IntegerSize(f.dataSize) { return false; }
      ok := EncodeVarint(stream, ZigZag(v.v));
    case Fixed32Type =>
      ok := stream.Write(Fixed(Unsigned32(v.v), 4));
    case Fixed64Type =>
      ok := stream.Write(Fixed(Unsigned64(v.v), 8));
    case BytesType =>
      if |v.b| + BYTES_OFFSET > f.dataSize { return false; }
      ok := EncodeString(stream, v.b);
    case StringType =>
      ok := EncodeString(stream, v.b);
    case FixedLengthBytes =>
      ok := EncodeString(stream, v.b);
    case SubMessage(d) =>
      ok := EncodeSubmessage(stream, d, v.m);
  }

  /** pb_encode_submessage: a sizing pass, the length, and the real pass. */
  method EncodeSubmessage(stream: OStream, d: Desc, m: Msg) returns (ok: bool)
    requires DescOk(d) && MsgShape(d, m)
    modifies stream
    ensures Wrote(stream, old(stream.bytesWritten), old(stream.output),
                  if Encoded(d, m).Some? then Some(LengthPrefixed(Encoded(d, m).value)) else None, ok)
    decreases d, 7
  {
    hide EncodedFields, Varint;
    ghost var w, o := stream.bytesWritten, stream.output;
    var sizes := new OStream.Sizing();
    ok := Encode(sizes, d, m);
    if !ok {
      return;
    }
    var size := sizes.bytesWritten;
    ok := EncodeVarint(stream, size);
    if !ok {
      return;
    }
    if stream.sizing {
      stream.Count(size);
      return;
    }
    if stream.bytesWritten + size > stream.maxSize {
      return false;
    }
    var substream := new OStream(size);
    var status := Encode(substream, d, m);
    stream.bytesWritten := stream.bytesWritten + substream.bytesWritten;
    stream.output := stream.output + substream.output;
    if substream.bytesWritten != size {
      return false;
    }
    return status;
  }

  /** pb_encode. */
  method Encode(stream: OStream, d: Desc, m: Msg) returns (ok: bool)
    requires DescOk(d) && MsgShape(d, m)
    modifies stream
    ensures Wrote(stream, old(stream.bytesWritten), old(stream.output), Encoded(d, m), ok)
    decreases d, 6
  {
    hide Wrote, EncodedSlot;
    ghost var w, o := stream.bytesWritten, stream.output;
    var iter := new FieldIter(d.fields);
    WrittenNothing(stream, EncodedFields(d, m, 0));
    ghost var done: Bytes := [];
    if d.fields == [] {
      WrittenAll(stream, w, o, done);
      return true;
    }
    var more := true;
    while more
      invariant iter.Valid() && iter.fields == d.fields && fresh(iter)
      invariant Written(stream, w, o, done)
      invariant Cat(Some(done), if more then EncodedFields(d, m, iter.pos) else Some([])) == Encoded(d, m)
      decreases more, |d.fields| - iter.pos
    {
      var f := d.fields[iter.pos];
      var s := m.slots[f.slot];
      ghost var w1, o1, rest := stream.bytesWritten, stream.output, EncodedFields(d, m, iter.pos + 1);
      ok := EncodeField(stream, f, s);
      WrittenStep(stream, w, o, done, w1, o1, EncodedSlot(f, s), rest, ok);
      if !ok {
        return;
      }
      done := done + EncodedSlot(f, s).value;
      more := iter.Next();
    }
    WrittenAll(stream, w, o, done);
    ok := true;
  }

  /** pb_get_encoded_size: the sizing pass counts exactly the bytes of the real pass. */
  method GetEncodedSize(d: Desc, m: Msg) returns (ok: bool, size: nat)
    requires DescOk(d) && MsgShape(d, m)
    ensures ok <==> Encoded(d, m).Some?
    ensures ok ==> size == |Encoded(d, m).value|
  {
    var stream := new OStream.Sizing();
    ok := Encode(stream, d, m);
    size := stream.bytesWritten;
  }

  /** encode_basic_field. */
  method EncodeField(stream: OStream, f: Field, s: Slot) returns (ok: bool)
    requires FieldOk(f) && SlotShape(f, s)
    modifies stream
    ensures Wrote(stream, old(stream.bytesWritten), old(stream.output), EncodedSlot(f, s), ok)
    decreases f, 5
  {
    hide EncodedEntry, EncodedArray;
    match f.htype
    case Required =>
      ok := EncodeEntry(stream, f, s.value);
    case Optional =>
      if s.has { ok := EncodeEntry(stream, f, s.value); } else { ok := true; }
    case Implicit =>
      if !ZeroValue(f, s.value) { ok := EncodeEntry(stream, f, s.value); } else { ok := true; }
    case Repeated =>
      if s.count == 0 {
        ok := true;
        EmptyArray(f);
      } else if s.count > f.arraySize {
        ok := false;
      } else {
        ok := EncodeArray(stream, f, s.items[..s.count]);
      }
    case OneOf =>
      if s.which == f.tag { ok := EncodeEntry(stream, f, s.member); } else { ok := true; }
  }

  lemma {:induction false} EmptyArray(f: Field)
    ensures EncodedArray(f, []) == Some([])
  {
  }

  /** encode_array, for a non-empty array: packed behind one key and length, or item by item. */
  method EncodeArray(stream: OStream, f: Field, items: seq<Value>) returns (ok: bool)
    requires FieldOk(f) && ItemsShape(f, items) && items != []
    modifies stream
    ensures Wrote(stream, old(stream.bytesWritten), old(stream.output), EncodedArray(f, items), ok)
    decreases f, 4
  {
    if f.ltype.Packable() {
      ok := EncodePacked(stream, f, items);
    } else {
      ok := EncodeKeyed(stream, f, items);
    }
  }

  method EncodePacked(stream: OStream, f: Field, items: seq<Value>) returns (ok: bool)
    requires FieldOk(f) && ItemsShape(f, items) && items != [] && f.ltype.Packable()
    modifies stream
    ensures Wrote(stream, old(stream.bytesWritten), old(stream.output), EncodedArray(f, items), ok)
    decreases f, 3
  {
    hide EncodedItems, Varint;
    var body := EncodedItems(f, items, 0);
    ok := EncodeVarint(stream, f.tag * 8 + WT_STRING);
    if !ok {
      return;
    }
    var size;
    if f.ltype.Fixed32Type? {
      size := 4 * |items|;
      FixedItems(f, items, 0);
    } else if f.ltype.Fixed64Type? {
      size := 8 * |items|;
      FixedItems(f, items, 0);
    } else {
      var sizes := new OStream.Sizing();
      ok := EncodeItems(sizes, f, items);
      if !ok {
        return;
      }
      size := sizes.bytesWritten;
    }
    ok := EncodeVarint(stream, size);
    if !ok {
      return;
    }
    if stream.sizing {
      stream.Count(size);
      return;
    }
    ok := EncodeItems(stream, f, items);
  }

  /** The size of a packed array of fixed-width items needs no pass. */
  lemma {:induction false} FixedItems(f: Field, items: seq<Value>, i: nat)
    requires i <= |items| && ItemsShape(f, items)
    requires f.ltype.Fixed32Type? || f.ltype.Fixed64Type?
    ensures var e, width := EncodedItems(f, items, i), if f.ltype.Fixed32Type? then 4 else 8;
            e.Some? && |e.value| == width * (|items| - i)
    decreases |items| - i
  {
    if i < |items| {
      FixedItems(f, items, i + 1);
    }
  }

  method EncodeItems(stream: OStream, f: Field, items: seq<Value>) returns (ok: bool)
    requires FieldOk(f) && ItemsShape(f, items)
    modifies stream
    ensures Wrote(stream, old(stream.bytesWritten), old(stream.output), EncodedItems(f, items, 0), ok)
    decreases f, 2
  {
    hide Wrote, EncodedValue;
    ghost var w, o := stream.bytesWritten, stream.output;
    WrittenNothing(stream, EncodedItems(f, items, 0));
    ghost var done: Bytes := [];
    for i := 0 to |items|
      invariant Written(stream, w, o, done)
      invariant Cat(Some(done), EncodedItems(f, items, i)) == EncodedItems(f, items, 0)
    {
      ghost var w1, o1 := stream.bytesWritten, stream.output;
      ok := EncodeValue(stream, f, items[i]);
      WrittenStep(stream, w, o, done, w1, o1, EncodedValue(f, items[i]), EncodedItems(f, items, i + 1), ok);
      if !ok {
        return;
      }
      done := done + EncodedValue(f, items[i]).value;
    }
    WrittenAll(stream, w, o, done);
    ok := true;
  }

  method EncodeKeyed(stream: OStream, f: Field, items: seq<Value>) returns (ok: bool)
    requires FieldOk(f) && ItemsShape(f, items)
    modifies stream
    ensures Wrote(stream, old(stream.bytesWritten), old(stream.output), EncodedKeyed(f, items, 0), ok)
    decreases f, 2
  {
    hide Wrote, EncodedEntry;
    ghost var w, o := stream.bytesWritten, stream.output;
    WrittenNothing(stream, EncodedKeyed(f, items, 0));
    ghost var done: Bytes := [];
    for i := 0 to |items|
      invariant Written(stream, w, o, done)
      invariant Cat(Some(done), EncodedKeyed(f, items, i)) == EncodedKeyed(f, items, 0)
    {
      ghost var w1, o1 := stream.bytesWritten, stream.output;
      ok := EncodeEntry(stream, f, items[i]);
      WrittenStep(stream, w, o, done, w1, o1, EncodedEntry(f, items[i]), EncodedKeyed(f, items, i + 1), ok);
      if !ok {
        return;
      }
      done := done + EncodedEntry(f, items[i]).value;
    }
    WrittenAll(stream, w, o, done);
    ok := true;
  }

  // ---------- progress of a write ----------

  /** Since it stood at `written` and `output`, the stream has taken `done`. */
  ghost predicate Written(s: OStream, written: nat, output: Bytes, done: Bytes)
    reads s
  {
    && s.bytesWritten == written + |done| && s.output == output + (if s.sizing then [] else done)
    && WithinLimit(s, written, s.bytesWritten)
  }

  lemma {:induction false} WrittenNothing(s: OStream, all: Option<Bytes>)
    ensures Written(s, s.bytesWritten, s.output, []) && Cat(Some([]), all) == all
  {
    assert all.Some? ==> [] + all.value == all.value;
  }

  lemma {:induction false} WrittenStep(s: OStream, w: nat, o: Bytes, done: Bytes, w1: nat, o1: Bytes,
                                       e: Option<Bytes>, rest: Option<Bytes>, ok: bool)
    requires w1 == w + |done| && o1 == o + (if s.sizing then [] else done) && Wrote(s, w1, o1, e, ok)
    requires WithinLimit(s, w, w1)
    ensures if ok then
              && e.Some? && Written(s, w, o, done + e.value)
              && Cat(Some(done + e.value), rest) == Cat(Some(done), Cat(e, rest))
            else Wrote(s, w, o, Cat(Some(done), Cat(e, rest)), false)
  {
    if e.Some? && rest.Some? {
      assert done + e.value + rest.value == done + (e.value + rest.value);
    }
  }

  lemma {:induction false} WrittenAll(s: OStream, w: nat, o: Bytes, done: Bytes)
    requires Written(s, w, o, done)
    ensures Wrote(s, w, o, Some(done), true) && Cat(Some(done), Some([])) == Some(done)
  {
    assert done + [] == done;
  }
}

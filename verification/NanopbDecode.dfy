/** Nanopb decoding (nanopb/pb_decode.c): fields are found by tag, and their storage is
    filled in place.  Each decoder is specified on what the encoder writes. */
module NanopbDecoding {
  import opened Wrappers
  import opened Coding
  import opened NanopbMessages
  import opened NanopbIterators
  import opened NanopbEncoding
  import opened NanopbStreams
  import opened NanopbReadings

  // ---------- defaults ----------

  lemma {:induction false} ZeroedValueShape(f: Field)
    requires FieldOk(f)
    ensures ValueShape(f, ZeroedValue(f))
    decreases f, 0
  {
    if f.ltype.SubMessage? {
      ZeroedMsgShape(f.ltype.desc);
    }
  }

  lemma {:induction false} ZeroedMsgShape(d: Desc)
    requires DescOk(d)
    ensures MsgShape(d, ZeroedMsg(d))
    decreases d, 2
  {
    forall i | 0 <= i < |d.fields| ensures SlotShape(d.fields[i], ZeroedMsg(d).slots[d.fields[i].slot]) {
      ZeroedAtShape(d, i, |d.fields|);
    }
  }

  lemma {:induction false} ZeroedAtShape(d: Desc, i: nat, n: nat)
    requires DescOk(d) && i < n <= |d.fields|
    ensures SlotShape(d.fields[i], ZeroedAt(d, d.fields[i].slot, n))
    decreases d, 1, n
  {
    var f, g := d.fields[i], d.fields[n - 1];
    assert FieldOk(f) && FieldOk(g);
    if i == n - 1 {
      ZeroedValueShape(f);
    } else if g.slot == f.slot {
      assert Apart(f, g);
    } else {
      ZeroedAtShape(d, i, n - 1);
    }
  }

  /** pb_message_set_to_defaults. */
  method SetToDefaults(d: Desc, m: Msg) returns (r: Msg)
    requires DescOk(d) && MsgShape(d, m)
    ensures MsgShape(d, r) && DefaultMsg(d, r) && r == Defaulted(d, m)
    decreases d, 1
  {
    r := m;
    for i := 0 to |d.fields|
      invariant MsgShape(d, r) && r == DefaultedTo(d, m, i)
      invariant forall j :: 0 <= j < i ==> DefaultSlot(d.fields[j], r.slots[d.fields[j].slot])
    {
      var f := d.fields[i];
      var s := SetSlotToDefault(f, r.slots[f.slot]);
      DefaultsApart(d, r, i, s);
      r := Msg(r.slots[f.slot := s]);
    }
  }

  /** pb_field_set_to_default. */
  method SetSlotToDefault(f: Field, s: Slot) returns (r: Slot)
    requires FieldOk(f) && SlotShape(f, s)
    ensures SlotShape(f, r) && DefaultSlot(f, r) && (f.htype == OneOf ==> r.Choice? && r.which == 0)
    ensures r == DefaultedSlot(f, s)
    decreases f, 1
  {
    match f.htype
    case Repeated => r := s.(count := 0);
    case OneOf => r := s.(which := 0);
    case Optional =>
      var v := SetValueToDefault(f, s.value);
      r := Single(false, v);
    case _ =>
      var v := SetValueToDefault(f, s.value);
      r := s.(value := v);
  }

  method SetValueToDefault(f: Field, v: Value) returns (r: Value)
    requires FieldOk(f) && ValueShape(f, v)
    ensures ValueShape(f, r) && DefaultValue(f, r) && r == DefaultedValue(f, v)
    decreases f, 0
  {
    if f.ltype.SubMessage? {
      var m := SetToDefaults(f.ltype.desc, v.m);
      r := Sub(m);
    } else {
      r := f.dflt;
    }
  }

  lemma {:induction false} DefaultsApart(d: Desc, m: Msg, i: nat, s: Slot)
    requires DescOk(d) && MsgShape(d, m) && i < |d.fields|
    requires SlotShape(d.fields[i], s) && DefaultSlot(d.fields[i], s)
    requires d.fields[i].htype == OneOf ==> s.Choice? && s.which == 0
    requires forall j :: 0 <= j < i ==> DefaultSlot(d.fields[j], m.slots[d.fields[j].slot])
    ensures var r := Msg(m.slots[d.fields[i].slot := s]);
            MsgShape(d, r) && forall j :: 0 <= j <= i ==> DefaultSlot(d.fields[j], r.slots[d.fields[j].slot])
  {
    var r := Msg(m.slots[d.fields[i].slot := s]);
    forall j | 0 <= j < |d.fields|
      ensures SlotShape(d.fields[j], r.slots[d.fields[j].slot])
      ensures j <= i ==> DefaultSlot(d.fields[j], r.slots[d.fields[j].slot])
    {
      var f, g := d.fields[i], d.fields[j];
      assert FieldOk(g) && SlotShape(g, m.slots[g.slot]);
      assert i < j ==> Apart(f, g);
      assert j < i ==> Apart(g, f);
    }
  }

  // ---------- integers ----------

  lemma {:induction false} SignedRoundTrip(v: int, bound: nat)
    requires Signed(v, bound) && bound > 0
    ensures ToSigned(v % bound, bound) == v
  {
    if v < 0 {
      ModUnique(v, bound, v + bound, -1);
    } else {
      ModUnique(v, bound, v, 0);
    }
  }

  lemma {:induction false} ModUnique(v: int, n: int, r: int, q: int)
    requires 0 <= r < n && v == q * n + r
    ensures v % n == r
  {
    var d := v / n - q;
    assert n * d == r - v % n;
    assert d > 0 ==> n * d >= n;
    assert d < 0 ==> n * d <= -n;
  }

  /** Casting to 64 bits and then to 32 keeps a 32-bit value. */
  lemma {:induction false} VarIntBits(v: int, size: nat)
    requires IntegerSize(size) && Signed(v, Bound(size))
    ensures v % TWO64 < TWO64
    ensures size == 8 ==> ToSigned(v % TWO64, TWO64) == v
    ensures size != 8 ==> ToSigned(v % TWO64 % TWO32, TWO32) == v
    ensures Clamped(v, size, true) == Some(v)
  {
    SignedRoundTrip(v, Bound(size));
    if size != 8 {
      SignedRoundTrip(v, TWO32);
      assert v % TWO64 % TWO32 == v % TWO32;
    }
  }

  lemma {:induction false} ZigZagRoundTrip(v: int, size: nat)
    requires IntegerSize(size) && Signed(v, Bound(size))
    ensures ZigZag(v) < TWO64 && UnZigZag(ZigZag(v)) == v && Clamped(v, size, true) == Some(v)
  {
    SignedRoundTrip(v, Bound(size));
  }

  // ---------- values ----------

  /** The stream begins with an encoding, followed by `tail`. */
  ghost predicate Starts(left: Bytes, e: Option<Bytes>, tail: Bytes) {
    e.Some? && left == e.value + tail && |e.value| < TWO32
  }

  /** Storage a decoder may be called on: a submessage that is not an array item is
      merged into, so it must hold defaults. */
  ghost predicate Receptive(f: Field, dest: Value)
    requires ValueShape(f, dest)
  {
    f.ltype.SubMessage? && f.htype != Repeated ==> DefaultMsg(f.ltype.desc, dest.m)
  }

  /** The field decoders of PB_DECODERS. */
  method DecodeValue(stream: IStream, f: Field, dest: Value, ghost v: Value, ghost tail: Bytes)
    returns (ok: bool, r: Value)
    requires FieldOk(f) && ValueShape(f, dest) && ValueShape(f, v)
    modifies stream
    ensures ValueShape(f, r) && |stream.left| <= |old(stream.left)|
    ensures match ReadValue(f, dest, old(stream.left))
            case None => !ok
            case Some(p) => ok && r == p.0 && stream.left == p.1
    ensures ValueOk(f, v) && Starts(old(stream.left), EncodedValue(f, v), tail) && Receptive(f, dest) ==>
              ok && stream.left == tail && (SameValue(f, v, r) <==> LosslessValue(f, v))
    decreases f, 0
  {
    match f.ltype
    case SubMessage(d) =>
      var m;
      ok, m := DecodeSubmessage(stream, f, dest.m, v.m, tail);
      r := Sub(m);
    case BytesType =>
      ok, r := DecodeBytes(stream, f, dest, v, tail);
    case StringType =>
      ok, r := DecodeString(stream, f, dest, v, tail);
    case FixedLengthBytes =>
      ok, r := DecodeFixedLengthBytes(stream, f, dest, v, tail);
    case _ =>
      ok, r := DecodeInteger(stream, f, dest, v, tail);
  }

  method DecodeInteger(stream: IStream, f: Field, dest: Value, ghost v: Value, ghost tail: Bytes)
    returns (ok: bool, r: Value)
    requires f.ltype.Packable() && dest.Int? && v.Int?
    modifies stream
    ensures r.Int? && |stream.left| <= |old(stream.left)|
    ensures ok ==> |stream.left| < |old(stream.left)|
    ensures match ReadInteger(f, old(stream.left))
            case None => !ok
            case Some(p) => ok && r == p.0 && stream.left == p.1
    ensures ValueOk(f, v) && Starts(old(stream.left), EncodedValue(f, v), tail) ==> ok && stream.left == tail && r == v
  {
    if f.ltype.Fixed32Type? || f.ltype.Fixed64Type? {
      ok, r := DecodeFixed(stream, f, dest, v, tail);
    } else {
      ok, r := DecodeVarInteger(stream, f, dest, v, tail);
    }
  }

  method DecodeFixed(stream: IStream, f: Field, dest: Value, ghost v: Value, ghost tail: Bytes)
    returns (ok: bool, r: Value)
    requires (f.ltype.Fixed32Type? || f.ltype.Fixed64Type?) && dest.Int? && v.Int?
    modifies stream
    ensures r.Int? && |stream.left| <= |old(stream.left)|
    ensures ok ==> |stream.left| < |old(stream.left)|
    ensures match ReadInteger(f, old(stream.left))
            case None => !ok
            case Some(p) => ok && r == p.0 && stream.left == p.1
    ensures ValueOk(f, v) && Starts(old(stream.left), EncodedValue(f, v), tail) ==> ok && stream.left == tail && r == v
  {
    hide Fixed, Unfixed;
    r := dest;
    var width := if f.ltype.Fixed32Type? then 4 else 8;
    ghost var n := if ValueOk(f, v) then v.v else 0;
    PowersOf256();
    FixedRoundTrip(n, width);
    var bytes;
    ok, bytes := stream.Read(width);
    if ok {
      r := Int(Unfixed(bytes));
    }
  }

  /** Varints: the 64-bit number read, as the field's type reads it. */
  method DecodeVarInteger(stream: IStream, f: Field, dest: Value, ghost v: Value, ghost tail: Bytes)
    returns (ok: bool, r: Value)
    requires (f.ltype.VarIntType? || f.ltype.UVarIntType? || f.ltype.SVarIntType?) && dest.Int? && v.Int?
    modifies stream
    ensures r.Int? && |stream.left| <= |old(stream.left)|
    ensures ok ==> |stream.left| < |old(stream.left)|
    ensures match ReadInteger(f, old(stream.left))
            case None => !ok
            case Some(p) => ok && r == p.0 && stream.left == p.1
    ensures ValueOk(f, v) && Starts(old(stream.left), EncodedValue(f, v), tail) ==> ok && stream.left == tail && r == v
  {
    hide Varint, GetVarint, Clamped, ToSigned, UnZigZag;
    r := dest;
    if ValueOk(f, v) && Starts(stream.left, EncodedValue(f, v), tail) {
      IntegerBack(f, v.v);
      GetVarint64Of(if f.ltype.SVarIntType? then ZigZag(v.v) else Unsigned64(v.v), tail);
    }
    var value;
    ok, value := stream.DecodeVarint();
    if !ok {
      return;
    }
    var wide := Widened(f, value);
    var clamped := Clamped(wide, f.dataSize, !f.ltype.UVarIntType?);
    if clamped == None {
      return false, r;
    }
    r := Int(clamped.value);
  }

  lemma {:induction false} IntegerBack(f: Field, v: int)
    requires f.ltype.VarIntType? || f.ltype.UVarIntType? || f.ltype.SVarIntType?
    requires ValueOk(f, Int(v))
    ensures var u := if f.ltype.SVarIntType? then ZigZag(v) else Unsigned64(v);
            u < TWO64 && Widened(f, u) == v && Clamped(v, f.dataSize, !f.ltype.UVarIntType?) == Some(v)
  {
    match f.ltype
    case VarIntType => VarIntBits(v, f.dataSize);
    case SVarIntType => ZigZagRoundTrip(v, f.dataSize);
    case UVarIntType =>
  }

  method DecodeBytes(stream: IStream, f: Field, dest: Value, ghost v: Value, ghost tail: Bytes)
    returns (ok: bool, r: Value)
    requires f.ltype.BytesType? && dest.Blob? && v.Blob?
    modifies stream
    ensures r.Blob? && |stream.left| <= |old(stream.left)|
    ensures match ReadValue(f, dest, old(stream.left))
            case None => !ok
            case Some(p) => ok && r == p.0 && stream.left == p.1
    ensures ValueOk(f, v) && Starts(old(stream.left), EncodedValue(f, v), tail) ==> ok && stream.left == tail && r == v
  {
    hide Varint, GetVarint32, LengthPrefixed, ReadValue, ReadBlob, UpToNul;
    r := dest;
    ReadDelimited(f, dest, stream.left);
    VarintTakes(stream.left);
    if Starts(stream.left, EncodedValue(f, v), tail) {
      PrefixedShorter(v.b);
      BodyAhead(v.b, tail);
    }
    var size;
    ok, size := stream.DecodeVarint32();
    if !ok {
      return;
    }
    if size > SIZE_MAX || size + BYTES_OFFSET > f.dataSize {
      return false, r;
    }
    var bytes;
    ok, bytes := stream.Read(size);
    if ok {
      r := Blob(bytes);
    }
  }

  lemma {:induction false} PrefixedShorter(b: Bytes)
    ensures |b| < |LengthPrefixed(b)|
  {
  }

  method DecodeString(stream: IStream, f: Field, dest: Value, ghost v: Value, ghost tail: Bytes)
    returns (ok: bool, r: Value)
    requires f.ltype.StringType? && dest.Blob? && v.Blob?
    modifies stream
    ensures r.Blob? && |stream.left| <= |old(stream.left)|
    ensures match ReadValue(f, dest, old(stream.left))
            case None => !ok
            case Some(p) => ok && r == p.0 && stream.left == p.1
    ensures ValueOk(f, v) && Starts(old(stream.left), EncodedValue(f, v), tail) ==> ok && stream.left == tail && r == v
  {
    hide Varint, GetVarint32, LengthPrefixed, ReadValue, ReadBlob, UpToNul;
    r := dest;
    ReadDelimited(f, dest, stream.left);
    VarintTakes(stream.left);
    if Starts(stream.left, EncodedValue(f, v), tail) {
      PrefixedShorter(v.b);
      BodyAhead(v.b, tail);
    }
    var size;
    ok, size := stream.DecodeVarint32();
    if !ok {
      return;
    }
    // Space for the terminator; size + 1 does not wrap where size_t has 64 bits.
    if size + 1 > f.dataSize {
      return false, r;
    }
    var bytes;
    ok, bytes := stream.Read(size);
    if ok {
      r := Blob(UpToNul(bytes));
      if 0 !in bytes {
        NoNul(bytes);
      }
    }
  }

  lemma {:induction false} NoNul(bytes: Bytes)
    requires 0 !in bytes
    ensures UpToNul(bytes) == bytes
  {
    if bytes != [] {
      NoNul(bytes[1..]);
    }
  }

  method DecodeFixedLengthBytes(stream: IStream, f: Field, dest: Value, ghost v: Value, ghost tail: Bytes)
    returns (ok: bool, r: Value)
    requires f.ltype.FixedLengthBytes? && dest.Blob? && v.Blob?
    modifies stream
    ensures r.Blob? && |stream.left| <= |old(stream.left)|
    ensures match ReadValue(f, dest, old(stream.left))
            case None => !ok
            case Some(p) => ok && r == p.0 && stream.left == p.1
    ensures ValueOk(f, v) && Starts(old(stream.left), EncodedValue(f, v), tail) ==> ok && stream.left == tail && r == v
  {
    hide Varint, GetVarint32, LengthPrefixed, ReadValue, ReadBlob, UpToNul;
    r := dest;
    ReadDelimited(f, dest, stream.left);
    VarintTakes(stream.left);
    if Starts(stream.left, EncodedValue(f, v), tail) {
      PrefixedShorter(v.b);
      BodyAhead(v.b, tail);
    }
    var size;
    ok, size := stream.DecodeVarint32();
    if !ok {
      return;
    }
    if size > SIZE_MAX {
      return false, r;
    }
    if size == 0 {
      // Empty bytes stand for all zeros.
      return true, Blob(seq(f.dataSize, _ => 0));
    }
    if size != f.dataSize {
      return false, r;
    }
    var bytes;
    ok, bytes := stream.Read(f.dataSize);
    if ok {
      r := Blob(bytes);
    }
  }

  /** pb_dec_submessage. */
  method DecodeSubmessage(stream: IStream, f: Field, dest: Msg, ghost m: Msg, ghost tail: Bytes)
    returns (ok: bool, r: Msg)
    requires FieldOk(f) && f.ltype.SubMessage? && MsgShape(f.ltype.desc, dest) && MsgShape(f.ltype.desc, m)
    modifies stream
    ensures MsgShape(f.ltype.desc, r) && |stream.left| <= |old(stream.left)|
    ensures match ReadValue(f, Sub(dest), old(stream.left))
            case None => !ok
            case Some(p) => ok && Sub(r) == p.0 && stream.left == p.1
    ensures MsgOk(f.ltype.desc, m) && Starts(old(stream.left), EncodedValue(f, Sub(m)), tail)
            && (f.htype != Repeated ==> DefaultMsg(f.ltype.desc, dest)) ==>
              ok && stream.left == tail && (Same(f.ltype.desc, m, r) <==> Lossless(f.ltype.desc, m))
    decreases f.ltype.desc, 9
  {
    hide Varint, GetVarint32, LengthPrefixed, EncodedFields, ReadValue, ReadBlob, ReadMessage, ReadFields, Defaulted;
    r := dest;
    ReadDelimited(f, Sub(dest), stream.left);
    ghost var body := if Encoded(f.ltype.desc, m).Some? then Encoded(f.ltype.desc, m).value else [];
    if Starts(stream.left, EncodedValue(f, Sub(m)), tail) {
      PrefixedShorter(body);
      BodyAhead(body, tail);
    }
    var substream;
    ok, substream := stream.MakeSubstream();
    if !ok {
      return;
    }
    if f.htype == Repeated {
      ok, r := Decode(substream, f.ltype.desc, dest, m);
    } else {
      ok, r := DecodeNoInit(substream, f.ltype.desc, dest, m);
    }
  }

  /** pb_decode. */
  method Decode(stream: IStream, d: Desc, dest: Msg, ghost m: Msg) returns (ok: bool, r: Msg)
    requires DescOk(d) && MsgShape(d, dest) && MsgShape(d, m)
    modifies stream
    ensures MsgShape(d, r)
    ensures match ReadNew(d, dest, old(stream.left)) case None => !ok case Some(x) => ok && r == x
    ensures MsgOk(d, m) && Starts(old(stream.left), Encoded(d, m), []) ==> ok && (Same(d, m, r) <==> Lossless(d, m))
    decreases d, 8
  {
    r := SetToDefaults(d, dest);
    ok, r := DecodeNoInit(stream, d, r, m);
  }

  // ---------- fields ----------

  /** One key and what follows it: a value, or a whole packed array. */
  datatype Chunk = Entry(value: Value) | Packed(items: seq<Value>)

  ghost predicate ChunkShape(f: Field, c: Chunk) {
    match c
    case Entry(v) => ValueShape(f, v)
    case Packed(items) => ItemsShape(f, items)
  }

  /** The bytes after the key. */
  ghost function Payload(f: Field, c: Chunk): Option<Bytes>
    requires ChunkShape(f, c)
  {
    match c
    case Entry(v) => EncodedValue(f, v)
    case Packed(items) =>
      match EncodedItems(f, items, 0)
      case None => None
      case Some(body) => Some(LengthPrefixed(body))
  }

  ghost function ChunkWire(f: Field, c: Chunk): nat {
    if c.Packed? then WT_STRING else WireType(f.ltype)
  }

  /** The storage is ready for a chunk the encoder writes for this field. */
  ghost predicate Accepts(f: Field, t: Slot, c: Chunk)
    requires SlotShape(f, t) && ChunkShape(f, c)
  {
    match c
    case Entry(v) =>
      && ValueOk(f, v)
      && (match f.htype
          case Repeated => t.count < f.arraySize && !f.ltype.Packable()
          case OneOf => true
          case _ => DefaultValue(f, t.value))
    case Packed(items) =>
      && f.htype == Repeated && f.ltype.Packable() && t.count == 0 && |items| <= f.arraySize
      && forall i :: 0 <= i < |items| ==> ValueOk(f, items[i])
  }

  /** What the storage holds after the chunk. */
  ghost predicate Received(f: Field, t: Slot, c: Chunk, r: Slot)
    requires SlotShape(f, t) && SlotShape(f, r) && ChunkShape(f, c) && Accepts(f, t, c)
  {
    match c
    case Entry(v) =>
      (match f.htype
       case Repeated =>
         && r.count == t.count + 1
         && (forall j :: 0 <= j < t.count ==> r.items[j] == t.items[j])
         && (SameValue(f, v, r.items[t.count]) <==> LosslessValue(f, v))
       case OneOf => r.which == f.tag && (SameValue(f, v, r.member) <==> LosslessValue(f, v))
       case Optional => r.has && (SameValue(f, v, r.value) <==> LosslessValue(f, v))
       case _ => SameValue(f, v, r.value) <==> LosslessValue(f, v))
    case Packed(items) =>
      r.count == |items| && forall j :: 0 <= j < |items| ==> r.items[j] == items[j]
  }

  /** decode_static_field. */
  method DecodeField(stream: IStream, wireType: nat, f: Field, t: Slot, ghost c: Chunk, ghost tail: Bytes)
    returns (ok: bool, r: Slot)
    requires FieldOk(f) && SlotShape(f, t) && ChunkShape(f, c)
    modifies stream
    ensures SlotShape(f, r) && (f.htype == OneOf ==> r.which == f.tag) && |stream.left| <= |old(stream.left)|
    ensures match ReadField(wireType, f, t, old(stream.left))
            case None => !ok
            case Some(p) => ok && r == p.0 && stream.left == p.1
    ensures Accepts(f, t, c) && wireType == ChunkWire(f, c) && Starts(old(stream.left), Payload(f, c), tail) ==>
              ok && stream.left == tail && Received(f, t, c, r)
    decreases f, 2
  {
    hide EncodedValue, EncodedItems, DefaultMsg, Same, Lossless, ValueOk;
    ghost var v := if c.Entry? then c.value else ZeroedValue(f);
    ZeroedValueShape(f);
    match f.htype
    case Repeated =>
      if wireType == WT_STRING && f.ltype.Packable() {
        ok, r := DecodePacked(stream, f, t, c, tail);
      } else {
        r := t;
        if t.count >= f.arraySize {
          return false, t;
        }
        var item;
        ok, item := DecodeValue(stream, f, t.items[t.count], v, tail);
        r := Array(t.count + 1, t.items[t.count := item]);
      }
    case OneOf =>
      var member := if t.which == f.tag then t.member else ZeroedValue(f);
      if f.ltype.SubMessage? {
        member := SetValueToDefault(f, ZeroedValue(f));
      }
      ok, member := DecodeValue(stream, f, member, v, tail);
      r := Choice(f.tag, member, {});
    case Optional =>
      var value;
      ok, value := DecodeValue(stream, f, t.value, v, tail);
      r := Single(true, value);
    case _ =>
      var value;
      ok, value := DecodeValue(stream, f, t.value, v, tail);
      r := t.(value := value);
  }

  /** A packed array: items until the length is used up or the storage is full. */
  method DecodePacked(stream: IStream, f: Field, t: Slot, ghost c: Chunk, ghost tail: Bytes)
    returns (ok: bool, r: Slot)
    requires FieldOk(f) && f.htype == Repeated && f.ltype.Packable() && SlotShape(f, t) && ChunkShape(f, c)
    modifies stream
    ensures SlotShape(f, r) && |stream.left| <= |old(stream.left)|
    ensures match ReadField(WT_STRING, f, t, old(stream.left))
            case None => !ok
            case Some(p) => ok && r == p.0 && stream.left == p.1
    ensures Accepts(f, t, c) && c.Packed? && Starts(old(stream.left), Payload(f, c), tail) ==>
              ok && stream.left == tail && Received(f, t, c, r)
    decreases f, 1
  {
    hide EncodedValue, Varint, GetVarint32, LengthPrefixed, ReadField, ReadItems, ReadInteger, ValueOk;
    r := t;
    ReadPacked(f, t, stream.left);
    ghost var clean := Accepts(f, t, c) && c.Packed? && Starts(stream.left, Payload(f, c), tail);
    ghost var items := if c.Packed? then c.items else [];
    if clean {
      PrefixedShorter(EncodedItems(f, items, 0).value);
      BodyAhead(EncodedItems(f, items, 0).value, tail);
    }
    var substream;
    ok, substream := stream.MakeSubstream();
    if !ok {
      return;
    }
    ghost var n, whole, after := 0, ReadItems(f, t, substream.left), stream.left;
    while substream.left != [] && r.count < f.arraySize
      invariant ok && stream.left == after && whole == ReadItems(f, r, substream.left)
      invariant SlotShape(f, r) && fresh(substream) && |stream.left| <= |old(stream.left)|
      invariant clean ==>
                  && n <= |items| && r.count == n && stream.left == tail
                  && EncodedItems(f, items, n) == Some(substream.left) && |substream.left| < TWO32
                  && forall j :: 0 <= j < n ==> r.items[j] == items[j]
      decreases |substream.left|
    {
      ghost var more := clean && n < |items|;
      ghost var rest := if more && EncodedItems(f, items, n + 1).Some? then EncodedItems(f, items, n + 1).value else [];
      var item;
      ReadItemsStep(f, r, substream.left);
      ok, item := DecodeInteger(substream, f, r.items[r.count], if more then items[n] else Int(0), rest);
      r := r.(items := r.items[r.count := item]);
      if !ok {
        break;
      }
      r := r.(count := r.count + 1);
      n := n + 1;
    }
    if clean {
      ItemsLeft(f, items, n);
    }
    if ok {
      ReadItemsStep(f, r, substream.left);
    }
    if substream.left != [] {
      ok := false;
    }
  }

  /** Items that remain have bytes that remain. */
  lemma {:induction false} ItemsLeft(f: Field, items: seq<Value>, n: nat)
    requires f.ltype.Packable() && ItemsShape(f, items) && n <= |items|
    ensures EncodedItems(f, items, n) == Some([]) <==> n == |items|
  {
    if n < |items| {
      assert EncodedValue(f, items[n]).Some? ==> |EncodedValue(f, items[n]).value| > 0;
    }
  }

  // ---------- how far a message has been decoded ----------

  /** The chunk the encoder writes for a field after k chunks, if there is one. */
  ghost function NextChunk(f: Field, s: Slot, k: nat): Option<Chunk>
    requires SlotShape(f, s)
  {
    match f.htype
    case Required => if k == 0 then Some(Entry(s.value)) else None
    case Optional => if k == 0 && s.has then Some(Entry(s.value)) else None
    case Implicit => if k == 0 && !ZeroValue(f, s.value) then Some(Entry(s.value)) else None
    case OneOf => if k == 0 && s.which == f.tag then Some(Entry(s.member)) else None
    case Repeated =>
      if s.count > |s.items| then None
      else if f.ltype.Packable() then (if k == 0 && s.count > 0 then Some(Packed(s.items[..s.count])) else None)
      else if k < s.count then Some(Entry(s.items[k]))
      else None
  }

  /** The encoding of a field without its first k chunks. */
  ghost function SlotRest(f: Field, s: Slot, k: nat): Option<Bytes>
    requires SlotShape(f, s)
  {
    if f.htype == Repeated && !f.ltype.Packable() && s.count <= f.arraySize then
      EncodedKeyed(f, s.items[..s.count], if k <= s.count then k else s.count)
    else if k == 0 then EncodedSlot(f, s)
    else Some([])
  }

  ghost function Rest(d: Desc, m: Msg, i: nat, k: nat): Option<Bytes>
    requires MsgShape(d, m) && i <= |d.fields|
  {
    if i == |d.fields| then Some([])
    else Cat(SlotRest(d.fields[i], m.slots[d.fields[i].slot], k), EncodedFields(d, m, i + 1))
  }

  lemma {:induction false} RestFromStart(d: Desc, m: Msg, i: nat)
    requires MsgShape(d, m) && i <= |d.fields|
    ensures Rest(d, m, i, 0) == EncodedFields(d, m, i)
  {
    hide EncodedValue, EncodedEntry, EncodedItems;
    if i < |d.fields| {
      var f := d.fields[i];
      var s := m.slots[f.slot];
      assert SlotShape(f, s);
      if f.htype == Repeated && s.count == 0 {
        assert s.items[..0] == [];
        assert EncodedKeyed(f, [], 0) == Some([]);
      }
      assert SlotRest(f, s, 0) == EncodedSlot(f, s);
    }
  }

  lemma {:induction false} SlotRestStep(f: Field, s: Slot, k: nat)
    requires SlotShape(f, s) && SlotRest(f, s, k).Some?
    ensures match NextChunk(f, s, k)
            case None => SlotRest(f, s, k) == Some([])
            case Some(c) =>
              && ChunkShape(f, c)
              && SlotRest(f, s, k) == Cat(Some(Key(f.tag, ChunkWire(f, c))), Cat(Payload(f, c), SlotRest(f, s, k + 1)))
  {
    hide EncodedValue, EncodedItems, Key, LengthPrefixed;
    if f.htype == Repeated {
      if s.count <= f.arraySize {
        RepeatedRestStep(f, s, k);
      }
    } else if NextChunk(f, s, k).Some? {
      var c := NextChunk(f, s, k).value;
      assert ChunkShape(f, c) && SlotRest(f, s, k) == EncodedEntry(f, c.value);
      assert Payload(f, c).value + [] == Payload(f, c).value;
    }
  }

  lemma {:induction false} RepeatedRestStep(f: Field, s: Slot, k: nat)
    requires SlotShape(f, s) && f.htype == Repeated && s.count <= f.arraySize && SlotRest(f, s, k).Some?
    ensures match NextChunk(f, s, k)
            case None => SlotRest(f, s, k) == Some([])
            case Some(c) =>
              && ChunkShape(f, c)
              && SlotRest(f, s, k) == Cat(Some(Key(f.tag, ChunkWire(f, c))), Cat(Payload(f, c), SlotRest(f, s, k + 1)))
  {
    hide EncodedValue, EncodedItems, Key, LengthPrefixed;
    var items := s.items[..s.count];
    if f.ltype.Packable() {
      assert k == 0 ==> SlotRest(f, s, k) == EncodedArray(f, items);
      if k == 0 && s.count > 0 {
        var c := Packed(items);
        assert items != [] && ItemsShape(f, items);
        assert EncodedItems(f, items, 0).Some?;
        assert Payload(f, c).value + [] == Payload(f, c).value;
      } else if k == 0 {
        assert items == [];
      }
    } else if k < s.count {
      var key, v, rest := Key(f.tag, WireType(f.ltype)), EncodedValue(f, items[k]), EncodedKeyed(f, items, k + 1);
      assert EncodedKeyed(f, items, k) == Cat(Cat(Some(key), v), rest);
      assert key + v.value + rest.value == key + (v.value + rest.value);
    } else {
      assert EncodedKeyed(f, items, s.count) == Some([]);
    }
  }

  /** A field is decoded: it equals the source just when the source loses nothing. */
  ghost predicate DoneField(f: Field, s: Slot, t: Slot)
    requires SlotShape(f, s) && SlotShape(f, t)
  {
    SameSlot(f, s, t) <==> LosslessSlot(f, s)
  }

  ghost predicate ArrayFits(f: Field, s: Slot) {
    f.htype == Repeated && s.Array? ==> s.count <= f.arraySize
  }

  /** No chunk of the field has been decoded. */
  ghost predicate FreshField(f: Field, t: Slot)
    requires SlotShape(f, t)
  {
    match f.htype
    case Repeated => t.count == 0
    case OneOf => t.which != f.tag
    case Optional => !t.has && DefaultValue(f, t.value)
    case _ => DefaultValue(f, t.value)
  }

  /** k chunks of the field have been decoded. */
  ghost predicate PartField(f: Field, s: Slot, t: Slot, k: nat)
    requires SlotShape(f, s) && SlotShape(f, t)
  {
    if f.htype == Repeated && !f.ltype.Packable() then
      && t.count == k && k <= s.count <= f.arraySize
      && forall j :: 0 <= j < k ==> (SameValue(f, s.items[j], t.items[j]) <==> LosslessValue(f, s.items[j]))
    else if k == 0 then FreshField(f, t)
    else ArrayFits(f, s) && DoneField(f, s, t)
  }

  lemma {:induction false} FieldFinished(f: Field, s: Slot, t: Slot, k: nat)
    requires FieldOk(f) && SlotShape(f, s) && SlotShape(f, t) && PartField(f, s, t, k)
    requires NextChunk(f, s, k) == None && ArrayFits(f, s)
    ensures DoneField(f, s, t)
  {
    if f.htype == Implicit && k == 0 {
      ZeroValueIsDefault(f, s.value, t.value);
    }
  }

  lemma {:induction false} ChunkReceived(f: Field, s: Slot, t: Slot, k: nat, r: Slot)
    requires FieldOk(f) && SlotShape(f, s) && SlotShape(f, t) && SlotShape(f, r) && SlotOk(f, s)
    requires PartField(f, s, t, k) && NextChunk(f, s, k).Some? && ArrayFits(f, s)
    ensures var c := NextChunk(f, s, k).value;
            ChunkShape(f, c) && Accepts(f, t, c) && (Received(f, t, c, r) ==> PartField(f, s, r, k + 1))
  {
    var c := NextChunk(f, s, k).value;
    assert ChunkShape(f, c) && Accepts(f, t, c);
    if c.Packed? && Received(f, t, c, r) {
      assert forall j :: 0 <= j < |c.items| ==> c.items[j] == s.items[j];
      assert DoneField(f, s, r);
    }
  }

  /** The first i fields are decoded, k chunks of the next, and nothing of the rest. */
  ghost predicate Stage(d: Desc, m: Msg, x: Msg, i: nat, k: nat)
    requires MsgShape(d, m) && MsgShape(d, x) && i <= |d.fields|
  {
    && (forall j :: 0 <= j < i ==> DoneField(d.fields[j], m.slots[d.fields[j].slot], x.slots[d.fields[j].slot]))
    && (forall j :: i < j < |d.fields| ==> FreshField(d.fields[j], x.slots[d.fields[j].slot]))
    && (i < |d.fields| ==> PartField(d.fields[i], m.slots[d.fields[i].slot], x.slots[d.fields[i].slot], k))
  }

  /** Move past the fields that have nothing more to decode. */
  lemma {:induction false} SkipFinished(d: Desc, m: Msg, x: Msg, i: nat, k: nat) returns (i': nat, k': nat)
    requires DescOk(d) && MsgShape(d, m) && MsgShape(d, x) && i <= |d.fields|
    requires Stage(d, m, x, i, k) && Rest(d, m, i, k).Some?
    ensures i <= i' <= |d.fields| && Stage(d, m, x, i', k') && Rest(d, m, i', k') == Rest(d, m, i, k)
    ensures i' < |d.fields| ==> NextChunk(d.fields[i'], m.slots[d.fields[i'].slot], k').Some?
    ensures i' == i ==> k' == k
    ensures i' > i ==> k' == 0
    ensures forall j :: i <= j < i' && d.fields[j].htype == Required ==> j == i && k > 0
    decreases |d.fields| - i
  {
    hide Stage, Rest, SlotShape, FieldOk;
    if i < |d.fields| {
      ShapeAt(d, m, i);
    }
    if i == |d.fields| || NextChunk(d.fields[i], m.slots[d.fields[i].slot], k).Some? {
      i', k' := i, k;
    } else {
      FieldEnds(d, m, x, i, k);
      i', k' := SkipFinished(d, m, x, i + 1, 0);
    }
  }

  lemma {:induction false} FieldEnds(d: Desc, m: Msg, x: Msg, i: nat, k: nat)
    requires DescOk(d) && MsgShape(d, m) && MsgShape(d, x) && i < |d.fields|
    requires Stage(d, m, x, i, k) && Rest(d, m, i, k).Some?
    requires SlotShape(d.fields[i], m.slots[d.fields[i].slot])
    requires NextChunk(d.fields[i], m.slots[d.fields[i].slot], k) == None
    ensures Stage(d, m, x, i + 1, 0) && Rest(d, m, i + 1, 0) == Rest(d, m, i, k)
  {
    var f := d.fields[i];
    var s := m.slots[f.slot];
    assert FieldOk(f) && SlotShape(f, s);
    SlotRestStep(f, s, k);
    RestFits(d, m, x, i, k);
    FieldFinished(f, s, x.slots[f.slot], k);
    StageNext(d, m, x, i, k);
    RestFromStart(d, m, i + 1);
    assert [] + EncodedFields(d, m, i + 1).value == EncodedFields(d, m, i + 1).value;
  }

  lemma {:induction false} StageNext(d: Desc, m: Msg, x: Msg, i: nat, k: nat)
    requires DescOk(d) && MsgShape(d, m) && MsgShape(d, x) && i < |d.fields|
    requires Stage(d, m, x, i, k) && Rest(d, m, i, k).Some?
    requires DoneField(d.fields[i], m.slots[d.fields[i].slot], x.slots[d.fields[i].slot])
    ensures Stage(d, m, x, i + 1, 0)
  {
    if i + 1 < |d.fields| {
      var g := d.fields[i + 1];
      assert SlotShape(g, m.slots[g.slot]) && FreshField(g, x.slots[g.slot]);
      CountFits(d, m, i + 1);
    }
  }

  lemma {:induction false} RestFits(d: Desc, m: Msg, x: Msg, i: nat, k: nat)
    requires MsgShape(d, m) && MsgShape(d, x) && i < |d.fields| && Rest(d, m, i, k).Some? && Stage(d, m, x, i, k)
    ensures ArrayFits(d.fields[i], m.slots[d.fields[i].slot])
  {
    var f := d.fields[i];
    var s := m.slots[f.slot];
    assert SlotShape(f, s) && PartField(f, s, x.slots[f.slot], k);
  }

  /** An encoding exists only if every array fits its storage. */
  lemma {:induction false} CountFits(d: Desc, m: Msg, i: nat)
    requires MsgShape(d, m) && i < |d.fields| && EncodedFields(d, m, i).Some?
    ensures ArrayFits(d.fields[i], m.slots[d.fields[i].slot])
  {
    var f := d.fields[i];
    assert EncodedSlot(f, m.slots[f.slot]).Some?;
  }

  // ---------- the loop ----------

  /** Storing a slot keeps the shape of the message. */
  lemma {:induction false} StoreShape(d: Desc, x: Msg, i: nat, t: Slot)
    requires DescOk(d) && MsgShape(d, x) && i < |d.fields|
    requires SlotShape(d.fields[i], t) && (d.fields[i].htype == OneOf ==> t.which == d.fields[i].tag)
    ensures MsgShape(d, Msg(x.slots[d.fields[i].slot := t]))
  {
    var f := d.fields[i];
    forall j | 0 <= j < |d.fields| ensures SlotShape(d.fields[j], x.slots[f.slot := t][d.fields[j].slot]) {
      var g := d.fields[j];
      assert SlotShape(g, x.slots[g.slot]);
      assert i < j ==> Apart(f, g);
      assert j < i ==> Apart(g, f);
    }
  }

  /** It does not disturb other fields either. */
  lemma {:induction false} StoreSlot(d: Desc, m: Msg, x: Msg, i: nat, k: nat, t: Slot, k': nat)
    requires DescOk(d) && MsgShape(d, m) && MsgShape(d, x) && i < |d.fields|
    requires SlotShape(d.fields[i], t) && (d.fields[i].htype == OneOf ==> t.which == d.fields[i].tag)
    requires MsgShape(d, Msg(x.slots[d.fields[i].slot := t]))
    requires Stage(d, m, x, i, k) && PartField(d.fields[i], m.slots[d.fields[i].slot], t, k')
    requires d.fields[i].htype == OneOf ==> m.slots[d.fields[i].slot].which == d.fields[i].tag
    ensures Stage(d, m, Msg(x.slots[d.fields[i].slot := t]), i, k')
  {
    hide SameValue, LosslessValue, DefaultValue, ValueShape;
    var f := d.fields[i];
    var x' := Msg(x.slots[f.slot := t]);
    forall j | 0 <= j < |d.fields| && j != i
      ensures var g := d.fields[j];
              && (FreshField(g, x.slots[g.slot]) ==> FreshField(g, x'.slots[g.slot]))
              && (DoneField(g, m.slots[g.slot], x.slots[g.slot]) ==> DoneField(g, m.slots[g.slot], x'.slots[g.slot]))
    {
      var g := d.fields[j];
      assert SlotShape(g, x.slots[g.slot]) && SlotShape(g, m.slots[g.slot]) && SlotShape(g, x'.slots[g.slot]);
      assert if i < j then Apart(f, g) else Apart(g, f);
    }
  }

  /** Receiving the next chunk moves the stage on. */
  lemma {:induction false} StageReceived(d: Desc, m: Msg, x: Msg, i: nat, k: nat, t: Slot)
    requires DescOk(d) && MsgShape(d, m) && MsgShape(d, x) && MsgOk(d, m) && i < |d.fields|
    requires Stage(d, m, x, i, k) && Rest(d, m, i, k).Some?
    requires NextChunk(d.fields[i], m.slots[d.fields[i].slot], k).Some?
    requires SlotShape(d.fields[i], t) && (d.fields[i].htype == OneOf ==> t.which == d.fields[i].tag)
    requires var c := NextChunk(d.fields[i], m.slots[d.fields[i].slot], k).value;
             var u := x.slots[d.fields[i].slot];
             && SlotShape(d.fields[i], u) && ChunkShape(d.fields[i], c) && Accepts(d.fields[i], u, c)
             && Received(d.fields[i], u, c, t)
    ensures MsgShape(d, Msg(x.slots[d.fields[i].slot := t]))
    ensures Stage(d, m, Msg(x.slots[d.fields[i].slot := t]), i, k + 1)
  {
    hide SameValue, LosslessValue, DefaultValue, ValueShape, Rest, Received, Accepts, FreshField, DoneField;
    ShapeAt(d, m, i);
    ShapeAt(d, x, i);
    RestFits(d, m, x, i, k);
    var f := d.fields[i];
    assert SlotOk(f, m.slots[f.slot]);
    ChunkReceived(f, m.slots[f.slot], x.slots[f.slot], k, t);
    StoreShape(d, x, i, t);
    StoreSlot(d, m, x, i, k, t, k + 1);
  }

  /** The next chunk at the front of the stream is known. */
  lemma {:induction false} ChunkAhead(d: Desc, m: Msg, x: Msg, i: nat, k: nat, left: Bytes)
    requires DescOk(d) && MsgShape(d, m) && MsgShape(d, x) && MsgOk(d, m) && i < |d.fields|
    requires Stage(d, m, x, i, k) && Rest(d, m, i, k) == Some(left) && |left| < TWO32
    requires NextChunk(d.fields[i], m.slots[d.fields[i].slot], k).Some?
    ensures var f := d.fields[i];
            var s := m.slots[f.slot];
            var c := NextChunk(f, s, k).value;
            && FieldOk(f) && SlotShape(f, s) && ChunkShape(f, c) && Accepts(f, x.slots[f.slot], c)
            && Rest(d, m, i, k + 1).Some?
            && Payload(f, c).Some?
            && left == Key(f.tag, ChunkWire(f, c)) + (Payload(f, c).value + Rest(d, m, i, k + 1).value)
            && Starts(Payload(f, c).value + Rest(d, m, i, k + 1).value, Payload(f, c), Rest(d, m, i, k + 1).value)
  {
    hide EncodedSlot, Key, Payload, SameValue, LosslessValue, DefaultValue, ValueOk, SlotRest, EncodedFields;
    var f := d.fields[i];
    var s := m.slots[f.slot];
    assert FieldOk(f) && SlotShape(f, s) && SlotOk(f, s);
    SlotRestStep(f, s, k);
    RestFits(d, m, x, i, k);
    ChunkReceived(f, s, x.slots[f.slot], k, x.slots[f.slot]);
    var c := NextChunk(f, s, k).value;
    var key, p, q, e := Key(f.tag, ChunkWire(f, c)), Payload(f, c).value, SlotRest(f, s, k + 1).value,
      EncodedFields(d, m, i + 1).value;
    assert key + (p + q) + e == key + (p + (q + e));
  }

  /** The check of the fields_seen words: whole words are all ones, and the last one has
      ones for exactly the remaining fields. */
  predicate AllSeen(seen: seq<bool>, count: nat)
    requires |seen| == MAX_REQUIRED_FIELDS && count < MAX_REQUIRED_FIELDS
  {
    && (forall i :: 0 <= i < count / 32 * 32 ==> seen[i])
    && (forall i :: count / 32 * 32 <= i < count / 32 * 32 + 32 ==> (seen[i] <==> i < count))
  }

  /** The bits of the required fields before i, and of i itself when it has been decoded. */
  ghost predicate SeenUpTo(d: Desc, seen: seq<bool>, i: nat, k: nat)
    requires |seen| == MAX_REQUIRED_FIELDS && RequiredBefore(d.fields, |d.fields|) < MAX_REQUIRED_FIELDS
             && i <= |d.fields|
  {
    forall x :: 0 <= x < RequiredSoFar(d, i, k) ==> x < |seen| && seen[x]
  }

  ghost function RequiredSoFar(d: Desc, i: nat, k: nat): nat
    requires i <= |d.fields|
  {
    RequiredBefore(d.fields, i) + if i < |d.fields| && k > 0 && d.fields[i].htype == Required then 1 else 0
  }

  lemma {:induction false} RequiredMonotone(fields: seq<Field>, i: nat, j: nat)
    requires i <= j <= |fields|
    ensures RequiredBefore(fields, i) <= RequiredBefore(fields, j)
    ensures i < j && fields[i].htype == Required ==> RequiredBefore(fields, i) < RequiredBefore(fields, j)
    decreases j
  {
    if i < j {
      RequiredMonotone(fields, i, j - 1);
    }
  }

  /** Fields skipped because they have no chunk are not required ones. */
  lemma {:induction false} SeenSkip(d: Desc, seen: seq<bool>, i: nat, k: nat, i': nat, k': nat)
    requires |seen| == MAX_REQUIRED_FIELDS && RequiredBefore(d.fields, |d.fields|) < MAX_REQUIRED_FIELDS
    requires i <= i' <= |d.fields| && SeenUpTo(d, seen, i, k) && (i' == i ==> k' == k) && (i' > i ==> k' == 0)
    requires forall j :: i <= j < i' && d.fields[j].htype == Required ==> j == i && k > 0
    ensures SeenUpTo(d, seen, i', k')
  {
    if i < i' {
      NoneRequired(d.fields, i + 1, i');
      RequiredNext(d.fields, i);
      assert d.fields[i].htype == Required ==> k > 0;
      assert RequiredSoFar(d, i, k) == RequiredBefore(d.fields, i + 1);
      assert k' == 0 && RequiredSoFar(d, i', 0) == RequiredBefore(d.fields, i');
    }
    RequiredMonotone(d.fields, i', |d.fields|);
    forall x | 0 <= x < RequiredSoFar(d, i', k') ensures x < |seen| && seen[x] {
      assert x < RequiredSoFar(d, i, k) && x < |seen|;
      assert seen[x];
    }
  }

  lemma {:induction false} RequiredNext(fields: seq<Field>, i: nat)
    requires i < |fields|
    ensures RequiredBefore(fields, i + 1) == RequiredBefore(fields, i) + if fields[i].htype == Required then 1 else 0
  {
  }

  lemma {:induction false} NoneRequired(fields: seq<Field>, i: nat, j: nat)
    requires i <= j <= |fields| && forall x :: i <= x < j ==> fields[x].htype != Required
    ensures RequiredBefore(fields, j) == RequiredBefore(fields, i)
    decreases j
  {
    if i < j {
      NoneRequired(fields, i, j - 1);
    }
  }

  /** When all fields are decoded, the message is the source just when the source is lossless. */
  lemma {:induction false} AllDone(d: Desc, m: Msg, x: Msg)
    requires MsgShape(d, m) && MsgShape(d, x) && Stage(d, m, x, |d.fields|, 0)
    ensures Same(d, m, x) <==> Lossless(d, m)
  {
    hide SameSlot, LosslessSlot;
    forall i | 0 <= i < |d.fields|
      ensures SameSlot(d.fields[i], m.slots[d.fields[i].slot], x.slots[d.fields[i].slot]) <==>
              LosslessSlot(d.fields[i], m.slots[d.fields[i].slot])
    {
      assert DoneField(d.fields[i], m.slots[d.fields[i].slot], x.slots[d.fields[i].slot]);
    }
  }

  lemma {:induction false} StageAtStart(d: Desc, m: Msg, x: Msg)
    requires DescOk(d) && MsgShape(d, m) && MsgShape(d, x) && DefaultMsg(d, x) && Encoded(d, m).Some?
    ensures Stage(d, m, x, 0, 0)
  {
    hide DefaultValue, SameValue, LosslessValue;
    forall i | 0 <= i < |d.fields| ensures FreshField(d.fields[i], x.slots[d.fields[i].slot]) {
      var f := d.fields[i];
      assert FieldOk(f) && SlotShape(f, x.slots[f.slot]) && DefaultSlot(f, x.slots[f.slot]);
    }
    if d.fields != [] {
      var f := d.fields[0];
      assert SlotShape(f, m.slots[f.slot]) && FreshField(f, x.slots[f.slot]);
      CountFits(d, m, 0);
    }
  }

  lemma {:induction false} SeenNothing(d: Desc, seen: seq<bool>)
    requires |seen| == MAX_REQUIRED_FIELDS && RequiredBefore(d.fields, |d.fields|) < MAX_REQUIRED_FIELDS
    ensures SeenUpTo(d, seen, 0, 0)
  {
    assert RequiredSoFar(d, 0, 0) == 0;
  }

  lemma {:induction false} SeenNext(d: Desc, m: Msg, before: seq<bool>, seen: seq<bool>, i: nat, k: nat)
    requires |before| == |seen| == MAX_REQUIRED_FIELDS && RequiredBefore(d.fields, |d.fields|) < MAX_REQUIRED_FIELDS
    requires i < |d.fields| && MsgShape(d, m) && SlotShape(d.fields[i], m.slots[d.fields[i].slot])
    requires NextChunk(d.fields[i], m.slots[d.fields[i].slot], k).Some?
    requires SeenUpTo(d, before, i, k) && forall x :: 0 <= x < |before| && before[x] ==> seen[x]
    requires d.fields[i].htype == Required ==> RequiredBefore(d.fields, i) < |seen| && seen[RequiredBefore(d.fields, i)]
    ensures SeenUpTo(d, seen, i, k + 1)
  {
    hide MsgShape, SlotShape, RequiredBefore;
    RequiredMonotone(d.fields, i, |d.fields|);
    var n := RequiredBefore(d.fields, i);
    assert RequiredSoFar(d, i, k + 1) <= n + 1 && RequiredSoFar(d, i, k) >= n;
    assert RequiredSoFar(d, i, k + 1) == n + 1 ==> d.fields[i].htype == Required;
    forall x | 0 <= x < RequiredSoFar(d, i, k + 1) ensures x < |seen| && seen[x] {
      if x < n {
        assert x < RequiredSoFar(d, i, k) && before[x];
      }
    }
  }

  lemma {:induction false} RestAtEnd(d: Desc, m: Msg, k: nat)
    requires MsgShape(d, m)
    ensures Rest(d, m, |d.fields|, k) == Some([])
  {
  }

  lemma {:induction false} SameTag(d: Desc, p: nat, i: nat)
    requires DescOk(d) && p < |d.fields| && i < |d.fields|
    ensures d.fields[p].tag == d.fields[i].tag ==> p == i
  {
    assert p < i ==> Apart(d.fields[p], d.fields[i]);
    assert i < p ==> Apart(d.fields[i], d.fields[p]);
  }

  lemma {:induction false} ShapeAt(d: Desc, m: Msg, i: nat)
    requires DescOk(d) && MsgShape(d, m) && i < |d.fields|
    ensures FieldOk(d.fields[i]) && d.fields[i].slot < |m.slots| && SlotShape(d.fields[i], m.slots[d.fields[i].slot])
  {
  }

  /** With the stream used up, every field is decoded and every required field was seen. */
  lemma {:induction false} AtEnd(d: Desc, m: Msg, x: Msg, seen: seq<bool>, i: nat, k: nat)
    requires DescOk(d) && MsgShape(d, m) && MsgShape(d, x) && |seen| == MAX_REQUIRED_FIELDS
    requires Decoding(d, m, x, seen, [], i, k)
    requires forall y :: 0 <= y < |seen| && seen[y] ==> y < RequiredBefore(d.fields, |d.fields|)
    ensures Same(d, m, x) <==> Lossless(d, m)
    ensures RequiredBefore(d.fields, |d.fields|) == 0 || AllSeen(seen, RequiredBefore(d.fields, |d.fields|))
  {
    if i < |d.fields| {
      ChunkAhead(d, m, x, i, k, []);
    }
    AllDone(d, m, x);
    SeenAtEnd(d, seen, k);
  }

  lemma {:induction false} SeenAtEnd(d: Desc, seen: seq<bool>, k: nat)
    requires DescOk(d) && |seen| == MAX_REQUIRED_FIELDS && SeenUpTo(d, seen, |d.fields|, k)
    requires forall y :: 0 <= y < |seen| && seen[y] ==> y < RequiredBefore(d.fields, |d.fields|)
    ensures RequiredBefore(d.fields, |d.fields|) == 0 || AllSeen(seen, RequiredBefore(d.fields, |d.fields|))
  {
  }

  lemma {:induction false} FewRequired(d: Desc)
    requires DescOk(d)
    ensures RequiredBefore(d.fields, |d.fields|) < MAX_REQUIRED_FIELDS
  {
  }

  /** The check at the end of pb_decode_noinit, which counts the required fields by
      seeking to the end of the field array. */
  method CheckRequired(d: Desc, seen: seq<bool>, iter: FieldIter) returns (ok: bool)
    requires |seen| == MAX_REQUIRED_FIELDS && iter.Valid() && iter.fields == d.fields
    requires RequiredBefore(d.fields, |d.fields|) < MAX_REQUIRED_FIELDS
    modifies iter
    ensures var count := RequiredBefore(d.fields, |d.fields|);
            ok <==> count == 0 || AllSeen(seen, count)
  {
    if d.fields == [] {
      return true;
    }
    var count, last := iter.requiredIndex, d.fields[iter.pos].htype;
    var more := iter.Next();
    while more
      invariant iter.Valid()
      invariant if more then 0 < iter.pos else
                  count == RequiredBefore(d.fields, |d.fields| - 1) && last == d.fields[|d.fields| - 1].htype
      decreases more, |d.fields| - iter.pos
    {
      count, last := iter.requiredIndex, d.fields[iter.pos].htype;
      more := iter.Next();
    }
    if last == Required {
      count := count + 1;
    }
    ok := count == 0 || AllSeen(seen, count);
  }

  /** The stream holds what the encoder writes from chunk k of field i on, everything before
      it is decoded, and the required fields decoded so far have been seen. */
  ghost predicate Decoding(d: Desc, m: Msg, x: Msg, seen: seq<bool>, left: Bytes, i: nat, k: nat)
    requires DescOk(d) && MsgShape(d, m) && MsgShape(d, x) && |seen| == MAX_REQUIRED_FIELDS
  {
    && i <= |d.fields| && MsgOk(d, m) && |left| < TWO32
    && Stage(d, m, x, i, k) && Rest(d, m, i, k) == Some(left) && SeenUpTo(d, seen, i, k)
    && (i < |d.fields| ==> SlotShape(d.fields[i], m.slots[d.fields[i].slot])
                           && NextChunk(d.fields[i], m.slots[d.fields[i].slot], k).Some?)
  }

  lemma {:induction false} DecodingSkip(d: Desc, m: Msg, x: Msg, seen: seq<bool>, left: Bytes, i: nat, k: nat)
    returns (i': nat, k': nat)
    requires DescOk(d) && MsgShape(d, m) && MsgShape(d, x) && |seen| == MAX_REQUIRED_FIELDS
    requires i <= |d.fields| && MsgOk(d, m) && |left| < TWO32
    requires Stage(d, m, x, i, k) && Rest(d, m, i, k) == Some(left) && SeenUpTo(d, seen, i, k)
    ensures Decoding(d, m, x, seen, left, i', k')
  {
    hide Stage, Rest, MsgOk, SeenUpTo, SlotShape;
    i', k' := SkipFinished(d, m, x, i, k);
    SeenSkip(d, seen, i, k, i', k');
    if i' < |d.fields| {
      ShapeAt(d, m, i');
    }
  }

  lemma {:induction false} DecodingStart(d: Desc, m: Msg, x: Msg, seen: seq<bool>, left: Bytes) returns (i: nat, k: nat)
    requires DescOk(d) && MsgShape(d, m) && MsgShape(d, x) && |seen| == MAX_REQUIRED_FIELDS
    requires MsgOk(d, m) && Starts(left, Encoded(d, m), []) && DefaultMsg(d, x)
    ensures Decoding(d, m, x, seen, left, i, k)
  {
    StageAtStart(d, m, x);
    RestFromStart(d, m, 0);
    SeenNothing(d, seen);
    assert left == Encoded(d, m).value;
    i, k := DecodingSkip(d, m, x, seen, left, 0, 0);
  }

  /** The chunk that comes next. */
  ghost function ChunkAt(d: Desc, m: Msg, i: nat, k: nat): Chunk
    requires MsgShape(d, m) && i < |d.fields|
    requires SlotShape(d.fields[i], m.slots[d.fields[i].slot])
             && NextChunk(d.fields[i], m.slots[d.fields[i].slot], k).Some?
  {
    NextChunk(d.fields[i], m.slots[d.fields[i].slot], k).value
  }

  /** What is ahead: the key of a field, and the payload of its next chunk. */
  lemma {:induction false} ChunkFirst(d: Desc, m: Msg, x: Msg, seen: seq<bool>, input: Bytes, i: nat, k: nat)
    returns (c: Chunk, left: Bytes)
    requires DescOk(d) && MsgShape(d, x) && MsgShape(d, m) && |seen| == MAX_REQUIRED_FIELDS
    requires Decoding(d, m, x, seen, input, i, k) && input != []
    ensures i < |d.fields| && SlotShape(d.fields[i], m.slots[d.fields[i].slot])
            && SlotShape(d.fields[i], x.slots[d.fields[i].slot])
    ensures NextChunk(d.fields[i], m.slots[d.fields[i].slot], k) == Some(c) && ChunkShape(d.fields[i], c)
    ensures Accepts(d.fields[i], x.slots[d.fields[i].slot], c) && Rest(d, m, i, k + 1) == Some(left) && |left| < TWO32
    ensures var r := GetVarint32(input);
            && r.Some? && r.value.0 != 0 && r.value.0 / 8 == d.fields[i].tag
            && r.value.0 % 8 == ChunkWire(d.fields[i], c)
            && Starts(r.value.1, Payload(d.fields[i], c), left)
  {
    hide MsgOk, Stage, Rest, Key, Payload, SeenUpTo, GetVarint32, Accepts, Encoded;
    RestAtEnd(d, m, k);
    c := ChunkAt(d, m, i, k);
    ChunkAhead(d, m, x, i, k, input);
    left := Rest(d, m, i, k + 1).value;
    ShapeAt(d, x, i);
    KeyAhead(d.fields[i].tag, ChunkWire(d.fields[i], c), Payload(d.fields[i], c).value + left);
  }

  /** The chunk has been received; the next one is ahead. */
  lemma {:induction false} ChunkDone(d: Desc, m: Msg, x: Msg, before: seq<bool>, seen: seq<bool>, input: Bytes,
                                     left: Bytes,
                                     i: nat, k: nat, c: Chunk, t: Slot, r: Msg)
    requires DescOk(d) && MsgShape(d, x) && MsgShape(d, m) && |before| == |seen| == MAX_REQUIRED_FIELDS
    requires i < |d.fields| && Decoding(d, m, x, before, input, i, k) && d.fields[i].slot < |x.slots|
             && d.fields[i].slot < |m.slots|
    requires SlotShape(d.fields[i], m.slots[d.fields[i].slot]) && SlotShape(d.fields[i], x.slots[d.fields[i].slot])
    requires NextChunk(d.fields[i], m.slots[d.fields[i].slot], k) == Some(c) && ChunkShape(d.fields[i], c)
    requires SlotShape(d.fields[i], t) && (d.fields[i].htype == OneOf ==> t.which == d.fields[i].tag)
    requires Accepts(d.fields[i], x.slots[d.fields[i].slot], c)
             && Received(d.fields[i], x.slots[d.fields[i].slot], c, t)
    requires Rest(d, m, i, k + 1) == Some(left) && |left| < TWO32
    requires forall y :: 0 <= y < |before| && before[y] ==> seen[y]
    requires d.fields[i].htype == Required ==> RequiredBefore(d.fields, i) < |seen| && seen[RequiredBefore(d.fields, i)]
    requires r == Msg(x.slots[d.fields[i].slot := t]) && MsgShape(d, r)
    ensures exists i', k' :: Decoding(d, m, r, seen, left, i', k')
  {
    hide MsgOk, Stage, Rest, SeenUpTo, Received, Accepts, Encoded;
    StageReceived(d, m, x, i, k, t);
    SeenNext(d, m, before, seen, i, k);
    var i', k' := DecodingSkip(d, m, r, seen, left, i, k + 1);
  }

  lemma {:induction false} ZeroedChunkShape(f: Field)
    requires FieldOk(f)
    ensures ChunkShape(f, Entry(ZeroedValue(f)))
  {
    ZeroedValueShape(f);
  }

  /** The bit of a required field with the tag is set. */
  function Marked(d: Desc, seen: seq<bool>, tag: nat): (r: seq<bool>)
    ensures |r| == |seen|
  {
    var i := FieldOf(d.fields, tag);
    if i < |d.fields| && d.fields[i].htype == Required && RequiredBefore(d.fields, i) < |seen| then
      seen[RequiredBefore(d.fields, i) := true]
    else seen
  }

  /** One step of the loop, on any bytes. */
  ghost predicate ReadsNext(d: Desc, x: Msg, seen: seq<bool>, bs: Bytes, ok: bool, eof: bool,
                            r: Msg, seen': seq<bool>, left: Bytes)
  {
    match GetVarint32(bs)
    case None => !ok && (eof <==> |bs| <= 5) && r == x && seen' == seen
    case Some(key) =>
      if key.0 == 0 then !ok && eof && r == x && seen' == seen
      else
        match ReadOne(d, x, key.0, key.1)
        case None => !ok && !eof
        case Some(one) => ok && r == one.0 && left == one.1 && seen' == Marked(d, seen, key.0 / 8)
  }

  lemma {:induction false} FoundField(d: Desc, i: nat, tag: nat)
    requires DescOk(d) && i < |d.fields| && d.fields[i].tag == tag
    ensures FieldOf(d.fields, tag) == i
  {
    SameTag(d, FieldOf(d.fields, tag), i);
  }

  /** The bits of the required fields stand for the tags read. */
  ghost predicate SeenTags(d: Desc, seen: seq<bool>, tags: set<nat>) {
    && |seen| == MAX_REQUIRED_FIELDS && RequiredBefore(d.fields, |d.fields|) < MAX_REQUIRED_FIELDS
    && (forall y :: 0 <= y < |seen| && seen[y] ==> y < RequiredBefore(d.fields, |d.fields|))
    && (forall i :: 0 <= i < |d.fields| && d.fields[i].htype == Required ==> SeenField(d, seen, tags, i))
  }

  ghost predicate SeenField(d: Desc, seen: seq<bool>, tags: set<nat>, i: nat)
    requires i < |d.fields|
  {
    var n := RequiredBefore(d.fields, i);
    n < |seen| && (seen[n] <==> d.fields[i].tag in tags)
  }

  lemma {:induction false} MarkedSeen(d: Desc, seen: seq<bool>, tags: set<nat>, tag: nat)
    requires DescOk(d) && SeenTags(d, seen, tags)
    ensures SeenTags(d, Marked(d, seen, tag), tags + {tag})
  {
    var p := FieldOf(d.fields, tag);
    var seen' := Marked(d, seen, tag);
    if p < |d.fields| {
      RequiredMonotone(d.fields, p, |d.fields|);
    }
    forall i | 0 <= i < |d.fields| && d.fields[i].htype == Required ensures SeenField(d, seen', tags + {tag}, i) {
      assert SeenField(d, seen, tags, i);
      if p < |d.fields| {
        SameTag(d, p, i);
        if p < i {
          RequiredMonotone(d.fields, p, i);
        } else if i < p {
          RequiredMonotone(d.fields, i, p);
        }
      }
    }
  }

  lemma {:induction false} NoTags(d: Desc, seen: seq<bool>)
    requires DescOk(d) && seen == seq(MAX_REQUIRED_FIELDS, _ => false)
    ensures SeenTags(d, seen, {})
  {
    forall i | 0 <= i < |d.fields| && d.fields[i].htype == Required ensures SeenField(d, seen, {}, i) {
      RequiredMonotone(d.fields, i, |d.fields|);
    }
  }

  /** Every number below the count is that of a required field. */
  lemma {:induction false} RequiredAt(fields: seq<Field>, n: nat, y: nat) returns (i: nat)
    requires n <= |fields| && y < RequiredBefore(fields, n)
    ensures i < n && fields[i].htype == Required && RequiredBefore(fields, i) == y
  {
    if fields[n - 1].htype == Required && y == RequiredBefore(fields, n - 1) {
      i := n - 1;
    } else {
      i := RequiredAt(fields, n - 1, y);
    }
  }

  /** The word-wise check is the test that all required fields were read. */
  lemma {:induction false} AllSeenIsRequiredRead(d: Desc, seen: seq<bool>, tags: set<nat>)
    requires DescOk(d) && SeenTags(d, seen, tags)
    ensures var count := RequiredBefore(d.fields, |d.fields|);
            (count == 0 || AllSeen(seen, count)) <==> RequiredRead(d, tags)
  {
    var count := RequiredBefore(d.fields, |d.fields|);
    if count == 0 || AllSeen(seen, count) {
      forall i | 0 <= i < |d.fields| && d.fields[i].htype == Required ensures d.fields[i].tag in tags {
        RequiredMonotone(d.fields, i, |d.fields|);
        assert SeenField(d, seen, tags, i);
      }
    }
    if RequiredRead(d, tags) {
      forall y | 0 <= y < count ensures seen[y] {
        var i := RequiredAt(d.fields, |d.fields|, y);
        assert SeenField(d, seen, tags, i);
      }
    }
  }

  lemma {:induction false} StepTaken(d: Desc, x: Msg, seen: seq<bool>, bs: Bytes, ok: bool, eof: bool, r: Msg,
                                     seen': seq<bool>, left: Bytes, tags: set<nat>, all: Option<(Msg, set<nat>)>)
    returns (tags': set<nat>)
    requires DescOk(d) && SeenTags(d, seen, tags) && bs != [] && ReadsNext(d, x, seen, bs, ok, eof, r, seen', left)
    requires all == With(ReadFields(d, x, bs), tags)
    ensures !ok && !eof ==> all == None
    ensures !ok && eof ==> all == Some((r, tags')) && SeenTags(d, seen', tags')
    ensures ok ==> all == With(ReadFields(d, r, left), tags') && SeenTags(d, seen', tags')
  {
    hide ReadFields, With, SeenTags, Marked, ReadOne, GetVarint32, DescOk;
    ReadFieldsStep(d, x, bs, tags);
    tags' := tags;
    if ok {
      var tag := GetVarint32(bs).value.0 / 8;
      tags' := tags + {tag};
      MarkedSeen(d, seen, tags, tag);
    }
  }

  /** One key is read from the stream, and the field it names is decoded or skipped. */
  method DecodeNext(stream: IStream, d: Desc, x: Msg, seen: seq<bool>, iter: FieldIter, ghost m: Msg, ghost i: nat,
                    ghost k: nat)
    returns (ok: bool, eof: bool, r: Msg, seen': seq<bool>)
    requires DescOk(d) && MsgShape(d, x) && MsgShape(d, m) && |seen| == MAX_REQUIRED_FIELDS
    requires iter.Valid() && iter.fields == d.fields && stream.left != []
    requires forall y :: 0 <= y < |seen| && seen[y] ==> y < RequiredBefore(d.fields, |d.fields|)
    modifies stream, iter
    ensures iter.Valid() && MsgShape(d, r) && |seen'| == MAX_REQUIRED_FIELDS
    ensures ok ==> |stream.left| < |old(stream.left)|
    ensures forall y :: 0 <= y < |seen'| && seen'[y] ==> y < RequiredBefore(d.fields, |d.fields|)
    ensures ReadsNext(d, x, seen, old(stream.left), ok, eof, r, seen', stream.left)
    ensures Decoding(d, m, x, seen, old(stream.left), i, k) ==>
              ok && exists i', k' :: Decoding(d, m, r, seen', stream.left, i', k')
    decreases d, 6
  {
    hide MsgOk, Stage, Rest, Key, Payload, SeenUpTo, GetVarint32, Received, Accepts, NanopbStreams.Skipped, Encoded,
         Decoding, NextChunk, ChunkShape, ChunkWire, RequiredBefore, SlotShape, ValueShape;
    r, seen', eof := x, seen, false;
    ghost var clean := Decoding(d, m, x, seen, stream.left, i, k);
    ghost var input, c, left: Bytes := stream.left, Entry(Int(0)), [];
    if clean {
      c, left := ChunkFirst(d, m, x, seen, input, i, k);
    }
    var wireType, tag;
    ok, wireType, tag, eof := stream.DecodeTag();
    if !ok {
      return;
    }
    var found := false;
    if d.fields == [] {
      if tag == 0 {
        assert FieldOf(d.fields, 0) == 0;
        // The terminator itself matches tag zero, and has no valid size.
        ok := false;
        return;
      }
    } else {
      found := iter.Find(tag);
    }
    if !found {
      ok := stream.SkipField(wireType);
      return;
    }
    var f := d.fields[iter.pos];
    FoundField(d, iter.pos, tag);
    RequiredMonotone(d.fields, iter.pos, |d.fields|);
    if f.htype == Required && iter.requiredIndex < MAX_REQUIRED_FIELDS {
      seen' := seen[iter.requiredIndex := true];
    }
    if clean {
      SameTag(d, iter.pos, i);
    } else {
      c := Entry(ZeroedValue(f));
    }
    ZeroedChunkShape(f);
    ShapeAt(d, x, iter.pos);
    var t;
    ok, t := DecodeField(stream, wireType, f, x.slots[f.slot], c, left);
    StoreShape(d, x, iter.pos, t);
    r := Msg(x.slots[f.slot := t]);
    if clean {
      ChunkDone(d, m, x, seen, seen', input, left, i, k, c, t, r);
    }
  }

  /** pb_decode_noinit. */
  method DecodeNoInit(stream: IStream, d: Desc, dest: Msg, ghost m: Msg) returns (ok: bool, r: Msg)
    requires DescOk(d) && MsgShape(d, dest) && MsgShape(d, m)
    modifies stream
    ensures MsgShape(d, r)
    ensures match ReadMessage(d, dest, old(stream.left)) case None => !ok case Some(x) => ok && r == x
    ensures MsgOk(d, m) && Starts(old(stream.left), Encoded(d, m), []) && DefaultMsg(d, dest) ==>
              ok && (Same(d, m, r) <==> Lossless(d, m))
    decreases d, 7
  {
    hide *;
    r := dest;
    var seen := seq(MAX_REQUIRED_FIELDS, _ => false);
    var iter := new FieldIter(d.fields);
    ghost var clean := MsgOk(d, m) && Starts(stream.left, Encoded(d, m), []) && DefaultMsg(d, dest);
    ghost var i, k := 0, 0;
    if clean {
      i, k := DecodingStart(d, m, r, seen, stream.left);
    }
    ghost var tags, all, over := {}, ReadFields(d, dest, stream.left), false;
    ReadMessageIs(d, dest, stream.left);
    NoTags(d, seen);
    WithNone(all);
    while stream.left != []
      invariant !over
      invariant SeenTags(d, seen, tags) && all == With(ReadFields(d, r, stream.left), tags)
      invariant MsgShape(d, r) && |seen| == MAX_REQUIRED_FIELDS && fresh(iter) && iter.Valid()
                && iter.fields == d.fields
      invariant forall y :: 0 <= y < |seen| && seen[y] ==> y < RequiredBefore(d.fields, |d.fields|)
      invariant clean ==> Decoding(d, m, r, seen, stream.left, i, k)
      decreases |stream.left|
    {
      var next, eof;
      ghost var before, x, marks := stream.left, r, seen;
      next, eof, r, seen := DecodeNext(stream, d, r, seen, iter, m, i, k);
      tags := StepTaken(d, x, marks, before, next, eof, r, seen, stream.left, tags, all);
      if !next {
        if eof {
          over := true;
          break;
        }
        return false, r;
      }
      if clean {
        i, k :| Decoding(d, m, r, seen, stream.left, i, k);
      }
    }
    if clean {
      AtEnd(d, m, r, seen, i, k);
    }
    FewRequired(d);
    if !over {
      ReadFieldsStep(d, r, stream.left, tags);
    }
    AllSeenIsRequiredRead(d, seen, tags);
    ok := CheckRequired(d, seen, iter);
  }
}

/** Nanopb's field descriptors and message structs (nanopb/pb.h), for statically allocated
    fields, with the 32-bit sizes this repository builds it with (PB_FIELD_32BIT).

    A message struct is a list of slots.  A field names its slot; only the members of
    one oneof share a slot. */
module NanopbMessages {
  import opened Coding

  /** Field data types. */
  datatype LType =
    | VarIntType | UVarIntType | SVarIntType | Fixed32Type | Fixed64Type
    | BytesType | StringType | SubMessage(desc: Desc) | FixedLengthBytes
  {
    predicate Packable() {
      VarIntType? || UVarIntType? || SVarIntType? || Fixed32Type? || Fixed64Type?
    }
  }

  /** Field repetition rules.  An Implicit field is optional without a has_ flag (proto3). */
  datatype HType = Required | Optional | Implicit | Repeated | OneOf

  datatype Field = Field(tag: nat, htype: HType, ltype: LType, slot: nat, dataSize: nat, arraySize: nat, dflt: Value)

  datatype Desc = Desc(fields: seq<Field>, slotCount: nat)

  /** A string value is its characters up to the NUL. */
  datatype Value = Int(v: int) | Blob(b: Bytes) | Sub(m: Msg)

  /** The storage of a field.  In a oneof, `which` is the tag of the member that is set (or
      zero), and zeroAs the tags of the others as which the bytes of the union read as zero. */
  datatype Slot =
    | Single(has: bool, value: Value)
    | Array(count: nat, items: seq<Value>)
    | Choice(which: nat, member: Value, zeroAs: set<nat>)

  datatype Msg = Msg(slots: seq<Slot>)

  const SIZE_MAX: nat := TWO32 - 1
  /** offsetof(pb_bytes_array_t, bytes) */
  const BYTES_OFFSET: nat := 4

  // ---------- well-formed descriptors ----------

  predicate IntegerSize(n: nat) {
    n == 1 || n == 2 || n == 4 || n == 8
  }

  predicate FieldOk(f: Field)
    decreases f, 1
  {
    && 0 < f.tag < 0x2000_0000
    && (f.htype == Repeated ==> f.arraySize > 0)
    && (if f.ltype.SubMessage? then DescOk(f.ltype.desc) else ValueShape(f, f.dflt))
  }

  predicate DescOk(d: Desc)
    decreases d, 2
  {
    && (forall i :: 0 <= i < |d.fields| ==> FieldOk(d.fields[i]) && d.fields[i].slot < d.slotCount)
    && (forall i, j :: 0 <= i < j < |d.fields| ==> Apart(d.fields[i], d.fields[j]))
    && (RequiredBefore(d.fields, |d.fields|) == 0 || RequiredBefore(d.fields, |d.fields|) % 32 != 0)
    && RequiredBefore(d.fields, |d.fields|) < MAX_REQUIRED_FIELDS
  }

  const MAX_REQUIRED_FIELDS: nat := 64

  /** Distinct fields have distinct tags, and share storage only inside a oneof. */
  predicate Apart(f: Field, g: Field) {
    f.tag != g.tag && (f.slot == g.slot ==> f.htype == OneOf && g.htype == OneOf)
  }

  function RequiredBefore(fields: seq<Field>, i: nat): (n: nat)
    requires i <= |fields|
    ensures n <= i
  {
    if i == 0 then 0 else RequiredBefore(fields, i - 1) + if fields[i - 1].htype == Required then 1 else 0
  }

  // ---------- well-formed storage ----------

  /** Storage of the right shape for a value, whatever it holds. */
  predicate ValueShape(f: Field, v: Value)
    decreases f, 0
  {
    match f.ltype
    case SubMessage(d) => v.Sub? && MsgShape(d, v.m)
    case BytesType => v.Blob?
    case StringType => v.Blob?
    case FixedLengthBytes => v.Blob?
    case _ => v.Int?
  }

  predicate SlotShape(f: Field, s: Slot)
    decreases f, 1
  {
    match f.htype
    case Repeated => s.Array? && |s.items| == f.arraySize && forall i :: 0 <= i < |s.items| ==>
      ValueShape(f, s.items[i])
    case OneOf => s.Choice? && (s.which == f.tag ==> ValueShape(f, s.member))
    case _ => s.Single? && ValueShape(f, s.value)
  }

  predicate MsgShape(d: Desc, m: Msg)
    decreases d, 2
  {
    && |m.slots| == d.slotCount
    && forall i :: 0 <= i < |d.fields| ==>
       d.fields[i].slot < |m.slots| && SlotShape(d.fields[i], m.slots[d.fields[i].slot])
  }

  function Bound(size: nat): nat {
    if size == 1 then 0x100 else if size == 2 then 0x1_0000 else if size == 4 then TWO32 else TWO64
  }

  predicate Signed(v: int, bound: int) {
    -bound <= 2 * v < bound
  }

  /** A value a C program can have stored: integers fit their type, strings are terminated. */
  predicate ValueOk(f: Field, v: Value)
    requires ValueShape(f, v)
    decreases f, 0
  {
    match f.ltype
    case SubMessage(d) => MsgOk(d, v.m)
    case VarIntType => IntegerSize(f.dataSize) && Signed(v.v, Bound(f.dataSize))
    case SVarIntType => IntegerSize(f.dataSize) && Signed(v.v, Bound(f.dataSize))
    case UVarIntType => IntegerSize(f.dataSize) && 0 <= v.v < Bound(f.dataSize)
    case Fixed32Type => 0 <= v.v < TWO32
    case Fixed64Type => 0 <= v.v < TWO64
    case BytesType => true
    case StringType => 0 !in v.b && |v.b| < f.dataSize
    case FixedLengthBytes => |v.b| == f.dataSize
  }

  /** The part of a slot that is present holds stored values. */
  predicate SlotOk(f: Field, s: Slot)
    requires SlotShape(f, s)
    decreases f, 1
  {
    match f.htype
    case Repeated => s.count <= |s.items| ==> forall i :: 0 <= i < s.count ==> ValueOk(f, s.items[i])
    case OneOf => s.which == f.tag ==> ValueOk(f, s.member)
    case Optional => s.has ==> ValueOk(f, s.value)
    case _ => ValueOk(f, s.value)
  }

  predicate MsgOk(d: Desc, m: Msg)
    requires MsgShape(d, m)
    decreases d, 2
  {
    forall i :: 0 <= i < |d.fields| ==> SlotOk(d.fields[i], m.slots[d.fields[i].slot])
  }

  // ---------- equality on what is present ----------

  predicate SameValue(f: Field, a: Value, b: Value)
    requires ValueShape(f, a) && ValueShape(f, b)
    decreases f, 0
  {
    match f.ltype
    case SubMessage(d) => Same(d, a.m, b.m)
    case _ => a == b
  }

  predicate SameSlot(f: Field, a: Slot, b: Slot)
    requires SlotShape(f, a) && SlotShape(f, b)
    decreases f, 1
  {
    match f.htype
    case Repeated =>
      a.count == b.count && (a.count <= f.arraySize ==> forall i :: 0 <= i < a.count ==>
                             SameValue(f, a.items[i], b.items[i]))
    case OneOf => (a.which == f.tag <==> b.which == f.tag) && (a.which == f.tag ==> SameValue(f, a.member, b.member))
    case Optional => a.has == b.has && (a.has ==> SameValue(f, a.value, b.value))
    case _ => SameValue(f, a.value, b.value)
  }

  predicate Same(d: Desc, a: Msg, b: Msg)
    requires MsgShape(d, a) && MsgShape(d, b)
    decreases d, 2
  {
    forall i :: 0 <= i < |d.fields| ==> SameSlot(d.fields[i], a.slots[d.fields[i].slot], b.slots[d.fields[i].slot])
  }

  // ---------- defaults ----------

  predicate DefaultValue(f: Field, v: Value)
    requires ValueShape(f, v)
    decreases f, 0
  {
    match f.ltype
    case SubMessage(d) => DefaultMsg(d, v.m)
    case _ => v == f.dflt
  }

  /** A slot as pb_message_set_to_defaults leaves it: array contents and unions are not touched. */
  predicate DefaultSlot(f: Field, s: Slot)
    requires SlotShape(f, s)
    decreases f, 1
  {
    match f.htype
    case Repeated => s.count == 0
    case OneOf => s.which == 0
    case Optional => !s.has && DefaultValue(f, s.value)
    case _ => DefaultValue(f, s.value)
  }

  predicate DefaultMsg(d: Desc, m: Msg)
    requires MsgShape(d, m)
    decreases d, 2
  {
    forall i :: 0 <= i < |d.fields| ==> DefaultSlot(d.fields[i], m.slots[d.fields[i].slot])
  }

  // ---------- the zero check ----------

  /** pb_check_proto3_default_value: it looks at the data of every field, never at has_ flags
      or counts, and only at the first item of an array. */
  predicate ZeroValue(f: Field, v: Value)
    decreases f, 0
  {
    match f.ltype
    case SubMessage(d) => v.Sub? && ZeroMsg(d, v.m)
    case BytesType => v == Blob([])
    case StringType => v == Blob([])
    case FixedLengthBytes => f.dataSize == 0
    case _ => v == Int(0)
  }

  predicate ZeroSlot(f: Field, s: Slot)
    decreases f, 1
  {
    match s
    case Single(_, value) => ZeroValue(f, value)
    case Array(_, items) => items != [] && ZeroValue(f, items[0])
    case Choice(which, member, zeroAs) => if which == f.tag then ZeroValue(f, member) else f.tag in zeroAs
  }

  predicate ZeroMsg(d: Desc, m: Msg)
    decreases d, 2
  {
    forall i :: 0 <= i < |d.fields| ==> d.fields[i].slot < |m.slots| && ZeroSlot(d.fields[i], m.slots[d.fields[i].slot])
  }

  // ---------- what the zero check loses ----------

  predicate BareValue(f: Field, v: Value)
    requires ValueShape(f, v)
    decreases f, 0
  {
    match f.ltype
    case SubMessage(d) => BareMsg(d, v.m)
    case FixedLengthBytes => v == f.dflt
    case BytesType => f.dflt == Blob([])
    case StringType => f.dflt == Blob([])
    case _ => f.dflt == Int(0)
  }

  /** Nothing in the message is marked present and no default is non-zero: then leaving out
      a message that passes the zero check loses nothing. */
  predicate BareSlot(f: Field, s: Slot)
    requires SlotShape(f, s)
    decreases f, 1
  {
    match f.htype
    case Repeated => s.count == 0
    case OneOf => s.which != f.tag
    case Optional => !s.has
    case _ => BareValue(f, s.value)
  }

  predicate BareMsg(d: Desc, m: Msg)
    requires MsgShape(d, m)
    decreases d, 2
  {
    forall i :: 0 <= i < |d.fields| ==> BareSlot(d.fields[i], m.slots[d.fields[i].slot])
  }

  /** No implicit submessage that is present passes the zero check with something in it
      that is marked present. */
  predicate LosslessValue(f: Field, v: Value)
    requires ValueShape(f, v)
    decreases f, 0
  {
    match f.ltype
    case SubMessage(d) => Lossless(d, v.m)
    case _ => true
  }

  predicate LosslessSlot(f: Field, s: Slot)
    requires SlotShape(f, s)
    decreases f, 1
  {
    match f.htype
    case Required => LosslessValue(f, s.value)
    case Optional => s.has ==> LosslessValue(f, s.value)
    case Implicit => if ZeroValue(f, s.value) then BareValue(f, s.value) else LosslessValue(f, s.value)
    case OneOf => s.which == f.tag ==> LosslessValue(f, s.member)
    case Repeated => s.count <= |s.items| ==> forall i :: 0 <= i < s.count ==> LosslessValue(f, s.items[i])
  }

  predicate Lossless(d: Desc, m: Msg)
    requires MsgShape(d, m)
    decreases d, 2
  {
    forall i :: 0 <= i < |d.fields| ==> LosslessSlot(d.fields[i], m.slots[d.fields[i].slot])
  }

  /** A message whose data is all zero equals the default message just when it is bare. */
  lemma {:induction false} ZeroIsDefaultIffBare(d: Desc, m: Msg, x: Msg)
    requires MsgShape(d, m) && MsgShape(d, x) && DescOk(d)
    requires ZeroMsg(d, m) && DefaultMsg(d, x)
    ensures Same(d, m, x) <==> BareMsg(d, m)
    decreases d, 1
  {
    forall i | 0 <= i < |d.fields|
      ensures var f := d.fields[i];
              SameSlot(f, m.slots[f.slot], x.slots[f.slot]) <==> BareSlot(f, m.slots[f.slot])
    {
      var f := d.fields[i];
      var s, t := m.slots[f.slot], x.slots[f.slot];
      assert FieldOk(f) && SlotShape(f, s) && SlotShape(f, t) && ZeroSlot(f, s) && DefaultSlot(f, t);
      if f.htype == Required || f.htype == Implicit {
        ZeroValueIsDefault(f, s.value, t.value);
        assert BareSlot(f, s) <==> BareValue(f, s.value);
      }
    }
  }

  lemma {:induction false} ZeroValueIsDefault(f: Field, v: Value, x: Value)
    requires FieldOk(f) && ValueShape(f, v) && ValueShape(f, x)
    requires ZeroValue(f, v) && DefaultValue(f, x)
    ensures SameValue(f, v, x) <==> BareValue(f, v)
    decreases f, 0
  {
    if f.ltype.SubMessage? {
      ZeroIsDefaultIffBare(f.ltype.desc, v.m, x.m);
    }
  }
}

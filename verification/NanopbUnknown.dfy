/** Fields that a reader does not know, and fields that it must find (nanopb/pb_decode.c). */
module NanopbUnknownFields {
  import opened Wrappers
  import opened Coding
  import opened NanopbMessages
  import opened NanopbEncoding
  import opened NanopbStreams
  import opened NanopbReadings

  // ---------- what is read does not depend on what follows ----------

  lemma {:induction false} ParseLocal(p: Bytes, t: Bytes, u: Bytes, n: nat)
    requires ParseVarint(p + t, n).Some? && ParseVarint(p + t, n).value.1 == |p|
    ensures ParseVarint(p + u, n) == ParseVarint(p + t, n)
  {
    assert p != [] && (p + t)[0] == p[0] == (p + u)[0];
    if p[0] >= 128 {
      assert (p + t)[1..] == p[1..] + t && (p + u)[1..] == p[1..] + u;
      ParseLocal(p[1..], t, u, n - 1);
    }
  }

  lemma {:induction false} VarintLocal(p: Bytes, t: Bytes, u: Bytes, n: nat, modulus: nat)
    requires modulus > 0 && GetVarint(p + t, n, modulus).Some? && GetVarint(p + t, n, modulus).value.1 == t
    ensures GetVarint(p + u, n, modulus) == Some((GetVarint(p + t, n, modulus).value.0, u))
  {
    var k := ParseVarint(p + t, n).value.1;
    assert |(p + t)[k..]| == |p| + |t| - k;
    ParseLocal(p, t, u, n);
    assert (p + u)[|p|..] == u;
  }

  /** A front of the bytes that a reader of varints takes. */
  lemma {:induction false} VarintFront(p: Bytes, t: Bytes) returns (k: nat)
    requires GetVarint32(p + t).Some? && |GetVarint32(p + t).value.1| >= |t|
    ensures k <= |p| && GetVarint32(p + t).value.1 == p[k..] + t
    ensures forall u :: GetVarint32(p + u) == Some((GetVarint32(p + t).value.0, p[k..] + u))
  {
    k := ParseVarint(p + t, 5).value.1;
    assert |(p + t)[k..]| == |p| + |t| - k;
    assert (p + t)[k..] == p[k..] + t;
    assert p + t == p[..k] + (p[k..] + t);
    forall u ensures GetVarint32(p + u) == Some((GetVarint32(p + t).value.0, p[k..] + u)) {
      assert p + u == p[..k] + (p[k..] + u);
      VarintLocal(p[..k], p[k..] + t, p[k..] + u, 5, TWO32);
    }
  }

  lemma {:induction false} BodyLocal(p: Bytes, t: Bytes, u: Bytes)
    requires ReadBody(p + t).Some? && ReadBody(p + t).value.1 == t
    ensures ReadBody(p + u) == Some((ReadBody(p + t).value.0, u))
  {
    hide GetVarint32;
    var n := GetVarint32(p + t).value;
    assert n.1[n.0..] == t && |n.1| == n.0 + |t|;
    var k := VarintFront(p, t);
    assert p[k..] + u == p[k..] + u;
    assert |p| - k == n.0 && (p[k..] + t)[..n.0] == p[k..] == (p[k..] + u)[..n.0];
    assert (p[k..] + u)[n.0..] == u;
  }

  lemma {:induction false} IntegerLocal(f: Field, p: Bytes, t: Bytes, u: Bytes)
    requires ReadInteger(f, p + t).Some? && ReadInteger(f, p + t).value.1 == t
    ensures ReadInteger(f, p + u) == Some((ReadInteger(f, p + t).value.0, u))
  {
    hide Unfixed, Clamped, Widened, ParseVarint;
    if f.ltype.Fixed32Type? || f.ltype.Fixed64Type? {
      var width := if f.ltype.Fixed32Type? then 4 else 8;
      assert |(p + t)[width..]| == |p| + |t| - width;
      assert (p + t)[..width] == p == (p + u)[..width] && (p + u)[width..] == u;
    } else {
      VarintLocal(p, t, u, 10, TWO64);
    }
  }

  lemma {:induction false} ValueLocal(f: Field, dest: Value, p: Bytes, t: Bytes, u: Bytes)
    requires ReadValue(f, dest, p + t).Some? && ReadValue(f, dest, p + t).value.1 == t
    ensures ReadValue(f, dest, p + u) == Some((ReadValue(f, dest, p + t).value.0, u))
  {
    hide ReadInteger, ReadBody, ReadBlob;
    if f.ltype.Packable() {
      IntegerLocal(f, p, t, u);
    } else {
      BodyLocal(p, t, u);
    }
  }

  lemma {:induction false} FieldLocal(wireType: nat, f: Field, s: Slot, p: Bytes, t: Bytes, u: Bytes)
    requires ReadField(wireType, f, s, p + t).Some? && ReadField(wireType, f, s, p + t).value.1 == t
    ensures ReadField(wireType, f, s, p + u) == Some((ReadField(wireType, f, s, p + t).value.0, u))
  {
    hide ReadValue, ReadBody, ReadItems, DefaultedValue, ZeroedValue;
    match f.htype
    case Repeated =>
      if wireType == WT_STRING && f.ltype.Packable() {
        BodyLocal(p, t, u);
      } else {
        ValueLocal(f, s.items[s.count], p, t, u);
      }
    case OneOf =>
      ValueLocal(f, if f.ltype.SubMessage? then DefaultedValue(f, ZeroedValue(f))
                    else if s.Choice? && s.which == f.tag then s.member else ZeroedValue(f), p, t, u);
    case _ =>
      ValueLocal(f, s.value, p, t, u);
  }

  lemma {:induction false} AfterVarintLocal(p: Bytes, t: Bytes, u: Bytes)
    requires AfterVarint(p + t) == Some(t)
    ensures AfterVarint(p + u) == Some(u)
  {
    AfterVarintShrinks(p + t);
    assert p != [] && (p + t)[1..] == p[1..] + t && (p + u)[1..] == p[1..] + u;
    if p[0] < 128 {
      assert |p[1..] + t| == |t|;
      assert p[1..] + u == u;
    } else {
      AfterVarintLocal(p[1..], t, u);
    }
  }

  lemma {:induction false} SkippedLocal(wireType: nat, p: Bytes, t: Bytes, u: Bytes)
    requires Skipped(wireType, p + t) == Some(t)
    ensures Skipped(wireType, p + u) == Some(u)
  {
    hide GetVarint32;
    if wireType == WT_VARINT {
      AfterVarintLocal(p, t, u);
    } else if wireType == WT_STRING {
      assert AfterBytes(GetVarint32(p + t).value.1, GetVarint32(p + t).value.0) == Some(t);
      BodyLocal(p, t, u);
    } else {
      var n := if wireType == WT_64BIT then 8 else 4;
      assert |(p + t)[n..]| == |p| + |t| - n;
      assert (p + u)[n..] == u;
    }
  }

  /** One key's part of the message is the same, whatever comes after it. */
  lemma {:induction false} OneLocal(d: Desc, x: Msg, key: nat, p: Bytes, t: Bytes, u: Bytes)
    requires ReadOne(d, x, key, p + t).Some? && ReadOne(d, x, key, p + t).value.1 == t
    ensures ReadOne(d, x, key, p + u) == Some((ReadOne(d, x, key, p + t).value.0, u))
  {
    hide ReadField, Skipped, FieldOf;
    var i := FieldOf(d.fields, key / 8);
    if i == |d.fields| {
      SkippedLocal(key % 8, p, t, u);
    } else {
      FieldLocal(key % 8, d.fields[i], x.slots[d.fields[i].slot], p, t, u);
    }
  }

  // ---------- unknown fields ----------

  /** A key with a tag that the message type does not have, and a whole value of its wire type. */
  predicate UnknownField(d: Desc, u: Bytes) {
    match GetVarint32(u)
    case None => false
    case Some(key) =>
      && key.0 != 0 && FieldOf(d.fields, key.0 / 8) == |d.fields| && key.0 / 8 != 0
      && Skipped(key.0 % 8, key.1) == Some([])
  }

  /** The first n bytes are a key and what belongs to it. */
  predicate StepOf(d: Desc, x: Msg, bs: Bytes, n: nat, x': Msg) {
    0 < n <= |bs| &&
    match GetVarint32(bs)
    case None => false
    case Some(key) => key.0 != 0 && ReadOne(d, x, key.0, key.1) == Some((x', bs[n..]))
  }

  /** The second string is the first one with whole unknown fields put in between the fields
      that are read. */
  ghost predicate Padded(d: Desc, x: Msg, bs: Bytes, padded: Bytes)
    decreases |padded|
  {
    || padded == bs
    || (exists n :: 0 < n <= |padded| && UnknownField(d, padded[..n]) && Padded(d, x, bs, padded[n..]))
    || (exists n, x' ::
          0 < n <= |padded| && n <= |bs| && StepOf(d, x, bs, n, x') && bs[..n] == padded[..n]
          && Padded(d, x', bs[n..], padded[n..]))
  }

  /** Two readings agree on the message and on the tags that the message type has. */
  predicate Agree(d: Desc, a: Option<(Msg, set<nat>)>, b: Option<(Msg, set<nat>)>) {
    if a == None then b == None
    else
      && b.Some? && a.value.0 == b.value.0
      && forall i :: 0 <= i < |d.fields| ==> (d.fields[i].tag in a.value.1 <==> d.fields[i].tag in b.value.1)
  }

  /** An unknown field is passed over. */
  lemma {:induction false} UnknownPassed(d: Desc, x: Msg, u: Bytes, rest: Bytes)
    requires UnknownField(d, u)
    ensures Agree(d, ReadFields(d, x, rest), ReadFields(d, x, u + rest))
  {
    hide Skipped, GetVarint32;
    var key := GetVarint32(u).value;
    assert u + [] == u;
    NonemptyVarint(u);
    var k := VarintFront(u, []);
    assert u[k..] + [] == u[k..] == key.1;
    assert GetVarint32(u + rest) == Some((key.0, key.1 + rest));
    assert key.1 + [] == key.1;
    SkippedLocal(key.0 % 8, key.1, [], rest);
    assert ReadOne(d, x, key.0, key.1 + rest) == Some((x, rest));
  }

  lemma {:induction false} NonemptyVarint(bs: Bytes)
    requires GetVarint32(bs).Some?
    ensures bs != []
  {
  }

  /** A step reads the same from the padded string. */
  lemma {:induction false} StepPadded(d: Desc, x: Msg, bs: Bytes, n: nat, x': Msg, rest: Bytes)
    requires StepOf(d, x, bs, n, x')
    ensures var key := GetVarint32(bs).value.0;
            && ReadFields(d, x, bs) == With(ReadFields(d, x', bs[n..]), {key / 8})
            && ReadFields(d, x, bs[..n] + rest) == With(ReadFields(d, x', rest), {key / 8})
  {
    hide ReadOne, GetVarint32;
    var key := GetVarint32(bs).value;
    var p, t := bs[..n], bs[n..];
    assert p + t == bs;
    OneShrinks(d, x, key.0, key.1);
    var k := VarintFront(p, t);
    OneLocal(d, x, key.0, p[k..], t, rest);
    assert GetVarint32(p + rest) == Some((key.0, p[k..] + rest));
  }

  lemma {:induction false} OneShrinks(d: Desc, x: Msg, key: nat, bs: Bytes)
    requires ReadOne(d, x, key, bs).Some?
    ensures |ReadOne(d, x, key, bs).value.1| <= |bs|
  {
  }

  lemma {:induction false} PaddedAgree(d: Desc, x: Msg, bs: Bytes, padded: Bytes)
    requires Padded(d, x, bs, padded)
    ensures Agree(d, ReadFields(d, x, bs), ReadFields(d, x, padded))
    decreases |padded|
  {
    hide ReadFields, StepOf, UnknownField;
    if padded == bs {
    } else if n :| 0 < n <= |padded| && UnknownField(d, padded[..n]) && Padded(d, x, bs, padded[n..]) {
      PaddedAgree(d, x, bs, padded[n..]);
      UnknownPassed(d, x, padded[..n], padded[n..]);
      assert padded[..n] + padded[n..] == padded;
    } else {
      var n, x' :| 0 < n <= |padded| && n <= |bs| && StepOf(d, x, bs, n, x') && bs[..n] == padded[..n]
                   && Padded(d, x', bs[n..], padded[n..]);
      PaddedAgree(d, x', bs[n..], padded[n..]);
      StepPadded(d, x, bs, n, x', padded[n..]);
      assert bs[..n] + padded[n..] == padded;
    }
  }

  /** Whole unknown fields, put in anywhere between the fields, change nothing. */
  lemma {:induction false} UnknownFieldsIgnored(d: Desc, x: Msg, bs: Bytes, padded: Bytes)
    requires Padded(d, x, bs, padded)
    ensures ReadMessage(d, x, padded) == ReadMessage(d, x, bs)
  {
    hide ReadFields, Padded;
    PaddedAgree(d, x, bs, padded);
    ReadMessageIs(d, x, bs);
    ReadMessageIs(d, x, padded);
  }

  // ---------- required fields ----------

  /** The tags of the keys that stand in a string, by wire types alone. */
  function TopKeys(bs: Bytes): Option<set<nat>>
    decreases |bs|
  {
    if bs == [] then Some({})
    else
      match GetVarint32(bs)
      case None => if |bs| <= 5 then Some({}) else None
      case Some(key) =>
        if key.0 == 0 then Some({})
        else
          VarintTakes(bs);
          match Skipped(key.0 % 8, key.1)
          case None => None
          case Some(rest) =>
            SkippedShrinks(key.0 % 8, key.1);
            match TopKeys(rest)
            case None => None
            case Some(tags) => Some(tags + {key.0 / 8})
  }

  /** The wire type is one that the field is written with. */
  predicate Fits(f: Field, wireType: nat) {
    wireType == WireType(f.ltype) || (f.htype == Repeated && f.ltype.Packable() && wireType == WT_STRING)
  }

  /** Every key of a field of the message type has a wire type that fits. */
  predicate WellTyped(d: Desc, bs: Bytes)
    decreases |bs|
  {
    if bs == [] then true
    else
      match GetVarint32(bs)
      case None => true
      case Some(key) =>
        if key.0 == 0 then true
        else
          var i := FieldOf(d.fields, key.0 / 8);
          VarintTakes(bs);
          SkippedShrinks(key.0 % 8, key.1);
          && (i < |d.fields| ==> Fits(d.fields[i], key.0 % 8))
          && (Skipped(key.0 % 8, key.1).Some? ==> WellTyped(d, Skipped(key.0 % 8, key.1).value))
  }

  /** A value of a fitting wire type is read up to where skipping it ends. */
  lemma {:induction false} ReadIsSkipped(wireType: nat, f: Field, s: Slot, bs: Bytes)
    requires Fits(f, wireType) && ReadField(wireType, f, s, bs).Some?
    ensures Skipped(wireType, bs) == Some(ReadField(wireType, f, s, bs).value.1)
  {
    hide ReadBlob, ReadItems, DefaultedValue, ZeroedValue, Unfixed, Clamped, Widened, GetVarint32;
    if f.ltype.Packable() && wireType != WT_STRING && !f.ltype.Fixed32Type? && !f.ltype.Fixed64Type? {
      VarintIsSkipped(bs, 10);
    }
  }

  lemma {:induction false} VarintIsSkipped(bs: Bytes, n: nat)
    requires ParseVarint(bs, n).Some?
    ensures AfterVarint(bs) == Some(bs[ParseVarint(bs, n).value.1..])
  {
    if bs[0] >= 128 {
      VarintIsSkipped(bs[1..], n - 1);
    }
  }

  /** On well-typed bytes the keys that are read are the keys that are there. */
  lemma {:induction false} KeysAreTopKeys(d: Desc, x: Msg, bs: Bytes)
    requires WellTyped(d, bs) && ReadFields(d, x, bs).Some?
    ensures TopKeys(bs) == Some(ReadFields(d, x, bs).value.1)
    decreases |bs|
  {
    hide ReadField, Skipped, FieldOf, GetVarint32, Fits;
    if bs != [] && GetVarint32(bs).Some? && GetVarint32(bs).value.0 != 0 {
      var key := GetVarint32(bs).value;
      var one := ReadOne(d, x, key.0, key.1).value;
      var i := FieldOf(d.fields, key.0 / 8);
      VarintTakes(bs);
      if i < |d.fields| {
        ReadIsSkipped(key.0 % 8, d.fields[i], x.slots[d.fields[i].slot], key.1);
      }
      assert Skipped(key.0 % 8, key.1) == Some(one.1);
      OneShrinks(d, x, key.0, key.1);
      KeysAreTopKeys(d, one.0, one.1);
    }
  }

  /** A message is accepted only if every required field has a key among those that are read,
      and on well-typed bytes among those that are there. */
  lemma {:induction false} RequiredIsThere(d: Desc, x: Msg, bs: Bytes)
    requires ReadMessage(d, x, bs).Some?
    ensures ReadFields(d, x, bs).Some? && RequiredRead(d, ReadFields(d, x, bs).value.1)
    ensures WellTyped(d, bs) ==> TopKeys(bs).Some? && RequiredRead(d, TopKeys(bs).value)
  {
    hide ReadFields, WellTyped, TopKeys;
    ReadMessageIs(d, x, bs);
    if WellTyped(d, bs) {
      KeysAreTopKeys(d, x, bs);
    }
  }

  /** Without any bytes only a message type without required fields is decoded. */
  lemma {:induction false} NothingIsEnoughIff(d: Desc, x: Msg)
    ensures ReadMessage(d, x, []).Some? <==> forall i :: 0 <= i < |d.fields| ==> d.fields[i].htype != Required
  {
  }

  /** message M { required uint32 a = 1; optional uint32 b = 2; } */
  function TwoNumbers(): Desc {
    Desc([Field(1, Required, UVarIntType, 0, 4, 1, Int(0)), Field(2, Optional, UVarIntType, 1, 4, 1, Int(0))], 2)
  }

  /** Wire types are not checked: a key for b with eight bytes behind it is read as a varint,
      and the next byte as a key for a, although no key for a is there. */
  lemma {:induction false} MistypedKey(x: Msg, bs: Bytes)
    requires MsgShape(TwoNumbers(), x) && bs == [0x11, 0x00, 0x08, 0x05, 0x00, 0x00, 0x00, 0x00, 0x00]
    ensures DescOk(TwoNumbers()) && ReadMessage(TwoNumbers(), x, bs).Some?
    ensures TopKeys(bs) == Some({2}) && !RequiredRead(TwoNumbers(), {2}) && !WellTyped(TwoNumbers(), bs)
  {
    hide GetVarint32, ReadOne, MsgShape, DescOk, RequiredRead, Skipped, Fits;
    var d := TwoNumbers();
    TwoNumbersOk();
    SmallVarint(bs);
    SmallVarint(bs[2..]);
    SmallVarint(bs[4..]);
    assert bs[2..][1..] == bs[3..];
    TwoSlots(x);
    var y := NumberOne(x, 1, 17, bs[1..], 0);
    assert bs[1..][1..] == bs[2..];
    var z := NumberOne(y, 0, 8, bs[3..], 5);
    assert bs[3..][1..] == bs[4..];
    assert ReadFields(d, z, bs[4..]) == Some((z, {}));
    ReadMessageIs(d, x, bs);
    assert 1 in ReadFields(d, y, bs[2..]).value.1;
    assert 1 in ReadFields(d, x, bs).value.1;
    EightSkipped(bs[1..]);
    var nothing: set<nat> := {};
    assert TopKeys([]) == Some(nothing) && nothing + {17 / 8} == {2};
  }

  lemma {:induction false} EightSkipped(bs: Bytes)
    requires |bs| == 8
    ensures Skipped(1, bs) == Some([])
  {
    assert bs[8..] == [];
  }

  lemma {:induction false} TwoNumbersOk()
    ensures var d := TwoNumbers();
            && DescOk(d) && FieldOf(d.fields, 1) == 0 && FieldOf(d.fields, 2) == 1 && !Fits(d.fields[1], 1)
            && forall tags :: RequiredRead(d, tags) <==> 1 in tags
  {
    var d := TwoNumbers();
    assert RequiredBefore(d.fields, 1) == 1 && RequiredBefore(d.fields, 2) == 1;
    assert d.fields[0].tag == 1 && d.fields[0].htype == Required;
  }

  /** One small number is read into one of the two fields. */
  lemma {:induction false} NumberOne(x: Msg, i: nat, key: nat, bs: Bytes, n: nat) returns (y: Msg)
    requires |x.slots| == 2 && x.slots[0].Single? && x.slots[1].Single? && i < 2
    requires key / 8 == i + 1 && bs != [] && bs[0] == n < 128
    ensures ReadOne(TwoNumbers(), x, key, bs) == Some((y, bs[1..]))
    ensures |y.slots| == 2 && y.slots[0].Single? && y.slots[1].Single?
  {
    hide GetVarint64, Clamped, Widened;
    var d := TwoNumbers();
    TwoNumbersOk();
    SmallVarint(bs);
    SmallNumber(d.fields[i], n);
    assert ReadInteger(d.fields[i], bs) == Some((Int(n), bs[1..]));
    y := ReadOne(d, x, key, bs).value.0;
  }

  lemma {:induction false} TwoSlots(x: Msg)
    requires MsgShape(TwoNumbers(), x)
    ensures |x.slots| == 2 && x.slots[0].Single? && x.slots[1].Single?
  {
    var d := TwoNumbers();
    assert SlotShape(d.fields[0], x.slots[0]) && SlotShape(d.fields[1], x.slots[1]);
  }

  lemma {:induction false} SmallVarint(bs: Bytes)
    requires bs != [] && bs[0] < 128
    ensures GetVarint32(bs) == Some((bs[0] as nat, bs[1..])) && GetVarint64(bs) == Some((bs[0] as nat, bs[1..]))
  {
    LastByte(bs, 5);
    LastByte(bs, 10);
  }

  lemma {:induction false} SmallNumber(f: Field, n: nat)
    requires f.ltype.UVarIntType? && f.dataSize == 4 && n < 128
    ensures Clamped(Widened(f, n), 4, false) == Some(n)
  {
  }
}

/** Nanopb as a whole: what pb_encode writes, pb_decode reads back. */
module NanopbRoundTrips {
  import opened Wrappers
  import opened Coding
  import opened NanopbMessages
  import opened NanopbEncoding
  import opened NanopbStreams
  import opened NanopbReadings
  import opened NanopbUnknownFields
  import opened NanopbDecoding

  /** Encode a message into a buffer and decode it into some struct.  Decoding succeeds, and
      gives an equal message exactly when no implicit submessage was left out that has
      something marked present in it. */
  method RoundTrip(d: Desc, m: Msg, dest: Msg, bufferSize: nat) returns (encoded: bool, decoded: bool, r: Msg)
    requires DescOk(d) && MsgShape(d, m) && MsgShape(d, dest) && MsgOk(d, m)
    ensures encoded <==> Encoded(d, m).Some? && |Encoded(d, m).value| <= bufferSize
    ensures MsgShape(d, r)
    ensures encoded && bufferSize < TWO32 ==> decoded && (Same(d, m, r) <==> Lossless(d, m))
  {
    hide Same, Lossless, MsgOk, EncodedFields;
    var stream := new OStream(bufferSize);
    encoded := Encode(stream, d, m);
    if !encoded {
      return false, false, dest;
    }
    assert [] + Encoded(d, m).value == Encoded(d, m).value;
    var input := new IStream(stream.output);
    assert stream.output + [] == stream.output;
    decoded, r := Decode(input, d, dest, m);
  }

  /** The same, when fields that the message type does not have are put in between the
      fields: a reader passes over what a newer writer adds. */
  method RoundTripPastUnknown(d: Desc, m: Msg, dest: Msg, bufferSize: nat, padded: Bytes)
    returns (encoded: bool, decoded: bool, r: Msg)
    requires DescOk(d) && MsgShape(d, m) && MsgShape(d, dest) && MsgOk(d, m) && bufferSize < TWO32
    requires Encoded(d, m).Some? ==> Padded(d, Defaulted(d, dest), Encoded(d, m).value, padded)
    ensures encoded <==> Encoded(d, m).Some? && |Encoded(d, m).value| <= bufferSize
    ensures MsgShape(d, r)
    ensures encoded ==> decoded && (Same(d, m, r) <==> Lossless(d, m))
  {
    hide Same, Lossless, MsgOk, EncodedFields, ReadMessage, Padded, Defaulted;
    var stream := new OStream(bufferSize);
    encoded := Encode(stream, d, m);
    if !encoded {
      return false, false, dest;
    }
    assert [] + Encoded(d, m).value == Encoded(d, m).value;
    assert stream.output + [] == stream.output;
    UnknownFieldsIgnored(d, Defaulted(d, dest), stream.output, padded);
    var plain := new IStream(stream.output);
    var input := new IStream(padded);
    var ok, expected := Decode(plain, d, dest, m);
    decoded, r := Decode(input, d, dest, m);
  }

  // ---------- what the zero check loses ----------

  /** message Inner { repeated uint32 numbers = 1; }  with room for two numbers */
  function Inner(): Desc {
    Desc([Field(1, Repeated, UVarIntType, 0, 4, 2, Int(0))], 1)
  }

  /** message Outer { Inner inner = 1; }  in proto3, without a has_ flag */
  function Outer(): Desc {
    Desc([Field(1, Implicit, SubMessage(Inner()), 0, 12, 1, Int(0))], 1)
  }

  function ZeroThenFive(): Msg {
    Msg([Single(false, Sub(Msg([Array(2, [Int(0), Int(5)])])))])
  }

  /** An inner message whose first number is zero passes the zero check, whatever else it
      holds: nothing is encoded, and no default message equals it. */
  lemma {:induction false} NumbersLost()
    ensures DescOk(Outer()) && MsgShape(Outer(), ZeroThenFive()) && MsgOk(Outer(), ZeroThenFive())
    ensures Encoded(Outer(), ZeroThenFive()) == Some([])
    ensures !Lossless(Outer(), ZeroThenFive())
    ensures forall x :: MsgShape(Outer(), x) && DefaultMsg(Outer(), x) ==> !Same(Outer(), ZeroThenFive(), x)
  {
    hide SlotShape, SlotOk, EncodedSlot, ZeroSlot, BareSlot, LosslessSlot, Same, MsgOk, MsgShape, Lossless,
         EncodedFields, DefaultMsg;
    var outer, m, inner := Outer(), ZeroThenFive(), Msg([Array(2, [Int(0), Int(5)])]);
    InnerFacts(inner);
    OuterSlot(outer.fields[0], inner);
    OneSlot(outer, m);
    forall x | MsgShape(outer, x) && DefaultMsg(outer, x) ensures !Same(outer, m, x) {
      ZeroIsDefaultIffBare(outer, m, x);
    }
  }

  /** A message with one slot is what that slot is. */
  lemma {:induction false} OneSlot(d: Desc, m: Msg)
    requires |d.fields| == 1 && d.slotCount == |m.slots| == 1 && d.fields[0].slot == 0 && d.fields[0].htype == Implicit
    requires FieldOk(d.fields[0]) && SlotShape(d.fields[0], m.slots[0]) && SlotOk(d.fields[0], m.slots[0])
    ensures DescOk(d) && MsgShape(d, m) && MsgOk(d, m)
    ensures EncodedSlot(d.fields[0], m.slots[0]) == Some([]) ==> Encoded(d, m) == Some([])
    ensures ZeroSlot(d.fields[0], m.slots[0]) ==> ZeroMsg(d, m)
    ensures !BareSlot(d.fields[0], m.slots[0]) ==> !BareMsg(d, m)
    ensures !LosslessSlot(d.fields[0], m.slots[0]) ==> !Lossless(d, m)
  {
    hide SlotShape, SlotOk, EncodedSlot, ZeroSlot, BareSlot, LosslessSlot;
    assert RequiredBefore(d.fields, 1) == 0;
    var nothing: Bytes := [];
    assert nothing + nothing == nothing;
    assert EncodedFields(d, m, 1) == Some(nothing);
  }

  /** The one slot of the outer message. */
  lemma {:induction false} OuterSlot(f: Field, inner: Msg)
    requires f == Outer().fields[0] && MsgShape(Inner(), inner) && MsgOk(Inner(), inner)
    requires ZeroMsg(Inner(), inner) && !BareMsg(Inner(), inner) && DescOk(Inner())
    ensures var s := Single(false, Sub(inner));
            && FieldOk(f) && f.htype == Implicit && SlotShape(f, s) && SlotOk(f, s) && EncodedSlot(f, s) == Some([])
            && ZeroSlot(f, s) && !BareSlot(f, s) && !LosslessSlot(f, s)
  {
    hide MsgShape, MsgOk, ZeroMsg, BareMsg, DescOk, EncodedFields;
    assert ValueShape(f, Sub(inner)) && ZeroValue(f, Sub(inner)) && !BareValue(f, Sub(inner));
  }

  lemma {:induction false} InnerFacts(m: Msg)
    requires m == Msg([Array(2, [Int(0), Int(5)])])
    ensures DescOk(Inner()) && MsgShape(Inner(), m) && MsgOk(Inner(), m) && ZeroMsg(Inner(), m) && !BareMsg(Inner(), m)
  {
    var f := Inner().fields[0];
    assert FieldOk(f) && RequiredBefore(Inner().fields, 1) == 0;
    assert SlotShape(f, m.slots[0]) && SlotOk(f, m.slots[0]) && ZeroSlot(f, m.slots[0]) && !BareSlot(f, m.slots[0]);
  }
}

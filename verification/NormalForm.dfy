/**
 What the decoder accepts is in normal form, so that encoding it and decoding it again changes nothing.
 */
module NormalForm {
  import opened Wire
  import opened Descriptor
  import opened Decoding
  import opened Encoding
  import opened RoundTrip
  import opened TypeSafety
  import opened Filling
  import opened Options

  // ---------------------------------------------------------------------------------------
  // Descriptors and messages
  // ---------------------------------------------------------------------------------------

  predicate GoodDefault(f: Field)
    decreases f, 0
  {
    && (if f.ltype.TSubmessage? then GoodDefaults(f.ltype.fields) else TypedValue(f, DefaultValue(f)))
    && (f.htype.Optional? && f.sizeOffset == 0 ==> ZeroDefault(f))
  }

  /** Defaults have the type of their field, and those of proto3 fields are zero. */
  predicate GoodDefaults(fields: seq<Field>)
    decreases fields, 1
  {
    forall i :: 0 <= i < |fields| ==> GoodDefault(fields[i])
  }

  predicate SettledValue(f: Field, v: Value)
    decreases f, 0
  {
    f.ltype.TSubmessage? && v.Msg? ==> Settled(f.ltype.fields, v.message)
  }

  predicate SettledSlot(f: Field, slot: Slot)
    decreases f, 1
  {
    match slot
    case Single(v) => SettledValue(f, v)
    case Opt(has, v) => if has then SettledValue(f, v) else v == DefaultValue(f)
    case Items(vs) => forall k :: 0 <= k < |vs| ==> SettledValue(f, vs[k])
    case Union(which, v) => which == f.tag ==> SettledValue(f, v)
  }

  /** Optional fields that are absent hold their defaults. */
  predicate Settled(fields: seq<Field>, m: Message)
    decreases fields, 2
  {
    forall i :: 0 <= i < |fields| ==> SettledSlot(fields[i], SlotAt(m, DataAddress(fields, i)))
  }

  // ---------------------------------------------------------------------------------------
  // Decoding keeps structs settled
  // ---------------------------------------------------------------------------------------

  lemma {:induction false} DefaultSettled(f: Field)
    requires WellFormedField(f)
    ensures SettledSlot(f, DefaultSlot(f)) && SettledValue(f, DefaultValue(f))
    decreases f, 0
  {
    hide Defaults, Settled;
    if f.ltype.TSubmessage? { DefaultsSettled(f.ltype.fields); }
  }

  lemma {:induction false} DefaultsSettled(fields: seq<Field>)
    requires WellFormed(fields)
    ensures Settled(fields, Defaults(fields))
    decreases fields, 1
  {
    hide DataAddress, Defaults, DefaultSlot, SettledSlot;
    forall i | 0 <= i < |fields| ensures SettledSlot(fields[i], SlotAt(Defaults(fields), DataAddress(fields, i))) {
      DefaultsAt(fields, i);
      DefaultSettled(fields[i]);
    }
  }

  /** The submessage from which a field goes on decoding. */
  predicate SettledStart(f: Field, prior: Value) {
    f.ltype.TSubmessage? && !f.htype.Repeated? ==> Settled(f.ltype.fields, MessageIn(prior))
  }

  lemma HeldIsMessage(f: Field, v: Value)
    requires f.ltype.TSubmessage? && Holds(f, v)
    ensures v.Msg?
  {
    hide Typed, Defaults;
  }

  lemma HeldStart(f: Field, v: Value)
    requires WellFormedField(f) && Holds(f, v) && (SettledValue(f, v) || v == DefaultValue(f))
    ensures SettledStart(f, v)
  {
    hide Settled, Defaults, Holds;
    if f.ltype.TSubmessage? {
      HeldIsMessage(f, v);
      DefaultSettled(f);
    }
  }

  lemma SlotStart(f: Field, slot: Slot)
    requires WellFormedField(f) && SettledSlot(f, slot) && TypedSlot(f, slot) && !f.htype.Repeated?
    ensures SettledStart(f, if f.htype.OneOf? then MemberStart(f, slot) else ValueIn(slot))
  {
    hide Settled, Defaults, Typed, TypedValue, DefaultValue, SettledValue;
    match slot
    case Single(v) => HeldStart(f, v);
    case Opt(_, v) => HeldStart(f, v);
    case Union(which, v) =>
      if which == f.tag { HeldStart(f, v); } else if f.ltype.TSubmessage? { DefaultsSettled(f.ltype.fields); }
  }

  lemma {:induction false} ElementSettled(f: Field, s: seq<byte>, prior: Value)
    requires WellFormedField(f) && SettledStart(f, prior) && TypedStart(f, prior) && DecodeElement(f, s, prior).Ok?
    ensures SettledValue(f, DecodeElement(f, s, prior).value)
    decreases |s|, 0
  {
    hide DecodeScalar, Defaults, Settled, Typed, DecodeNoInit;
    match f.ltype
    case TSubmessage(sub) =>
      DefaultsSettled(sub);
      DefaultsTyped(sub);
      NoInitSettled(sub, Substream(s).value, if f.htype.Repeated? then Defaults(sub) else MessageIn(prior));
    case _ =>
  }

  lemma {:induction false} StaticSettled(f: Field, wireType: nat, s: seq<byte>, slot: Slot, count: nat)
    requires WellFormedField(f) && TypedSlot(f, slot) && SettledSlot(f, slot) && CountWithin(f, slot, count)
    requires DecodeStatic(f, wireType, s, slot, count).Ok?
    ensures SettledSlot(f, DecodeStatic(f, wireType, s, slot, count).value.slot)
    decreases |s|, 1
  {
    hide DecodeElement, DecodePacked, DefaultValue, TypedValue, SettledStart, TypedStart, SettledValue;
    if f.htype.Repeated? {
      if wireType == WT_STRING && Packable(f) {
        ScalarsSettled(f, DecodeStatic(f, wireType, s, slot, count).value.slot);
      } else {
        RepeatedSettledStart(f);
        ElementSettled(f, s, NoValue);
      }
    } else {
      var prior := if f.htype.OneOf? then MemberStart(f, slot) else ValueIn(slot);
      SlotStart(f, slot);
      SlotTypedStart(f, slot);
      ElementSettled(f, s, prior);
    }
  }

  lemma ScalarsSettled(f: Field, slot: Slot)
    requires !f.ltype.TSubmessage? && slot.Items?
    ensures SettledSlot(f, slot)
  {
  }

  lemma RepeatedSettledStart(f: Field)
    requires f.htype.Repeated?
    ensures SettledStart(f, NoValue) && TypedStart(f, NoValue)
  {
  }

  lemma SlotTypedStart(f: Field, slot: Slot)
    requires WellFormedField(f) && TypedSlot(f, slot) && !f.htype.Repeated?
    ensures TypedStart(f, if f.htype.OneOf? then MemberStart(f, slot) else ValueIn(slot))
  {
    hide TypedStart, DefaultValue, TypedValue;
    if f.htype.OneOf? { MemberStartTyped(f, slot); } else { HoldsStart(f, slot.value); }
  }

  lemma SlotResettled(fields: seq<Field>, m: Message, i: nat, slot: Slot)
    requires WellFormed(fields) && Settled(fields, m) && i < |fields| && SettledSlot(fields[i], slot)
    requires fields[i].htype.OneOf? ==> slot.Union? && slot.which == fields[i].tag
    ensures Settled(fields, m[DataAddress(fields, i) := slot])
  {
    hide DataAddress, SettledValue, WellFormedField, DefaultValue;
    var a := DataAddress(fields, i);
    var m' := m[a := slot];
    forall j | 0 <= j < |fields| ensures SettledSlot(fields[j], SlotAt(m', DataAddress(fields, j))) {
      if DataAddress(fields, j) == a && j != i {
        SharedAddress(fields, i, j);
        TagsDiffer(fields, i, j);
      }
    }
  }

  lemma {:induction false} FieldSettled(fields: seq<Field>, i: nat, wireType: nat, s: seq<byte>, st: Progress)
    requires WellFormed(fields) && TypedProgress(fields, st) && Settled(fields, st.msg) && i < |fields|
    requires DecodeField(fields, i, wireType, s, st).Ok?
    ensures Settled(fields, DecodeField(fields, i, wireType, s, st).value.msg)
    decreases |s|, 2
  {
    hide DecodeStatic, DataAddress, Typed, TypedSlot, RequiredIndex, SettledSlot;
    var st1 := EnterFixed(fields, i, st).value;
    var slot := SlotAt(st1.msg, DataAddress(fields, i));
    assert WellFormedField(fields[i]);
    SlotTyped(fields, st1.msg, i);
    StaticSettled(fields[i], wireType, s, slot, st1.fixedCount);
    StaticMember(fields[i], wireType, s, slot, st1.fixedCount);
    SlotResettled(fields, st1.msg, i, DecodeStatic(fields[i], wireType, s, slot, st1.fixedCount).value.slot);
  }

  lemma {:induction false} RecordSettled(fields: seq<Field>, s: seq<byte>, st: Progress)
    requires WellFormed(fields) && fields != [] && TypedProgress(fields, st) && Settled(fields, st.msg)
    requires DecodeRecord(fields, s, st).Next?
    ensures Settled(fields, DecodeRecord(fields, s, st).st.msg)
    decreases |s|, 3
  {
    hide DecodeField, TypedProgress, WellFormed, Settled;
    var h := ReadHeader(s);
    match FindField(fields, h.tag)
    case None =>
    case Some(i) => FieldSettled(fields, i, h.wireType, s[h.used..], st);
  }

  lemma {:induction false} LoopSettled(fields: seq<Field>, s: seq<byte>, st: Progress)
    requires WellFormed(fields) && fields != [] && TypedProgress(fields, st) && Settled(fields, st.msg)
    requires DecodeLoop(fields, s, st).Ok?
    ensures Settled(fields, DecodeLoop(fields, s, st).value.msg)
    decreases |s|, 4
  {
    hide DecodeRecord, TypedProgress, WellFormed, Settled;
    if |s| > 0 {
      var t := DecodeRecord(fields, s, st);
      if t.Next? {
        RecordTyped(fields, s, st);
        RecordSettled(fields, s, st);
        LoopSettled(fields, s[t.used..], t.st);
      }
    }
  }

  lemma {:induction false} NoInitSettled(fields: seq<Field>, s: seq<byte>, msg: Message)
    requires WellFormed(fields) && Typed(fields, msg) && Settled(fields, msg) && DecodeNoInit(fields, s, msg).Ok?
    ensures Settled(fields, DecodeNoInit(fields, s, msg).value)
    decreases |s|, 5
  {
    hide DecodeLoop, WellFormed, DataAddress, TypedSlot, SettledSlot;
    if fields != [] {
      LoopSettled(fields, s, Start(msg));
    }
  }

  // ---------------------------------------------------------------------------------------
  // Normal form
  // ---------------------------------------------------------------------------------------

  /** A typed and settled value is normal if and only if it is complete. */
  lemma {:induction false} ValueNormal(f: Field, v: Value)
    requires WellFormedField(f) && GoodDefault(f) && TypedValue(f, v) && SettledValue(f, v)
    ensures NormalValue(f, v) <==> CompleteValue(f, v)
    decreases f, 0
  {
    hide Normal, Complete, Typed, Settled;
    if f.ltype.TSubmessage? { MessageNormal(f.ltype.fields, v.message); }
  }

  lemma DefaultTyped(f: Field)
    requires WellFormedField(f) && GoodDefault(f)
    ensures TypedValue(f, DefaultValue(f))
  {
    hide Defaults, Typed;
    if f.ltype.TSubmessage? { DefaultsTyped(f.ltype.fields); }
  }

  lemma {:induction false} SlotNormal(f: Field, slot: Slot)
    requires WellFormedField(f) && GoodDefault(f) && TypedSlot(f, slot) && SettledSlot(f, slot)
    ensures NormalSlot(f, slot) <==> CompleteSlot(f, slot)
    decreases f, 1
  {
    hide NormalValue, CompleteValue, SettledValue, TypedValue, DefaultValue, GoodDefault;
    DefaultTyped(f);
    match slot
    case Single(v) => SingleNormal(f, slot); ValueNormal(f, v);
    case Opt(has, v) => if has { ValueNormal(f, v); }
    case Items(vs) =>
      forall k | 0 <= k < |vs| ensures NormalValue(f, vs[k]) <==> CompleteValue(f, vs[k]) { ValueNormal(f, vs[k]); }
    case Union(which, v) => if which == f.tag { ValueNormal(f, v); }
  }

  lemma SingleNormal(f: Field, slot: Slot)
    requires GoodDefault(f) && slot.Single? && TypedSlot(f, slot)
    ensures NormalSlot(f, slot) <==> NormalValue(f, slot.value)
  {
    hide NormalValue, TypedValue, DefaultValue;
  }

  lemma {:induction false} MessageNormal(fields: seq<Field>, m: Message)
    requires WellFormed(fields) && GoodDefaults(fields) && Typed(fields, m) && Settled(fields, m)
    ensures Normal(fields, m) <==> Complete(fields, m)
    decreases fields, 2
  {
    hide NormalSlot, CompleteSlot, SettledSlot, TypedSlot, DataAddress, KnownMember, WellFormedField, GoodDefault;
    forall i | 0 <= i < |fields|
      ensures NormalSlot(fields[i], SlotAt(m, DataAddress(fields, i))) <==> CompleteSlot(fields[i], SlotAt(m, DataAddress(fields, i)))
    {
      SlotNormal(fields[i], SlotAt(m, DataAddress(fields, i)));
    }
    assert fields == [] ==> Addresses(fields) == {};
    assert m.Keys == {} <==> m == map[];
  }

  /**
   Whatever input `pb_decode` accepts, the message it leaves is in normal form, if and only if the records in
   the input fill the struct: a record is there for every fixed-count array, in it and in each submessage that
   is present, and none for a struct without fields.
   */
  lemma AcceptedIsNormal(fields: seq<Field>, s: seq<byte>, struct: Message)
    requires WellFormed(fields) && GoodDefaults(fields) && struct.Keys <= Addresses(fields) && Decode(fields, s, struct).Ok?
    ensures Normal(fields, Decode(fields, s, struct).value) <==> FilledBy(fields, RecordsOf(fields, s))
  {
    hide Normal, Complete, FilledBy, RecordsOf, Typed, Settled, Defaults, DecodeNoInit;
    DefaultsKeys(fields);
    assert struct + Defaults(fields) == Defaults(fields);
    DefaultsTyped(fields);
    DefaultsSettled(fields);
    NoInitTyped(fields, s, Defaults(fields));
    NoInitSettled(fields, s, Defaults(fields));
    MessageNormal(fields, Decode(fields, s, struct).value);
    AcceptedFilled(fields, s, struct);
  }

  /** For a descriptor tree without fixed-count arrays and empty structs, every accepted input does. */
  lemma PlainAcceptedIsNormal(fields: seq<Field>, s: seq<byte>, struct: Message)
    requires WellFormed(fields) && GoodDefaults(fields) && Plain(fields)
    requires struct.Keys <= Addresses(fields) && Decode(fields, s, struct).Ok?
    ensures Normal(fields, Decode(fields, s, struct).value)
  {
    hide Normal, FilledBy, RecordsOf, Decode;
    PlainIsFilled(fields, RecordsOf(fields, s));
    AcceptedIsNormal(fields, s, struct);
  }

  /**
   So, if the records in the input fill the struct, the message is encoded; decoding that encoding gives it
   again, if and only if its lengths fit.
   */
  lemma DecodingIsStable(fields: seq<Field>, s: seq<byte>, struct: Message, struct2: Message)
    requires WellFormed(fields) && GoodDefaults(fields) && struct.Keys <= Addresses(fields) && struct2.Keys <= Addresses(fields)
    requires Decode(fields, s, struct).Ok? && FilledBy(fields, RecordsOf(fields, s))
    ensures var m := Decode(fields, s, struct).value;
            EncodeMessage(fields, m).Some?
            && (|EncodeMessage(fields, m).value| < TWO63
                ==> Decode(fields, EncodeMessage(fields, m).value, struct2)
                      == if LengthsFit(fields, m) then Ok(m, |EncodeMessage(fields, m).value|) else Fail)
  {
    hide Normal, FilledBy, RecordsOf, Decode, EncodeMessage, LengthsFit;
    AcceptedIsNormal(fields, s, struct);
    RoundTrip.RoundTrip(fields, Decode(fields, s, struct).value, struct2);
  }

  /** The same, for all accepted inputs of a plain descriptor tree. */
  lemma PlainDecodingIsStable(fields: seq<Field>, s: seq<byte>, struct: Message, struct2: Message)
    requires WellFormed(fields) && GoodDefaults(fields) && Plain(fields)
    requires struct.Keys <= Addresses(fields) && struct2.Keys <= Addresses(fields) && Decode(fields, s, struct).Ok?
    ensures var m := Decode(fields, s, struct).value;
            EncodeMessage(fields, m).Some?
            && (|EncodeMessage(fields, m).value| < TWO63 && LengthsFit(fields, m)
                ==> Decode(fields, EncodeMessage(fields, m).value, struct2) == Ok(m, |EncodeMessage(fields, m).value|))
  {
    hide FilledBy, RecordsOf, Decode, EncodeMessage, LengthsFit;
    PlainIsFilled(fields, RecordsOf(fields, s));
    DecodingIsStable(fields, s, struct, struct2);
  }
}

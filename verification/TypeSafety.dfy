/**
 Decoding keeps a struct well typed, whatever the input: integers stay in the range of their
 field, byte arrays and strings inside their buffers, counts within their arrays, and a which-tag
 names a member whose value is stored.
 */
module TypeSafety {
  import opened Bits
  import opened Wire
  import opened Descriptor
  import opened Decoding
  import RoundTrip
  import opened Options

  lemma SignedBitsRange(u: nat, bits: nat)
    requires bits >= 1
    ensures 0 <= SignedBits(u, bits) + Shl(1, bits - 1) && SignedBits(u, bits) < Shl(1, bits - 1)
  {
    hide Low;
    LowRange(u, bits);
    assert Shl(1, bits) == 2 * Shl(1, bits - 1);
  }

  lemma CastSignedRange(v: int, width: nat)
    requires IntWidth(width)
    ensures IntRange(CastSigned(v, width), width, true)
  {
    hide SignedBits, Shl;
    SignedBitsRange(Unsigned64(v), 8 * width);
    RoundTrip.Shl8Powers();
  }

  lemma IntegerTyped(f: Field, s: seq<byte>)
    requires f.ltype.TVarint? || f.ltype.TUVarint? || f.ltype.TSVarint?
    requires DecodeScalar(f, s).Ok?
    ensures TypedValue(f, DecodeScalar(f, s).value)
  {
    hide SignedBits, Shl, Low, UnZigZag, Varint64;
    var u := ReadVarint(s).value;
    if f.ltype.TUVarint? {
      LowRange(u, 8 * f.dataSize);
      RoundTrip.Shl8Powers();
    } else {
      CastSignedRange(DecodeScalar(f, s).value.i, f.dataSize);
    }
  }

  lemma ScalarTyped(f: Field, s: seq<byte>)
    requires WellFormedField(f) && DecodeScalar(f, s).Ok?
    ensures TypedValue(f, DecodeScalar(f, s).value)
  {
    hide Varint32, Varint64, ReadVarint, FromLittleEndian, Shl, NarrowSigned, NarrowUnsigned, NarrowZigZag, CString;
    match f.ltype
    case TVarint => IntegerTyped(f, s);
    case TUVarint => IntegerTyped(f, s);
    case TSVarint => IntegerTyped(f, s);
    case TFixed32 => FromLittleEndianRange(s[..4]); RoundTrip.Shl8Powers();
    case TFixed64 => FromLittleEndianRange(s[..8]); RoundTrip.Shl8Powers();
    case _ =>
  }

  lemma DefaultSlotTyped(f: Field)
    requires WellFormedField(f)
    ensures TypedSlot(f, DefaultSlot(f))
    ensures DefaultSlot(f).Union? ==> DefaultSlot(f).which == 0
  {
    hide DefaultValue, TypedValue;
  }

  lemma DefaultsTyped(fields: seq<Field>)
    requires WellFormed(fields)
    ensures Typed(fields, Defaults(fields))
  {
    hide DataAddress, Defaults, DefaultSlot, TypedSlot;
    RoundTrip.DefaultsKeys(fields);
    forall i | 0 <= i < |fields|
      ensures SlotAt(Defaults(fields), DataAddress(fields, i)) == DefaultSlot(fields[i]) && TypedSlot(fields[i], DefaultSlot(fields[i]))
      ensures DefaultSlot(fields[i]).Union? ==> DefaultSlot(fields[i]).which == 0
    {
      DefaultsAt(fields, i);
      DefaultSlotTyped(fields[i]);
    }
  }

  /** The submessage from which a field goes on decoding. */
  predicate TypedStart(f: Field, prior: Value) {
    f.ltype.TSubmessage? && !f.htype.Repeated? ==> Typed(f.ltype.fields, MessageIn(prior))
  }

  lemma {:induction false} ElementTyped(f: Field, s: seq<byte>, prior: Value)
    requires WellFormedField(f) && TypedStart(f, prior) && DecodeElement(f, s, prior).Ok?
    ensures TypedValue(f, DecodeElement(f, s, prior).value)
    decreases |s|, 0
  {
    hide DecodeScalar, Defaults, Typed, DecodeNoInit;
    match f.ltype
    case TSubmessage(sub) =>
      DefaultsTyped(sub);
      NoInitTyped(sub, Substream(s).value, if f.htype.Repeated? then Defaults(sub) else MessageIn(prior));
    case _ => ScalarTyped(f, s);
  }

  lemma HoldsStart(f: Field, v: Value)
    requires WellFormedField(f) && Holds(f, v)
    ensures TypedStart(f, v)
  {
    hide Typed, Defaults;
    if f.ltype.TSubmessage? { DefaultsTyped(f.ltype.fields); }
  }

  lemma MemberStartTyped(f: Field, slot: Slot)
    requires WellFormedField(f) && f.htype.OneOf? && TypedSlot(f, slot)
    ensures TypedStart(f, MemberStart(f, slot))
  {
    hide Typed, Defaults;
    if f.ltype.TSubmessage? { DefaultsTyped(f.ltype.fields); }
  }

  predicate TypedArray(f: Field, arr: Array) {
    |arr.items| <= f.arraySize && forall k :: 0 <= k < |arr.items| ==> TypedValue(f, arr.items[k])
  }

  lemma StoreTyped(f: Field, arr: Array, v: Value)
    requires TypedArray(f, arr) && TypedValue(f, v) && arr.count < f.arraySize && arr.count <= |arr.items|
    ensures TypedArray(f, Store(arr, v)) && Store(arr, v).count <= |Store(arr, v).items|
  {
    hide TypedValue;
  }

  lemma {:induction false} PackedTyped(f: Field, s: seq<byte>, arr: Array)
    requires WellFormedField(f) && Packable(f) && TypedArray(f, arr) && arr.count <= |arr.items|
    requires DecodePacked(f, s, arr).Some?
    ensures TypedArray(f, DecodePacked(f, s, arr).value)
    ensures DecodePacked(f, s, arr).value.count <= |DecodePacked(f, s, arr).value.items|
    decreases |s|
  {
    hide DecodeScalar, TypedValue, Store;
    if |s| > 0 {
      var r := DecodeScalar(f, s);
      ScalarTyped(f, s);
      StoreTyped(f, arr, r.value);
      PackedTyped(f, s[r.used..], Store(arr, r.value));
    }
  }

  /** The count of the fixed-count field that is being received stays within what has been stored. */
  predicate CountWithin(f: Field, slot: Slot, count: nat) {
    FixedCount(f) ==> count <= |ItemsIn(slot)|
  }

  lemma {:induction false} StaticTyped(f: Field, wireType: nat, s: seq<byte>, slot: Slot, count: nat)
    requires WellFormedField(f) && TypedSlot(f, slot) && CountWithin(f, slot, count)
    requires DecodeStatic(f, wireType, s, slot, count).Ok?
    ensures TypedSlot(f, DecodeStatic(f, wireType, s, slot, count).value.slot)
    ensures var r := DecodeStatic(f, wireType, s, slot, count).value; CountWithin(f, r.slot, r.fixedCount)
    decreases |s|, 1
  {
    hide DecodeElement, DecodePacked, Store, DefaultValue, TypedValue, TypedStart;
    match f.htype
    case Required => HoldsStart(f, slot.value); ElementTyped(f, s, slot.value);
    case Optional => HoldsStart(f, slot.value); ElementTyped(f, s, slot.value);
    case Repeated =>
      var arr := ArrayOf(f, slot, count);
      if wireType == WT_STRING && Packable(f) {
        PackedTyped(f, Substream(s).value, arr);
      } else {
        assert TypedStart(f, NoValue) by { RepeatedStart(f); }
        ElementTyped(f, s, NoValue);
        StoreTyped(f, arr, DecodeElement(f, s, NoValue).value);
      }
    case OneOf =>
      MemberStartTyped(f, slot);
      ElementTyped(f, s, MemberStart(f, slot));
  }

  lemma RepeatedStart(f: Field)
    requires f.htype.Repeated?
    ensures TypedStart(f, NoValue)
  {
  }

  /** Replacing the slot of field `i` by one that is typed for it keeps the struct typed. */
  lemma SlotReplaced(fields: seq<Field>, m: Message, i: nat, slot: Slot)
    requires WellFormed(fields) && Typed(fields, m) && i < |fields| && TypedSlot(fields[i], slot)
    requires fields[i].htype.OneOf? ==> slot.Union? && slot.which == fields[i].tag
    ensures Typed(fields, m[DataAddress(fields, i) := slot])
  {
    hide DataAddress, DefaultValue, TypedValue, WellFormedField, TypedSlot;
    var a := DataAddress(fields, i);
    var m' := m[a := slot];
    assert a in Addresses(fields);
    forall j | 0 <= j < |fields| ensures TypedSlot(fields[j], SlotAt(m', DataAddress(fields, j))) {
      if DataAddress(fields, j) == a && j != i {
        SharedAddress(fields, i, j);
        TagsDiffer(fields, i, j);
        OtherMember(fields[j], slot);
      }
    }
    forall j | 0 <= j < |fields| && fields[j].htype.OneOf? && SlotAt(m', DataAddress(fields, j)).Union?
      ensures KnownMember(fields, DataAddress(fields, j), SlotAt(m', DataAddress(fields, j)).which)
    {
      if DataAddress(fields, j) == a {
        if j != i { SharedAddress(fields, i, j); }
        assert DataAddress(fields, i) == a && fields[i].tag == slot.which;
      }
    }
  }

  lemma TagsDiffer(fields: seq<Field>, i: nat, j: nat)
    requires WellFormed(fields) && i < |fields| && j < |fields| && i != j
    ensures fields[i].tag != fields[j].tag && fields[i].tag != 0
  {
    assert WellFormedField(fields[i]);
  }

  lemma OtherMember(g: Field, slot: Slot)
    requires g.htype.OneOf? && slot.Union? && slot.which != g.tag && slot.which != 0
    ensures TypedSlot(g, slot)
  {
  }

  /** The loop state: the struct is typed and the fixed count is within the array being received. */
  predicate TypedProgress(fields: seq<Field>, st: Progress) {
    && Typed(fields, st.msg)
    && (st.fixedField.Some? ==>
          st.fixedField.value < |fields|
          && CountWithin(fields[st.fixedField.value], SlotAt(st.msg, DataAddress(fields, st.fixedField.value)), st.fixedCount))
  }

  lemma {:induction false} FieldTyped(fields: seq<Field>, i: nat, wireType: nat, s: seq<byte>, st: Progress)
    requires WellFormed(fields) && TypedProgress(fields, st) && i < |fields|
    requires DecodeField(fields, i, wireType, s, st).Ok?
    ensures TypedProgress(fields, DecodeField(fields, i, wireType, s, st).value)
    decreases |s|, 2
  {
    hide DecodeStatic, DataAddress, Typed, TypedSlot, RequiredIndex;
    var st1 := EnterFixed(fields, i, st).value;
    var a := DataAddress(fields, i);
    var slot := SlotAt(st1.msg, a);
    assert WellFormedField(fields[i]);
    SlotTyped(fields, st1.msg, i);
    StaticTyped(fields[i], wireType, s, slot, st1.fixedCount);
    var r := DecodeStatic(fields[i], wireType, s, slot, st1.fixedCount).value;
    StaticMember(fields[i], wireType, s, slot, st1.fixedCount);
    SlotReplaced(fields, st1.msg, i, r.slot);
    FixedElsewhere(fields, i, st1, r, wireType, s);
  }

  lemma SlotTyped(fields: seq<Field>, m: Message, i: nat)
    requires Typed(fields, m) && i < |fields|
    ensures TypedSlot(fields[i], SlotAt(m, DataAddress(fields, i)))
  {
  }

  lemma StaticMember(f: Field, wireType: nat, s: seq<byte>, slot: Slot, count: nat)
    requires DecodeStatic(f, wireType, s, slot, count).Ok?
    ensures var r := DecodeStatic(f, wireType, s, slot, count).value;
            && (f.htype.OneOf? ==> r.slot.Union? && r.slot.which == f.tag)
            && (!FixedCount(f) ==> r.fixedCount == count)
  {
    hide DecodeElement, DecodePacked;
  }

  /** Storing another field does not touch the array of the fixed-count field. */
  lemma FixedElsewhere(fields: seq<Field>, i: nat, st1: Progress, r: Stored, wireType: nat, s: seq<byte>)
    requires WellFormed(fields) && i < |fields|
    requires st1.fixedField.Some? ==>
      st1.fixedField.value < |fields|
      && CountWithin(fields[st1.fixedField.value], SlotAt(st1.msg, DataAddress(fields, st1.fixedField.value)), st1.fixedCount)
    requires FixedCount(fields[i]) ==> st1.fixedField == Some(i)
    requires CountWithin(fields[i], r.slot, r.fixedCount) && (!FixedCount(fields[i]) ==> r.fixedCount == st1.fixedCount)
    ensures st1.fixedField.Some? ==>
      CountWithin(fields[st1.fixedField.value],
                  SlotAt(st1.msg[DataAddress(fields, i) := r.slot], DataAddress(fields, st1.fixedField.value)), r.fixedCount)
  {
    hide DataAddress;
    if st1.fixedField.Some? {
      var k := st1.fixedField.value;
      if k != i && DataAddress(fields, k) == DataAddress(fields, i) { SharedAddress(fields, k, i); }
    }
  }

  lemma {:induction false} RecordTyped(fields: seq<Field>, s: seq<byte>, st: Progress)
    requires WellFormed(fields) && fields != [] && TypedProgress(fields, st) && DecodeRecord(fields, s, st).Next?
    ensures TypedProgress(fields, DecodeRecord(fields, s, st).st)
    decreases |s|, 3
  {
    hide DecodeField, TypedProgress, WellFormed;
    var h := ReadHeader(s);
    match FindField(fields, h.tag)
    case None =>
    case Some(i) => FieldTyped(fields, i, h.wireType, s[h.used..], st);
  }

  lemma {:induction false} LoopTyped(fields: seq<Field>, s: seq<byte>, st: Progress)
    requires WellFormed(fields) && fields != [] && TypedProgress(fields, st) && DecodeLoop(fields, s, st).Ok?
    ensures TypedProgress(fields, DecodeLoop(fields, s, st).value)
    decreases |s|, 4
  {
    hide DecodeRecord, TypedProgress, WellFormed;
    if |s| > 0 {
      var t := DecodeRecord(fields, s, st);
      if t.Next? {
        RecordTyped(fields, s, st);
        LoopTyped(fields, s[t.used..], t.st);
      }
    }
  }

  /** Whatever bytes are merged into a well-typed struct, the result is well typed. */
  lemma {:induction false} NoInitTyped(fields: seq<Field>, s: seq<byte>, msg: Message)
    requires WellFormed(fields) && Typed(fields, msg) && DecodeNoInit(fields, s, msg).Ok?
    ensures Typed(fields, DecodeNoInit(fields, s, msg).value)
    decreases |s|, 5
  {
    hide DecodeLoop, WellFormed, DataAddress, TypedSlot;
    if fields != [] {
      LoopTyped(fields, s, Start(msg));
    }
  }
}

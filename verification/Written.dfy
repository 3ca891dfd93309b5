/**
 What the encoder puts on the wire, said in the numbers of the wire format; which fields it leaves out; and
 which messages it refuses.
 */
module Written {
  import opened Bits
  import opened Wire
  import opened Descriptor
  import opened Decoding
  import opened Encoding
  import opened Options
  import RoundTrip
  import opened WireFormat
  import Scalars

  // ---------------------------------------------------------------------------------------
  // Scalars
  // ---------------------------------------------------------------------------------------

  /** No shorter string of groups stands for the same number. */
  predicate Shortest(s: seq<byte>) {
    |s| == 1 || (s != [] && s[|s| - 1] != 0)
  }

  lemma {:induction false} VarintShortest(v: nat)
    ensures Shortest(Varint(v)) && (v > 0 ==> Varint(v)[|Varint(v)| - 1] != 0)
  {
    if v >= 128 {
      var t := Varint(v / 128);
      VarintShortest(v / 128);
      assert Varint(v) == [v % 128 + 128] + t;
      assert Varint(v)[|t|] == t[|t| - 1];
    }
  }

  /** A single varint, in its shortest form, of this number. */
  ghost predicate IsVarint(s: seq<byte>, v: int) {
    Payload(s, 0) && Shortest(s) && GroupsValue(s) == v
  }

  /**
   The integer types: a negative number of any width is written as the 64-bit number with its two's
   complement, so it takes ten bytes, except in zigzag form, where small numbers of either sign stay short.
   */
  lemma IntegerWritten(f: Field, v: Value)
    requires f.ltype.TBool? || f.ltype.TVarint? || f.ltype.TUVarint? || f.ltype.TSVarint?
    requires TypedValue(f, v)
    ensures EncodeScalar(f, v).Some?
    ensures IsVarint(EncodeScalar(f, v).value,
      if f.ltype.TSVarint? then (if v.i < 0 then -2 * v.i - 1 else 2 * v.i)
      else if v.i < 0 then v.i + 0x1_0000_0000_0000_0000 else v.i)
  {
    hide Varint, GroupsValue, Payload, ZigZag;
    var u := if f.ltype.TSVarint? then ZigZag(v.i) else Unsigned64(v.i);
    VarintIsGroups(u);
    VarintShortest(u);
    if f.ltype.TSVarint? { ZigZagValue(v.i); }
  }

  lemma Fixed32Written(f: Field, v: Value)
    requires f.ltype.TFixed32? && TypedValue(f, v)
    ensures EncodeScalar(f, v).Some? && |EncodeScalar(f, v).value| == 4 && Scalars.Word(EncodeScalar(f, v).value) == v.i
  {
    hide LittleEndian, FromLittleEndian;
    var s := EncodeScalar(f, v).value;
    RoundTrip.FixedRoundTrip(f, v, []);
    assert s + [] == s && s[..4] == s;
    Scalars.Fixed32Exact(f, s);
  }

  lemma Fixed64Written(f: Field, v: Value)
    requires f.ltype.TFixed64? && TypedValue(f, v)
    ensures EncodeScalar(f, v).Some?
    ensures var s := EncodeScalar(f, v).value;
            |s| == 8 && Scalars.Word(s[..4]) + 0x1_0000_0000 * Scalars.Word(s[4..8]) == v.i
  {
    hide LittleEndian, FromLittleEndian, Scalars.Word;
    var s := EncodeScalar(f, v).value;
    RoundTrip.FixedRoundTrip(f, v, []);
    assert s + [] == s;
    Scalars.Fixed64Exact(f, s);
  }

  /** Bytes and strings stand behind their length. */
  lemma BlobWritten(f: Field, v: Value)
    requires f.ltype.TBytes? || f.ltype.TString? || f.ltype.TFixedLengthBytes?
    requires EncodeScalar(f, v).Some?
    ensures var s := EncodeScalar(f, v).value;
            v.Blob? && |v.bytes| < |s| && s[|s| - |v.bytes|..] == v.bytes && IsVarint(s[..|s| - |v.bytes|], |v.bytes|)
  {
    hide Varint, GroupsValue, Payload;
    var n := |v.bytes|;
    VarintIsGroups(n);
    VarintShortest(n);
    assert Delimited(v.bytes)[|Varint(n)|..] == v.bytes && Delimited(v.bytes)[..|Varint(n)|] == Varint(n);
  }

  // ---------------------------------------------------------------------------------------
  // Fields that are left out
  // ---------------------------------------------------------------------------------------

  /** Nothing is there to be written: no flag, no entry, another member, or a proto3 zero. */
  predicate LeftOut(f: Field, slot: Slot) {
    match f.htype
    case Required => false
    case Optional =>
      if f.sizeOffset != 0 then slot.Opt? && !slot.has
      else
        && slot.Single?
        && (slot.value.Int? ==> slot.value.i == 0)
        && (slot.value.Blob? ==> slot.value.bytes == [])
        && (slot.value.Msg? ==> f.ltype.TSubmessage? && EncodeMessage(f.ltype.fields, slot.value.message) == Some([]))
    case Repeated => slot == Items([])
    case OneOf => slot.Union? && slot.which != f.tag
  }

  lemma RecordWritten(f: Field, v: Value)
    requires EncodeRecord(f, v).Some?
    ensures EncodeRecord(f, v).value != []
  {
    hide EncodeElement, Varint;
  }

  lemma ArrayWritten(f: Field, vs: seq<Value>)
    requires vs != [] && EncodeArray(f, vs).Some?
    ensures EncodeArray(f, vs).value != []
  {
    hide EncodeRecord, EncodeScalars, Varint;
    if !Packable(f) { RecordWritten(f, vs[0]); }
  }

  /** A field of a normal message is left out if and only if there is nothing to be written. */
  lemma {:induction false} FieldLeftOut(f: Field, slot: Slot)
    requires WellFormedField(f) && RoundTrip.NormalSlot(f, slot)
    ensures EncodeField(f, slot).Some?
    ensures EncodeField(f, slot) == Some([]) <==> LeftOut(f, slot)
    ensures RoundTrip.Skipped(f, slot) <==> LeftOut(f, slot)
    decreases f, 1
  {
    hide EncodeField, EncodeRecord, EncodeArray, RoundTrip.Skipped, RoundTrip.NormalSlot, LeftOut;
    RoundTrip.FieldEncodable(f, slot);
    if RoundTrip.Skipped(f, slot) {
      RoundTrip.SkippedField(f, slot);
    } else {
      RoundTrip.KeptField(f, slot);
      if f.htype.Repeated? { ArrayWritten(f, slot.items); } else { RecordWritten(f, slot.value); }
    }
    SkippedIsLeftOut(f, slot);
  }

  lemma {:induction false} SkippedIsLeftOut(f: Field, slot: Slot)
    requires WellFormedField(f) && RoundTrip.NormalSlot(f, slot)
    ensures RoundTrip.Skipped(f, slot) <==> LeftOut(f, slot)
    decreases f, 0
  {
    hide EncodeMessage, AllZero, RoundTrip.Normal, DefaultValue, WellFormed;
    if f.htype.Optional? && f.sizeOffset == 0 && f.ltype.TSubmessage? {
      MessageLeftOut(f.ltype.fields, slot.value.message);
    }
  }

  lemma {:induction false} NotEmptyFrom(fields: seq<Field>, m: Message, i: nat, j: nat)
    requires i <= j < |fields| && EncodeFrom(fields, m, i).Some?
    requires EncodeField(fields[j], SlotAt(m, DataAddress(fields, j))) != Some([])
    ensures EncodeFrom(fields, m, i).value != []
    decreases j - i
  {
    hide EncodeField, DataAddress;
    if i < j { NotEmptyFrom(fields, m, i + 1, j); }
  }

  lemma {:induction false} EmptyFrom(fields: seq<Field>, m: Message, i: nat)
    requires i <= |fields|
    requires forall j :: i <= j < |fields| ==> EncodeField(fields[j], SlotAt(m, DataAddress(fields, j))) == Some([])
    ensures EncodeFrom(fields, m, i) == Some([])
    decreases |fields| - i
  {
    hide EncodeField, DataAddress;
    if i < |fields| {
      EmptyFrom(fields, m, i + 1);
      assert EncodeFrom(fields, m, i).Some? && EncodeFrom(fields, m, i).value == [];
    }
  }

  /** The check for zero of a submessage holds if and only if its encoding is empty. */
  lemma {:induction false} MessageLeftOut(fields: seq<Field>, m: Message)
    requires WellFormed(fields) && RoundTrip.Normal(fields, m)
    ensures AllZero(fields, m) <==> EncodeMessage(fields, m) == Some([])
    decreases fields, 2
  {
    hide EncodeField, EncodeFrom, DataAddress, IsZero, RoundTrip.Skipped, RoundTrip.NormalSlot, LeftOut;
    RoundTrip.FromEncodable(fields, m, 0);
    forall j | 0 <= j < |fields|
      ensures EncodeField(fields[j], SlotAt(m, DataAddress(fields, j))) == Some([]) <==> RoundTrip.Skipped(fields[j], SlotAt(m, DataAddress(fields, j)))
    {
      FieldLeftOut(fields[j], SlotAt(m, DataAddress(fields, j)));
    }
    if AllZero(fields, m) {
      forall j | 0 <= j < |fields|
        ensures EncodeField(fields[j], SlotAt(m, DataAddress(fields, j))) == Some([])
      {
        ZeroIsSkipped(fields[j], SlotAt(m, DataAddress(fields, j)));
      }
      EmptyFrom(fields, m, 0);
    } else {
      var i :| 0 <= i < |fields| && !IsZero(fields[i], SlotAt(m, DataAddress(fields, i)));
      var j := NotZeroIsKept(fields, m, i);
      NotEmptyFrom(fields, m, 0, j);
    }
  }

  lemma ZeroIsSkipped(f: Field, slot: Slot)
    requires WellFormedField(f) && RoundTrip.NormalSlot(f, slot) && IsZero(f, slot)
    ensures RoundTrip.Skipped(f, slot)
  {
    hide AllZero, DefaultValue, RoundTrip.NormalValue;
  }

  /** Where a field is not zero, it or the member that is stored in its place is written. */
  lemma NotZeroIsKept(fields: seq<Field>, m: Message, i: nat) returns (j: nat)
    requires WellFormed(fields) && RoundTrip.Normal(fields, m) && i < |fields|
    requires !IsZero(fields[i], SlotAt(m, DataAddress(fields, i)))
    ensures j < |fields| && !RoundTrip.Skipped(fields[j], SlotAt(m, DataAddress(fields, j)))
  {
    hide DataAddress, RoundTrip.NormalSlot, IsZero, RoundTrip.Skipped, WellFormedField;
    var slot := SlotAt(m, DataAddress(fields, i));
    j := i;
    if RoundTrip.Skipped(fields[i], slot) {
      SkippedNotZero(fields[i], slot);
      j :| 0 <= j < |fields| && DataAddress(fields, j) == DataAddress(fields, i) && fields[j].tag == slot.which;
      MemberKept(fields, m, i, j);
    }
  }

  lemma SkippedNotZero(f: Field, slot: Slot)
    requires WellFormedField(f) && RoundTrip.NormalSlot(f, slot) && RoundTrip.Skipped(f, slot) && !IsZero(f, slot)
    ensures f.htype.OneOf? && slot.Union? && slot.which != 0
  {
    hide AllZero, DefaultValue, RoundTrip.NormalValue;
  }

  lemma MemberKept(fields: seq<Field>, m: Message, i: nat, j: nat)
    requires WellFormed(fields) && i < |fields| && j < |fields| && DataAddress(fields, j) == DataAddress(fields, i)
    requires fields[i].htype.OneOf?
    requires var slot := SlotAt(m, DataAddress(fields, i)); slot.Union? && slot.which == fields[j].tag
    ensures !RoundTrip.Skipped(fields[j], SlotAt(m, DataAddress(fields, j)))
  {
    hide DataAddress, WellFormedField;
    if i != j { SharedAddress(fields, i, j); }
  }

  // ---------------------------------------------------------------------------------------
  // Messages that are refused
  // ---------------------------------------------------------------------------------------

  /** A value that can be written: of the kind of its field, and within its size. */
  predicate Writable(f: Field, v: Value)
    decreases f, 0
  {
    match f.ltype
    case TSubmessage(sub) => v.Msg? && AllWritable(sub, v.message)
    case TBytes => v.Blob? && PB_SIZE_WIDTH + |v.bytes| <= f.dataSize
    case TString => v.Blob?
    case TFixedLengthBytes => v.Blob? && |v.bytes| == f.dataSize
    case TBool => v.Int?
    case TFixed32 => v.Int? && v.i >= 0
    case TFixed64 => v.Int? && v.i >= 0
    case _ => v.Int? && (f.dataSize == 1 || f.dataSize == 2 || f.dataSize == 4 || f.dataSize == 8)
  }

  /** What is present in the slot can be written, and an array has no more entries than it has room for. */
  predicate SlotWritable(f: Field, slot: Slot)
    decreases f, 1
  {
    match f.htype
    case Required => Writable(f, ValueIn(slot))
    case Optional => (if f.sizeOffset != 0 then slot.Opt? && slot.has else !IsZero(f, slot)) ==> Writable(f, ValueIn(slot))
    case Repeated =>
      var n := if f.sizeOffset != 0 then |ItemsIn(slot)| else f.arraySize;
      n <= |ItemsIn(slot)| && n <= f.arraySize && forall k :: 0 <= k < n ==> Writable(f, ItemsIn(slot)[k])
    case OneOf => slot.Union? && slot.which == f.tag ==> Writable(f, slot.value)
  }

  predicate AllWritable(fields: seq<Field>, m: Message)
    decreases fields, 2
  {
    forall i :: 0 <= i < |fields| ==> SlotWritable(fields[i], SlotAt(m, DataAddress(fields, i)))
  }

  lemma {:induction false} ElementWritable(f: Field, v: Value)
    ensures EncodeElement(f, v).Some? <==> Writable(f, v)
    decreases f, 0
  {
    hide Varint, AllWritable, EncodeMessage, LittleEndian, Unsigned64, ZigZag;
    match f.ltype
    case TSubmessage(sub) => if v.Msg? { MessageWritable(sub, v.message); }
    case _ =>
  }

  lemma {:induction false} ScalarsWritable(f: Field, vs: seq<Value>)
    requires !f.ltype.TSubmessage?
    ensures EncodeScalars(f, vs).Some? <==> forall k :: 0 <= k < |vs| ==> Writable(f, vs[k])
    decreases f, 1, |vs|
  {
    hide Writable, EncodeScalar;
    if vs != [] {
      ElementWritable(f, vs[0]);
      ScalarsWritable(f, vs[1..]);
      FirstWritable(f, vs);
    }
  }

  lemma FirstWritable(f: Field, vs: seq<Value>)
    requires vs != []
    ensures (forall k :: 0 <= k < |vs| ==> Writable(f, vs[k]))
       <==> Writable(f, vs[0]) && forall k :: 0 <= k < |vs[1..]| ==> Writable(f, vs[1..][k])
  {
    hide Writable;
    if Writable(f, vs[0]) && forall k :: 0 <= k < |vs[1..]| ==> Writable(f, vs[1..][k]) {
      forall k | 0 <= k < |vs| ensures Writable(f, vs[k]) {
        if k > 0 { assert vs[k] == vs[1..][k - 1]; }
      }
    }
  }

  lemma {:induction false} RecordsWritable(f: Field, vs: seq<Value>)
    ensures EncodeRecords(f, vs).Some? <==> forall k :: 0 <= k < |vs| ==> Writable(f, vs[k])
    decreases f, 1, |vs|
  {
    hide Writable, EncodeElement, TagBytes;
    if vs != [] {
      ElementWritable(f, vs[0]);
      RecordsWritable(f, vs[1..]);
      FirstWritable(f, vs);
    }
  }

  lemma {:induction false} ArrayWritable(f: Field, vs: seq<Value>)
    ensures EncodeArray(f, vs).Some? <==> vs == [] || (|vs| <= f.arraySize && forall k :: 0 <= k < |vs| ==> Writable(f, vs[k]))
    decreases f, 2
  {
    hide Writable, EncodeScalars, EncodeRecords, TagBytes, Delimited;
    if Packable(f) { ScalarsWritable(f, vs); } else { RecordsWritable(f, vs); }
  }

  lemma {:induction false} FieldWritable(f: Field, slot: Slot)
    ensures EncodeField(f, slot).Some? <==> SlotWritable(f, slot)
    decreases f, 3
  {
    hide Writable, EncodeElement, EncodeArray, TagBytes, IsZero;
    match f.htype
    case Repeated =>
      var items := ItemsIn(slot);
      ArrayWritable(f, if f.sizeOffset == 0 && |items| >= f.arraySize then items[..f.arraySize] else items);
    case _ => ElementWritable(f, ValueIn(slot));
  }

  lemma {:induction false} FromWritable(fields: seq<Field>, m: Message, i: nat)
    requires i <= |fields|
    ensures EncodeFrom(fields, m, i).Some? <==> forall j :: i <= j < |fields| ==> SlotWritable(fields[j], SlotAt(m, DataAddress(fields, j)))
    decreases fields, 4, |fields| - i
  {
    hide SlotWritable, EncodeField, DataAddress;
    if i < |fields| {
      FieldWritable(fields[i], SlotAt(m, DataAddress(fields, i)));
      FromWritable(fields, m, i + 1);
    }
  }

  /** A message is refused if and only if something in it that would be written cannot be. */
  lemma {:induction false} MessageWritable(fields: seq<Field>, m: Message)
    ensures EncodeMessage(fields, m).Some? <==> AllWritable(fields, m)
    decreases fields, 5
  {
    hide SlotWritable, EncodeFrom, DataAddress;
    FromWritable(fields, m, 0);
  }
}

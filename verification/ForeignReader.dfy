/**
 What the encoder writes is understood by receivers that know nothing of the message: every record announces
 the shape of its payload.
 */
module ForeignReader {
  import opened Wire
  import opened Descriptor
  import opened Decoding
  import opened Encoding
  import opened Options
  import opened Records
  import opened RoundTrip
  import WireFormat

  /** What is written for a value is a payload of the wire type that its header names. */
  lemma ScalarPayload(f: Field, v: Value)
    requires WellFormedField(f) && TypedValue(f, v) && !f.ltype.TSubmessage? && EncodeScalar(f, v).Some?
    ensures Payload(EncodeScalar(f, v).value, WireTypeOf(f))
  {
    hide Varint, Varint32, LittleEndian, ZigZag, Unsigned64;
    match f.ltype
    case TBool => WireFormat.VarintIsGroups(if v.i != 0 then 1 else 0);
    case TVarint => WireFormat.VarintIsGroups(Unsigned64(v.i));
    case TUVarint => WireFormat.VarintIsGroups(Unsigned64(v.i));
    case TSVarint => WireFormat.VarintIsGroups(ZigZag(v.i));
    case TBytes => DelimitedPayload(v.bytes);
    case TString => DelimitedPayload(v.bytes);
    case TFixedLengthBytes => DelimitedPayload(v.bytes);
    case _ =>
  }

  lemma DelimitedPayload(s: seq<byte>)
    requires |s| < TWO32
    ensures Payload(Delimited(s), 2)
  {
    hide Varint, Varint32;
    Varint32Inverts(|s|, s);
  }

  lemma ElementPayload(f: Field, v: Value)
    requires WellFormedField(f) && NormalValue(f, v) && EncodeElement(f, v).Some? && ElementFits(f, v)
    ensures Payload(EncodeElement(f, v).value, WireTypeOf(f))
  {
    hide EncodeScalar, EncodeMessage, TypedValue, LengthsFit, Delimited, Payload;
    match f.ltype
    case TSubmessage(sub) => DelimitedPayload(EncodeMessage(sub, v.message).value);
    case _ => ScalarPayload(f, v);
  }

  /** A record of a field that the receiver does not know changes nothing. */
  lemma RecordSkipped(other: seq<Field>, wireType: nat, tag: nat, payload: seq<byte>, st: Progress)
    requires wireType < 8 && 0 < tag < 0x2000_0000 && FindField(other, tag).None? && Payload(payload, wireType)
    ensures Through(other, TagBytes(wireType, tag) + payload, st) == Some(st)
  {
    hide TagBytes, Payload, DecodeRecord, Through;
    var header := TagBytes(wireType, tag);
    ReadHeaderInverts(wireType, tag, []);
    assert header + [] == header;
    UnknownRecord(other, header, payload, st);
    OneRecord(other, header + payload, st);
  }

  lemma {:induction false} RecordsSkipped(f: Field, vs: seq<Value>, other: seq<Field>, st: Progress)
    requires WellFormedField(f) && FindField(other, f.tag).None? && EncodeRecords(f, vs).Some?
    requires forall k :: 0 <= k < |vs| ==> NormalValue(f, vs[k]) && ElementFits(f, vs[k])
    ensures Through(other, EncodeRecords(f, vs).value, st) == Some(st)
    decreases |vs|
  {
    hide EncodeElement, NormalValue, ElementFits, Through, TagBytes;
    if vs == [] {
      ThroughEmpty(other, st);
    } else {
      OneSkipped(f, vs[0], other, st);
      RecordsSkipped(f, vs[1..], other, st);
      ThroughConcat(other, EncodeRecord(f, vs[0]).value, EncodeRecords(f, vs[1..]).value, st);
    }
  }

  lemma ThroughEmpty(other: seq<Field>, st: Progress)
    ensures Through(other, [], st) == Some(st)
  {
  }

  lemma OneSkipped(f: Field, v: Value, other: seq<Field>, st: Progress)
    requires WellFormedField(f) && FindField(other, f.tag).None? && EncodeRecord(f, v).Some?
    requires NormalValue(f, v) && ElementFits(f, v)
    ensures Through(other, EncodeRecord(f, v).value, st) == Some(st)
  {
    hide EncodeElement, NormalValue, ElementFits, Through, TagBytes;
    ElementPayload(f, v);
    RecordSkipped(other, WireTypeOf(f), f.tag, EncodeElement(f, v).value, st);
  }

  lemma ArraySkipped(f: Field, vs: seq<Value>, other: seq<Field>, st: Progress)
    requires WellFormedField(f) && f.htype.Repeated? && NormalSlot(f, Items(vs)) && SlotFits(f, Items(vs)) && vs != []
    requires FindField(other, f.tag).None? && EncodeArray(f, vs).Some?
    ensures Through(other, EncodeArray(f, vs).value, st) == Some(st)
  {
    hide EncodeScalars, EncodeRecords, NormalValue, ElementFits, Through, TagBytes, Delimited;
    if Packable(f) {
      DelimitedPayload(EncodeScalars(f, vs).value);
      RecordSkipped(other, 2, f.tag, Delimited(EncodeScalars(f, vs).value), st);
    } else {
      RecordsSkipped(f, vs, other, st);
    }
  }

  lemma FieldSkipped(f: Field, slot: Slot, other: seq<Field>, st: Progress)
    requires WellFormedField(f) && NormalSlot(f, slot) && SlotFits(f, slot)
    requires FindField(other, f.tag).None? && EncodeField(f, slot).Some?
    ensures Through(other, EncodeField(f, slot).value, st) == Some(st)
  {
    hide EncodeField, EncodeRecord, EncodeArray, NormalSlot, Skipped, ElementFits, Through;
    if Skipped(f, slot) {
      SkippedField(f, slot);
      ThroughEmpty(other, st);
    } else {
      KeptField(f, slot);
      if f.htype.Repeated? {
        assert slot == Items(slot.items);
        ArraySkipped(f, slot.items, other, st);
      } else {
        KeptNormal(f, slot);
        OneSkipped(f, slot.value, other, st);
      }
    }
  }

  predicate Disjoint(fields: seq<Field>, other: seq<Field>) {
    forall i :: 0 <= i < |fields| ==> FindField(other, fields[i].tag).None?
  }

  lemma {:induction false} FromSkipped(fields: seq<Field>, m: Message, i: nat, other: seq<Field>, st: Progress)
    requires WellFormed(fields) && Normal(fields, m) && i <= |fields| && FitsFrom(fields, m, i) && Disjoint(fields, other)
    requires EncodeFrom(fields, m, i).Some?
    ensures Through(other, EncodeFrom(fields, m, i).value, st) == Some(st)
    decreases |fields| - i
  {
    hide EncodeField, NormalSlot, SlotFits, Through, DataAddress, WellFormedField, FindField;
    if i == |fields| {
      ThroughEmpty(other, st);
    } else {
      var slot := SlotAt(m, DataAddress(fields, i));
      FieldSkipped(fields[i], slot, other, st);
      FromSkipped(fields, m, i + 1, other, st);
      ThroughConcat(other, EncodeField(fields[i], slot).value, EncodeFrom(fields, m, i + 1).value, st);
    }
  }

  /**
   A receiver whose descriptor has none of the tags skips the whole encoding of a message, and refuses it if
   and only if it requires a field of its own.
   */
  lemma ForeignMessageSkipped(fields: seq<Field>, m: Message, other: seq<Field>, msg: Message)
    requires WellFormed(fields) && Normal(fields, m) && LengthsFit(fields, m) && Disjoint(fields, other)
    ensures EncodeMessage(fields, m).Some?
    ensures DecodeNoInit(other, EncodeMessage(fields, m).value, msg) ==
      if exists i :: 0 <= i < |other| && other[i].htype.Required? then Fail else Ok(msg, |EncodeMessage(fields, m).value|)
  {
    hide EncodeFrom, Through, Normal, DecodeLoop, Disjoint, FitsFrom, RequiredIndex;
    FromEncodable(fields, m, 0);
    FromSkipped(fields, m, 0, other, Start(msg));
    ThroughIsLoop(other, EncodeMessage(fields, m).value, Start(msg));
    if i :| 0 <= i < |other| && other[i].htype.Required? { FirstRequired(other, i); }
  }

  lemma {:induction false} FirstRequired(other: seq<Field>, i: nat)
    requires i < |other| && other[i].htype.Required?
    ensures !RequiredSeen(other, {})
    decreases i
  {
    if RequiredIndex(other, i) > 0 {
      var j := EarlierRequired(other, i);
      FirstRequired(other, j);
    }
  }

  lemma {:induction false} EarlierRequired(other: seq<Field>, i: nat) returns (j: nat)
    requires i < |other| && RequiredIndex(other, i) > 0
    ensures j < i && other[j].htype.Required?
    decreases i
  {
    if other[i - 1].htype.Required? { j := i - 1; } else { j := EarlierRequired(other, i - 1); }
  }

  /** A packable array is one record of wire type 2, whose content is its entries one after the other. */
  lemma PackedIsOneRecord(f: Field, vs: seq<Value>)
    requires WellFormedField(f) && Packable(f) && vs != [] && EncodeArray(f, vs).Some? && Short(EncodeScalars(f, vs))
    ensures var e := EncodeArray(f, vs).value;
            && ReadHeader(e).Header? && ReadHeader(e).tag == f.tag && ReadHeader(e).wireType == 2
            && EncodeScalars(f, vs).Some?
            && Substream(e[ReadHeader(e).used..]) == Ok(EncodeScalars(f, vs).value, |e| - ReadHeader(e).used)
  {
    hide Varint, Varint32, EncodeScalars, TagBytes, ReadHeader;
    var c, h := EncodeScalars(f, vs).value, TagBytes(WT_STRING, f.tag);
    ReadHeaderInverts(WT_STRING, f.tag, Delimited(c));
    SubstreamOf(c, []);
    assert Varint(|c|) + c + [] == Delimited(c);
    assert (h + Delimited(c))[|h|..] == Delimited(c);
  }
}

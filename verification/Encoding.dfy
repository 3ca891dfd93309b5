/**
 What the encoder writes, as functions of a descriptor and a message. The encoder itself, which
 writes to a stream and encodes every submessage twice, is in `Encoder`.
 */
module Encoding {
  import opened Wire
  import opened Descriptor
  import opened Decoding
  import opened Options

  function Append(a: Option<seq<byte>>, b: Option<seq<byte>>): Option<seq<byte>> {
    if a.Some? && b.Some? then Some(a.value + b.value) else None
  }

  /** The wire type of a record that carries one value of the field. */
  function WireTypeOf(f: Field): (w: nat)
    ensures w < 8
  {
    match f.ltype
    case TFixed32 => WT_32BIT
    case TFixed64 => WT_64BIT
    case TBytes => WT_STRING
    case TString => WT_STRING
    case TSubmessage(_) => WT_STRING
    case TFixedLengthBytes => WT_STRING
    case _ => WT_VARINT
  }

  function Delimited(s: seq<byte>): seq<byte> {
    Varint(|s|) + s
  }

  /**
   One value that is not a submessage. `None` is an error of the encoder, or a value that the C
   type of the field cannot hold.
   */
  function EncodeScalar(f: Field, v: Value): Option<seq<byte>> {
    match f.ltype
    case TBool => if v.Int? then Some(Varint(if v.i != 0 then 1 else 0)) else None
    case TVarint => if v.Int? && IntWidth(f.dataSize) then Some(Varint(Unsigned64(v.i))) else None
    case TUVarint => if v.Int? && IntWidth(f.dataSize) then Some(Varint(Unsigned64(v.i))) else None
    case TSVarint => if v.Int? && IntWidth(f.dataSize) then Some(Varint(ZigZag(v.i))) else None
    case TFixed32 => if v.Int? && v.i >= 0 then Some(LittleEndian(4, v.i)) else None
    case TFixed64 => if v.Int? && v.i >= 0 then Some(LittleEndian(8, v.i)) else None
    case TBytes => if v.Blob? && |v.bytes| <= f.dataSize - BYTES_HEADER then Some(Delimited(v.bytes)) else None
    case TString => if v.Blob? then Some(Delimited(v.bytes)) else None
    case TFixedLengthBytes => if v.Blob? && |v.bytes| == f.dataSize then Some(Delimited(v.bytes)) else None
    case TSubmessage(_) => None
  }

  function EncodeElement(f: Field, v: Value): Option<seq<byte>>
    decreases f, 0, 0
  {
    match f.ltype
    case TSubmessage(sub) =>
      if !v.Msg? then None
      else
        var content := EncodeMessage(sub, v.message);
        if content.Some? then Some(Delimited(content.value)) else None
    case _ => EncodeScalar(f, v)
  }

  /** A record: header and value. */
  function EncodeRecord(f: Field, v: Value): Option<seq<byte>>
    decreases f, 1, 0
  {
    Append(Some(TagBytes(WireTypeOf(f), f.tag)), EncodeElement(f, v))
  }

  /** The content of a packed array. */
  function EncodeScalars(f: Field, vs: seq<Value>): Option<seq<byte>> {
    if vs == [] then Some([]) else Append(EncodeScalar(f, vs[0]), EncodeScalars(f, vs[1..]))
  }

  function EncodeRecords(f: Field, vs: seq<Value>): Option<seq<byte>>
    decreases f, 2, |vs|
  {
    if vs == [] then Some([]) else Append(EncodeRecord(f, vs[0]), EncodeRecords(f, vs[1..]))
  }

  /** Arrays are packed whenever the type allows it. */
  function EncodeArray(f: Field, vs: seq<Value>): Option<seq<byte>>
    decreases f, 3, 0
  {
    if vs == [] then Some([])
    else if |vs| > f.arraySize then None
    else if Packable(f) then
      var content := EncodeScalars(f, vs);
      if content.Some? then Some(TagBytes(WT_STRING, f.tag) + Delimited(content.value)) else None
    else EncodeRecords(f, vs)
  }

  /** `pb_check_proto3_default_value`. */
  predicate IsZero(f: Field, slot: Slot)
    decreases f, 0
  {
    match f.htype
    case Required => false
    case Repeated => f.sizeOffset != 0 && ItemsIn(slot) == []
    case OneOf => slot.Union? && slot.which == 0
    case Optional =>
      if f.sizeOffset != 0 then slot.Opt? && !slot.has
      else match f.ltype
        case TBytes => ValueIn(slot) == Blob([])
        case TString => ValueIn(slot) == Blob([])
        case TFixedLengthBytes => f.dataSize == 0
        case TSubmessage(sub) => AllZero(sub, MessageIn(ValueIn(slot)))
        case _ => ValueIn(slot) == Int(0)
  }

  predicate AllZero(fields: seq<Field>, m: Message)
    decreases fields, 1
  {
    forall i :: 0 <= i < |fields| ==> IsZero(fields[i], SlotAt(m, DataAddress(fields, i)))
  }

  /** `encode_basic_field`. A proto3 field, optional without a flag, is left out when it is zero. */
  function EncodeField(f: Field, slot: Slot): Option<seq<byte>>
    decreases f, 4, 0
  {
    match f.htype
    case Required => EncodeRecord(f, ValueIn(slot))
    case Optional =>
      if (if f.sizeOffset != 0 then slot.Opt? && slot.has else !IsZero(f, slot))
      then EncodeRecord(f, ValueIn(slot)) else Some([])
    case Repeated =>
      if f.sizeOffset != 0 then EncodeArray(f, ItemsIn(slot))
      else if |ItemsIn(slot)| < f.arraySize then None
      else EncodeArray(f, ItemsIn(slot)[..f.arraySize])
    case OneOf =>
      if slot.Union? && slot.which == f.tag then EncodeRecord(f, slot.value) else Some([])
  }

  /** The fields from `i` on. */
  function EncodeFrom(fields: seq<Field>, m: Message, i: nat): Option<seq<byte>>
    requires i <= |fields|
    decreases fields, 5, |fields| - i
  {
    if i == |fields| then Some([])
    else Append(EncodeField(fields[i], SlotAt(m, DataAddress(fields, i))), EncodeFrom(fields, m, i + 1))
  }

  /** The bytes of a message. */
  function EncodeMessage(fields: seq<Field>, m: Message): Option<seq<byte>>
    decreases fields, 6, 0
  {
    EncodeFrom(fields, m, 0)
  }
}

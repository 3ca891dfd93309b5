/**
 The encoder of `pb_encode.c`. Every submessage is encoded twice, once on a stream that only counts
 and once for real; the contracts say that both passes agree, so that the check for a changed size
 never fires and encoding fails only when there is no encoding or no room for it.
 */
module Encoder {
  import opened Wire
  import opened Descriptor
  import opened Decoding
  import opened Encoding
  import opened FieldIterator
  import opened OutputStream
  import opened RoundTrip
  import opened Options

  // ---------------------------------------------------------------------------------------
  // Integers
  // ---------------------------------------------------------------------------------------

  /** The groups of `v`, all marked as continued. */
  function Continued(v: nat): (s: seq<byte>)
    ensures v > 0 ==> |s| > 0
  {
    if v == 0 then [] else [v % 128 + 128] + Continued(v / 128)
  }

  /** Clearing the mark of the last group gives the varint. */
  lemma {:induction false} ContinuedIsVarint(v: nat)
    requires v > 0
    ensures var s := Continued(v); Varint(v) == s[..|s| - 1] + [s[|s| - 1] % 128]
  {
    var s := Continued(v);
    if v >= 128 {
      ContinuedIsVarint(v / 128);
      var t := Continued(v / 128);
      assert s[..|s| - 1] == [s[0]] + t[..|t| - 1];
    }
  }

  /** `pb_encode_varint` */
  method EncodeVarint(stream: OStream, v: nat) returns (ok: bool)
    requires stream.Valid() && v < TWO64
    modifies stream, stream.buffer
    ensures stream.Did(old(stream.At()), Some(Varint(v)), ok)
  {
    hide Varint, Continued;
    if v <= 0x7F {
      assert Varint(v) == [v] by { SmallVarint(v); }
      ok := stream.Write([v]);
      return;
    }
    var bytes := GroupsOf(v);
    ok := stream.Write(bytes);
  }

  lemma SmallVarint(v: nat)
    requires v < 128
    ensures Varint(v) == [v]
  {
  }

  lemma ContinuedStep(v: nat)
    ensures Continued(v) == if v == 0 then [] else [v % 128 + 128] + Continued(v / 128)
  {
  }

  /** The local buffer of ten bytes, filled group by group. */
  method GroupsOf(v: nat) returns (bytes: seq<byte>)
    requires 0x7F < v < TWO64
    ensures bytes == Varint(v)
  {
    hide Varint, Continued;
    VarintAtMost(v);
    ContinuedIsVarint(v);
    ContinuedStep(0);
    ghost var groups := Continued(v);
    var buffer := new byte[10];
    var i := 0;
    var value := v;
    while value > 0
      invariant 0 <= i <= |groups| <= 10 && value >= 0
      invariant Continued(value) == groups[i..]
      invariant buffer[..i] == groups[..i]
      decreases value
    {
      ContinuedStep(value);
      assert groups[i] == groups[i..][0] == value % 128 + 128;
      assert groups[i + 1..] == groups[i..][1..];
      buffer[i] := value % 128 + 128;
      assert buffer[..i + 1] == buffer[..i] + [groups[i]] == groups[..i + 1];
      value := value / 128;
      i := i + 1;
    }
    assert i == |groups|;
    buffer[i - 1] := buffer[i - 1] % 128;
    assert buffer[..i] == groups[..i - 1] + [groups[i - 1] % 128];
    return buffer[..i];
  }

  /** `pb_encode_svarint` */
  method EncodeSvarint(stream: OStream, v: int) returns (ok: bool)
    requires stream.Valid()
    modifies stream, stream.buffer
    ensures stream.Did(old(stream.At()), Some(Varint(ZigZag(v))), ok)
  {
    var shifted := 2 * Unsigned64(v) % TWO64;
    var zigzagged := if v < 0 then TWO64 - 1 - shifted else shifted;
    ok := EncodeVarint(stream, zigzagged);
  }

  /** `pb_encode_fixed32` */
  method EncodeFixed32(stream: OStream, v: nat) returns (ok: bool)
    requires stream.Valid()
    modifies stream, stream.buffer
    ensures stream.Did(old(stream.At()), Some(LittleEndian(4, v)), ok)
  {
    var v8 := v / 256;
    var v16 := v8 / 256;
    var v24 := v16 / 256;
    FourBytes(v);
    ok := stream.Write([v % 256, v8 % 256, v16 % 256, v24 % 256]);
  }

  /** `pb_encode_fixed64` */
  method EncodeFixed64(stream: OStream, v: nat) returns (ok: bool)
    requires stream.Valid()
    modifies stream, stream.buffer
    ensures stream.Did(old(stream.At()), Some(LittleEndian(8, v)), ok)
  {
    hide LittleEndian;
    var v8 := v / 256;
    var v16 := v8 / 256;
    var v24 := v16 / 256;
    var v32 := v24 / 256;
    var v40 := v32 / 256;
    var v48 := v40 / 256;
    var v56 := v48 / 256;
    var bytes: seq<byte> := [v % 256, v8 % 256, v16 % 256, v24 % 256, v32 % 256, v40 % 256, v48 % 256, v56 % 256];
    FourBytes(v);
    FourBytes(v32);
    EightBytes(v);
    assert bytes == LittleEndian(4, v) + LittleEndian(4, v32);
    ok := stream.Write(bytes);
  }

  lemma OneMoreByte(n: nat, v: nat)
    requires n > 0
    ensures LittleEndian(n, v) == [v % 256] + LittleEndian(n - 1, v / 256) && LittleEndian(0, v) == []
  {
  }

  lemma FourBytes(v: nat)
    ensures LittleEndian(4, v) == [v % 256, v / 256 % 256, v / 256 / 256 % 256, v / 256 / 256 / 256 % 256]
  {
    hide LittleEndian;
    OneMoreByte(4, v);
    OneMoreByte(3, v / 256);
    OneMoreByte(2, v / 256 / 256);
    OneMoreByte(1, v / 256 / 256 / 256);
    OneMoreByte(1, v / 256 / 256 / 256 / 256);
  }

  lemma EightBytes(v: nat)
    ensures LittleEndian(8, v) == LittleEndian(4, v) + LittleEndian(4, v / 256 / 256 / 256 / 256)
  {
    hide LittleEndian;
    FourBytes(v);
    OneMoreByte(8, v);
    OneMoreByte(7, v / 256);
    OneMoreByte(6, v / 256 / 256);
    OneMoreByte(5, v / 256 / 256 / 256);
  }

  /** `pb_encode_tag` */
  method EncodeTag(stream: OStream, wireType: nat, tag: nat) returns (ok: bool)
    requires stream.Valid() && wireType < 8 && tag < TWO32
    modifies stream, stream.buffer
    ensures stream.Did(old(stream.At()), Some(TagBytes(wireType, tag)), ok)
  {
    ok := EncodeVarint(stream, 8 * tag + wireType);
  }

  /** `pb_encode_string` */
  method EncodeString(stream: OStream, bytes: seq<byte>) returns (ok: bool)
    requires stream.Valid() && |bytes| < TWO64
    modifies stream, stream.buffer
    ensures stream.Did(old(stream.At()), Some(Delimited(bytes)), ok)
  {
    hide Varint, OStream.Did;
    ghost var m := stream.At();
    ok := EncodeVarint(stream, |bytes|);
    if !ok {
      FirstFails(stream, m, Some(Varint(|bytes|)), Some(bytes));
      return false;
    }
    Passed(stream, m, Varint(|bytes|));
    ok := stream.Write(bytes);
    InSequence(stream, m, Some(Varint(|bytes|)), Some(bytes), ok);
  }

  /** What a successful encoder establishes for the next one. */
  lemma Passed(stream: OStream, m: Mark, bytes: seq<byte>)
    requires stream.Did(m, Some(bytes), true)
    ensures stream.Valid() && stream.ValidMark(m) && stream.Room(m, |bytes|) && stream.At() == stream.After(m, bytes)
  {
  }

  // ---------------------------------------------------------------------------------------
  // Messages in memory
  // ---------------------------------------------------------------------------------------

  predicate Fits(e: Option<seq<byte>>) {
    e.Some? ==> |e.value| < TWO64
  }

  /** The shape of the C type of the field. */
  predicate Shaped(f: Field, v: Value) {
    match f.ltype
    case TBytes => v.Blob? && |v.bytes| < TWO64
    case TString => v.Blob? && |v.bytes| < TWO64
    case TFixedLengthBytes => v.Blob? && |v.bytes| == f.dataSize < TWO64
    case TFixed32 => v.Int? && v.i >= 0
    case TFixed64 => v.Int? && v.i >= 0
    case TSubmessage(_) => v.Msg?
    case _ => v.Int?
  }

  predicate InMemoryValue(f: Field, v: Value)
    decreases f, 0
  {
    Shaped(f, v) && (f.ltype.TSubmessage? ==> Fits(EncodeMessage(f.ltype.fields, v.message)) && InMemory(f.ltype.fields, v.message))
  }

  predicate InMemoryItems(f: Field, vs: seq<Value>)
    decreases f, 1
  {
    |vs| < TWO32 && (Packable(f) ==> Fits(EncodeScalars(f, vs))) && forall k :: 0 <= k < |vs| ==> InMemoryValue(f, vs[k])
  }

  predicate InMemorySlot(f: Field, slot: Slot)
    decreases f, 2
  {
    match f.htype
    case Required => slot.Single? && InMemoryValue(f, slot.value)
    case Optional =>
      if f.sizeOffset != 0 then slot.Opt? && (slot.has ==> InMemoryValue(f, slot.value))
      else slot.Single? && (!IsZero(f, slot) ==> InMemoryValue(f, slot.value))
    case Repeated =>
      slot.Items?
      && (if f.sizeOffset != 0 then InMemoryItems(f, slot.items)
          else f.arraySize <= |slot.items| && InMemoryItems(f, slot.items[..f.arraySize]))
    case OneOf => slot.Union? && (slot.which == f.tag ==> InMemoryValue(f, slot.value))
  }

  /**
   A struct of the described type: values have the shape of their fields, but flags, counts and sizes
   are arbitrary. No length that is computed for it overflows a 64-bit `size_t`.
   */
  predicate InMemory(fields: seq<Field>, m: Message)
    decreases fields, 3
  {
    forall i :: 0 <= i < |fields| ==> InMemorySlot(fields[i], SlotAt(m, DataAddress(fields, i)))
  }

  lemma {:induction false} NormalValueInMemory(f: Field, v: Value)
    requires WellFormedField(f) && NormalValue(f, v)
    requires EncodeElement(f, v).Some? && |EncodeElement(f, v).value| < TWO63
    ensures InMemoryValue(f, v)
    decreases f, 0, 0
  {
    hide EncodeMessage, EncodeScalar;
    if f.ltype.TSubmessage? { NormalInMemory(f.ltype.fields, v.message); }
  }

  lemma {:induction false} NormalRecordsInMemory(f: Field, vs: seq<Value>)
    requires WellFormedField(f) && forall k :: 0 <= k < |vs| ==> NormalValue(f, vs[k])
    requires EncodeRecords(f, vs).Some? && |EncodeRecords(f, vs).value| < TWO63
    ensures forall k :: 0 <= k < |vs| ==> InMemoryValue(f, vs[k])
    decreases f, 1, |vs|
  {
    hide EncodeElement, NormalValue, InMemoryValue, WellFormedField;
    if vs != [] {
      NormalValueInMemory(f, vs[0]);
      NormalRecordsInMemory(f, vs[1..]);
      forall k | 0 <= k < |vs| ensures InMemoryValue(f, vs[k]) { if k > 0 { assert vs[k] == vs[1..][k - 1]; } }
    }
  }

  lemma {:induction false} NormalArrayInMemory(f: Field, vs: seq<Value>)
    requires WellFormedField(f) && (forall k :: 0 <= k < |vs| ==> NormalValue(f, vs[k])) && |vs| <= f.arraySize
    requires f.htype.Repeated? && EncodeArray(f, vs).Some? && |EncodeArray(f, vs).value| < TWO63
    ensures InMemoryItems(f, vs)
    decreases f, 2, 0
  {
    hide EncodeRecords;
    if Packable(f) {
      forall k | 0 <= k < |vs| ensures InMemoryValue(f, vs[k]) {}
    } else if vs != [] {
      NormalRecordsInMemory(f, vs);
    }
  }

  lemma {:induction false} NormalSlotInMemory(f: Field, slot: Slot)
    requires WellFormedField(f) && NormalSlot(f, slot)
    requires EncodeField(f, slot).Some? && |EncodeField(f, slot).value| < TWO63
    ensures InMemorySlot(f, slot)
    decreases f, 3, 0
  {
    hide EncodeElement, EncodeArray, IsZero, NormalValue, InMemoryValue, InMemoryItems;
    if f.htype.Repeated? {
      assert slot.items[..|slot.items|] == slot.items;
      NormalArrayInMemory(f, slot.items);
    } else if !Skipped(f, slot) {
      NormalValueInMemory(f, slot.value);
    }
  }

  lemma {:induction false} NormalFromInMemory(fields: seq<Field>, m: Message, i: nat)
    requires WellFormed(fields) && Normal(fields, m) && i <= |fields|
    requires EncodeFrom(fields, m, i).Some? && |EncodeFrom(fields, m, i).value| < TWO63
    ensures forall j :: i <= j < |fields| ==> InMemorySlot(fields[j], SlotAt(m, DataAddress(fields, j)))
    decreases fields, 4, |fields| - i
  {
    hide EncodeField, InMemorySlot, NormalSlot, WellFormedField, DataAddress;
    if i < |fields| {
      NormalSlotInMemory(fields[i], SlotAt(m, DataAddress(fields, i)));
      NormalFromInMemory(fields, m, i + 1);
    }
  }

  /** Every normal message whose encoding is shorter than 2^63 bytes meets the precondition of the encoder. */
  lemma {:induction false} NormalInMemory(fields: seq<Field>, m: Message)
    requires WellFormed(fields) && Normal(fields, m)
    requires EncodeMessage(fields, m).Some? && |EncodeMessage(fields, m).value| < TWO63
    ensures InMemory(fields, m)
    decreases fields, 5, 0
  {
    NormalFromInMemory(fields, m, 0);
  }

  // ---------------------------------------------------------------------------------------
  // Values
  // ---------------------------------------------------------------------------------------

  lemma NoEncoding(stream: OStream)
    requires stream.Valid()
    ensures stream.Did(stream.At(), None, false)
  {
  }

  /** The field encoders, except the one for submessages. */
  method EncScalar(stream: OStream, f: Field, v: Value) returns (ok: bool)
    requires stream.Valid() && !f.ltype.TSubmessage? && Shaped(f, v)
    modifies stream, stream.buffer
    ensures stream.Did(old(stream.At()), EncodeScalar(f, v), ok)
  {
    hide OStream.Did, Varint, LittleEndian, ZigZag, Unsigned64;
    NoEncoding(stream);
    match f.ltype
    case TBytes =>
      if |v.bytes| > f.dataSize - BYTES_HEADER { return false; }
      ok := EncodeString(stream, v.bytes);
    case TString => ok := EncodeString(stream, v.bytes);
    case TFixedLengthBytes => ok := EncodeString(stream, v.bytes);
    case TBool => ok := EncodeVarint(stream, if v.i != 0 then 1 else 0);
    case TVarint =>
      if !IntWidth(f.dataSize) { return false; }
      ok := EncodeVarint(stream, Unsigned64(v.i));
    case TUVarint =>
      if !IntWidth(f.dataSize) { return false; }
      ok := EncodeVarint(stream, Unsigned64(v.i));
    case TSVarint =>
      if !IntWidth(f.dataSize) { return false; }
      ok := EncodeSvarint(stream, v.i);
    case TFixed32 => ok := EncodeFixed32(stream, v.i);
    case TFixed64 => ok := EncodeFixed64(stream, v.i);
  }

  lemma AppendAssociates(a: seq<byte>, b: seq<byte>, c: Option<seq<byte>>)
    ensures Append(Some(a), Append(Some(b), c)) == Append(Some(a + b), c)
  {
    if c.Some? { assert a + (b + c.value) == a + b + c.value; }
  }

  lemma AppendNothing(a: Option<seq<byte>>)
    ensures Append(Some([]), a) == a && Append(a, Some([])) == a
  {
    if a.Some? { assert [] + a.value == a.value && a.value + [] == a.value; }
  }

  /** Behind what has been written, the encoder of `b` failed; so the whole fails. */
  lemma FailsLater(stream: OStream, m: Mark, a: seq<byte>, b: Option<seq<byte>>, rest: Option<seq<byte>>)
    requires stream.ValidMark(m) && stream.Room(m, |a|)
    requires stream.Did(stream.After(m, a), b, false)
    ensures stream.Did(m, Append(Some(a), Append(b, rest)), false)
  {
    hide OStream.Did, OStream.Kept;
    FirstFails(stream, stream.After(m, a), b, rest);
    InSequence(stream, m, Some(a), Append(b, rest), false);
  }

  /** Behind what has been written, the encoder of `b` succeeded; so the stream is past both. */
  lemma PassesLater(stream: OStream, m: Mark, a: seq<byte>, b: Option<seq<byte>>)
    requires stream.ValidMark(m) && stream.Room(m, |a|)
    requires stream.Did(stream.After(m, a), b, true)
    ensures b.Some? && stream.Valid() && stream.Room(m, |a + b.value|) && stream.At() == stream.After(m, a + b.value)
  {
    if !stream.sizing { PatchTwice(m.content, m.state, a, b.value); }
  }

  lemma StartsAt(stream: OStream)
    requires stream.Valid()
    ensures stream.ValidMark(stream.At()) && stream.Room(stream.At(), 0) && stream.After(stream.At(), []) == stream.At()
  {
    if !stream.sizing { PatchNothing(stream.At().content, stream.state); }
  }

  lemma AllDone(stream: OStream, m: Mark, a: seq<byte>)
    requires stream.Valid() && stream.ValidMark(m) && stream.Room(m, |a|) && stream.At() == stream.After(m, a)
    ensures stream.Did(m, Some(a), true)
  {
  }

  /** The loop over the entries of a packed array, used for sizing and for writing. */
  method EncScalars(stream: OStream, f: Field, vs: seq<Value>) returns (ok: bool)
    requires stream.Valid() && !f.ltype.TSubmessage? && forall k :: 0 <= k < |vs| ==> Shaped(f, vs[k])
    modifies stream, stream.buffer
    ensures stream.Did(old(stream.At()), EncodeScalars(f, vs), ok)
  {
    hide OStream.Did, OStream.Room, OStream.After, OStream.At, OStream.Valid, OStream.ValidMark, EncodeScalar;
    ghost var m := stream.At();
    ghost var done: seq<byte> := [];
    StartsAt(stream);
    AppendNothing(EncodeScalars(f, vs));
    assert vs[0..] == vs;
    var i := 0;
    while i < |vs|
      invariant i <= |vs|
      invariant stream.Valid() && stream.ValidMark(m) && stream.Room(m, |done|) && stream.At() == stream.After(m, done)
      invariant EncodeScalars(f, vs) == Append(Some(done), EncodeScalars(f, vs[i..]))
    {
      assert vs[i..][0] == vs[i] && vs[i..][1..] == vs[i + 1..];
      var e := EncodeScalar(f, vs[i]);
      ok := EncScalar(stream, f, vs[i]);
      if !ok {
        FailsLater(stream, m, done, e, EncodeScalars(f, vs[i + 1..]));
        return false;
      }
      PassesLater(stream, m, done, e);
      AppendAssociates(done, e.value, EncodeScalars(f, vs[i + 1..]));
      done := done + e.value;
      i := i + 1;
    }
    AllDone(stream, m, done);
    assert done + [] == done;
    return true;
  }

  // ---------------------------------------------------------------------------------------
  // Messages
  // ---------------------------------------------------------------------------------------

  /** `pb_enc_submessage` and the scalar encoders. */
  method EncElement(stream: OStream, f: Field, v: Value) returns (ok: bool)
    requires stream.Valid() && InMemoryValue(f, v)
    requires f.ltype.TSubmessage? ==> WellFormed(f.ltype.fields)
    modifies stream, stream.buffer
    ensures stream.Did(old(stream.At()), EncodeElement(f, v), ok)
    decreases f, 0, 0
  {
    hide OStream.Did, EncodeScalar, InMemory, EncodeMessage;
    NoEncoding(stream);
    if f.ltype.TSubmessage? {
      ok := EncodeSubmessage(stream, f.ltype.fields, v.message);
    } else {
      ok := EncScalar(stream, f, v);
    }
  }

  function DelimitedMessage(fields: seq<Field>, m: Message): Option<seq<byte>> {
    var e := EncodeMessage(fields, m);
    if e.Some? then Some(Delimited(e.value)) else None
  }

  /**
   `pb_encode_submessage`: first a pass that only counts, then the length, then the pass that writes,
   on a substream of exactly that length.
   */
  method EncodeSubmessage(stream: OStream, fields: seq<Field>, m: Message) returns (ok: bool)
    requires stream.Valid() && WellFormed(fields) && InMemory(fields, m) && Fits(EncodeMessage(fields, m))
    modifies stream, stream.buffer
    ensures stream.Did(old(stream.At()), DelimitedMessage(fields, m), ok)
    decreases fields, 10, 1
  {
    hide Varint, EncodeMessage, InMemory, WellFormed, OStream.Did, OStream.Kept;
    ghost var before := stream.At();
    var counter := new OStream.Sizing();
    ghost var zero := counter.At();
    ok := EncodeInto(counter, fields, m);
    if !ok {
      Uncounted(counter, zero, EncodeMessage(fields, m));
      NoEncoding(stream);
      return false;
    }
    Counted(counter, zero, EncodeMessage(fields, m));
    var size := counter.bytesWritten;
    ghost var content := EncodeMessage(fields, m).value;
    ghost var length := Varint(size);
    ok := EncodeVarint(stream, size);
    if !ok {
      FirstFails(stream, before, Some(length), Some(content));
      return false;
    }
    Passed(stream, before, length);
    ghost var middle := stream.At();
    if stream.sizing {
      stream.Count(size);
      CountedBoth(stream, before, length, content);
      return true;
    }
    if stream.bytesWritten + size > stream.maxSize {
      NoRoom(stream, content);
      InSequence(stream, before, Some(length), Some(content), false);
      return false;
    }
    var substream := new OStream.Limited(stream, size);
    ghost var start := substream.At();
    var status := EncodeInto(substream, fields, m);
    Written(stream, substream, middle, start, content, status);
    stream.bytesWritten := stream.bytesWritten + substream.bytesWritten;
    stream.state := substream.state;
    // "submsg size changed" cannot happen
    assert substream.bytesWritten == size && status;
    ok := substream.bytesWritten == size && status;
    AllDone(stream, middle, content);
    InSequence(stream, before, Some(length), Some(content), true);
  }

  lemma Uncounted(counter: OStream, m: Mark, e: Option<seq<byte>>)
    requires counter.sizing && counter.Did(m, e, false)
    ensures e.None?
  {
  }

  lemma Counted(counter: OStream, m: Mark, e: Option<seq<byte>>)
    requires counter.sizing && m.written == 0 && counter.Did(m, e, true)
    ensures e.Some? && counter.bytesWritten == |e.value|
  {
  }

  lemma CountedBoth(stream: OStream, m: Mark, a: seq<byte>, b: seq<byte>)
    requires stream.Valid() && stream.sizing && stream.ValidMark(m)
    requires stream.At() == m.(written := m.written + |a| + |b|)
    ensures stream.Did(m, Some(a + b), true)
  {
  }

  lemma NoRoom(stream: OStream, content: seq<byte>)
    requires stream.Valid() && !stream.sizing && stream.bytesWritten + |content| > stream.maxSize
    ensures stream.Did(stream.At(), Some(content), false)
  {
  }

  /** What a substream of exactly the right size has done. */
  lemma Written(stream: OStream, substream: OStream, middle: Mark, start: Mark, content: seq<byte>, status: bool)
    requires substream.Did(start, Some(content), status)
    requires !substream.sizing && substream.maxSize == |content| && start.written == 0
    requires !stream.sizing && stream.buffer == substream.buffer && stream.ValidMark(middle) && stream.Room(middle, |content|)
    requires start.content == middle.content && start.state == middle.state
    ensures status && substream.bytesWritten == |content|
    ensures Mark(stream.buffer[..], substream.state, middle.written + substream.bytesWritten) == stream.After(middle, content)
  {
  }

  /** Header and value of one record. */
  method EncRecord(stream: OStream, f: Field, v: Value) returns (ok: bool)
    requires stream.Valid() && InMemoryValue(f, v) && WellFormedField(f)
    modifies stream, stream.buffer
    ensures stream.Did(old(stream.At()), EncodeRecord(f, v), ok)
    decreases f, 1, 0
  {
    hide OStream.Did, EncodeElement, InMemoryValue, TagBytes;
    ghost var m := stream.At();
    ghost var header := TagBytes(WireTypeOf(f), f.tag);
    ok := EncodeTag(stream, WireTypeOf(f), f.tag);
    if !ok {
      FirstFails(stream, m, Some(header), EncodeElement(f, v));
      return false;
    }
    Passed(stream, m, header);
    ok := EncElement(stream, f, v);
    InSequence(stream, m, Some(header), EncodeElement(f, v), ok);
  }

  /** The loop over the entries of an array that is not packed. */
  method EncRecords(stream: OStream, f: Field, vs: seq<Value>) returns (ok: bool)
    requires stream.Valid() && WellFormedField(f)
    requires forall k :: 0 <= k < |vs| ==> InMemoryValue(f, vs[k])
    modifies stream, stream.buffer
    ensures stream.Did(old(stream.At()), EncodeRecords(f, vs), ok)
    decreases f, 2, 0
  {
    hide OStream.Did, OStream.Room, OStream.After, OStream.At, OStream.Valid, OStream.ValidMark, EncodeRecord, InMemoryValue, WellFormedField;
    ghost var m := stream.At();
    ghost var done: seq<byte> := [];
    StartsAt(stream);
    AppendNothing(EncodeRecords(f, vs));
    assert vs[0..] == vs;
    var i := 0;
    while i < |vs|
      invariant i <= |vs|
      invariant stream.Valid() && stream.ValidMark(m) && stream.Room(m, |done|) && stream.At() == stream.After(m, done)
      invariant EncodeRecords(f, vs) == Append(Some(done), EncodeRecords(f, vs[i..]))
    {
      assert vs[i..][0] == vs[i] && vs[i..][1..] == vs[i + 1..];
      ghost var e := EncodeRecord(f, vs[i]);
      ok := EncRecord(stream, f, vs[i]);
      if !ok {
        FailsLater(stream, m, done, e, EncodeRecords(f, vs[i + 1..]));
        return false;
      }
      PassesLater(stream, m, done, e);
      AppendAssociates(done, e.value, EncodeRecords(f, vs[i + 1..]));
      done := done + e.value;
      i := i + 1;
    }
    AllDone(stream, m, done);
    assert done + [] == done;
    return true;
  }

  /** The content of a packed array with its length; the size is computed first, in a pass of its own or by a product. */
  method EncPacked(stream: OStream, f: Field, vs: seq<Value>) returns (ok: bool)
    requires stream.Valid() && Packable(f) && |vs| < TWO32 && Fits(EncodeScalars(f, vs))
    requires forall k :: 0 <= k < |vs| ==> Shaped(f, vs[k])
    modifies stream, stream.buffer
    ensures var e := EncodeScalars(f, vs);
            stream.Did(old(stream.At()), if e.Some? then Some(Delimited(e.value)) else None, ok)
  {
    hide Varint, EncodeScalars, OStream.Did, OStream.Kept;
    ghost var before := stream.At();
    var size;
    if f.ltype.TFixed32? {
      size := 4 * |vs|;
      FixedSize(f, vs, 4);
    } else if f.ltype.TFixed64? {
      size := 8 * |vs|;
      FixedSize(f, vs, 8);
    } else {
      var counter := new OStream.Sizing();
      ghost var zero := counter.At();
      ok := EncScalars(counter, f, vs);
      if !ok {
        Uncounted(counter, zero, EncodeScalars(f, vs));
        NoEncoding(stream);
        return false;
      }
      Counted(counter, zero, EncodeScalars(f, vs));
      size := counter.bytesWritten;
    }
    ghost var content := EncodeScalars(f, vs).value;
    ghost var length := Varint(size);
    ok := EncodeVarint(stream, size);
    if !ok {
      FirstFails(stream, before, Some(length), Some(content));
      return false;
    }
    Passed(stream, before, length);
    if stream.sizing {
      stream.Count(size);
      CountedBoth(stream, before, length, content);
      return true;
    }
    ok := EncScalars(stream, f, vs);
    InSequence(stream, before, Some(length), Some(content), ok);
  }

  /** Entries of fixed width take that width each. */
  lemma {:induction false} FixedSize(f: Field, vs: seq<Value>, width: nat)
    requires (f.ltype.TFixed32? && width == 4) || (f.ltype.TFixed64? && width == 8)
    requires forall k :: 0 <= k < |vs| ==> Shaped(f, vs[k])
    ensures EncodeScalars(f, vs).Some? && |EncodeScalars(f, vs).value| == width * |vs|
  {
    hide LittleEndian;
    if vs != [] { FixedSize(f, vs[1..], width); }
  }

  /** `encode_array` */
  method EncArray(stream: OStream, f: Field, vs: seq<Value>) returns (ok: bool)
    requires stream.Valid() && WellFormedField(f) && InMemoryItems(f, vs)
    modifies stream, stream.buffer
    ensures stream.Did(old(stream.At()), EncodeArray(f, vs), ok)
    decreases f, 3, 0
  {
    hide OStream.Did, EncodeScalars, EncodeRecords, TagBytes, InMemory, EncodeMessage;
    ghost var m := stream.At();
    NoEncoding(stream);
    if |vs| == 0 {
      StartsAt(stream);
      AllDone(stream, m, []);
      return true;
    }
    if |vs| > f.arraySize { return false; }
    if Packable(f) {
      ghost var header := TagBytes(WT_STRING, f.tag);
      ghost var e := EncodeScalars(f, vs);
      ghost var content := if e.Some? then Some(Delimited(e.value)) else None;
      ok := EncodeTag(stream, WT_STRING, f.tag);
      if !ok {
        FirstFails(stream, m, Some(header), content);
        return false;
      }
      Passed(stream, m, header);
      ok := EncPacked(stream, f, vs);
      InSequence(stream, m, Some(header), content, ok);
    } else {
      ok := EncRecords(stream, f, vs);
    }
  }

  /** `encode_basic_field` */
  method EncField(stream: OStream, f: Field, slot: Slot) returns (ok: bool)
    requires stream.Valid() && WellFormedField(f) && InMemorySlot(f, slot)
    modifies stream, stream.buffer
    ensures stream.Did(old(stream.At()), EncodeField(f, slot), ok)
    decreases f, 4, 0
  {
    hide OStream.Did, EncodeRecord, EncodeArray, IsZero, InMemoryValue, InMemoryItems;
    ghost var m := stream.At();
    StartsAt(stream);
    AllDone(stream, m, []);
    match f.htype
    case Required =>
      ok := EncRecord(stream, f, slot.value);
    case Optional =>
      var has := if f.sizeOffset != 0 then slot.has else !IsZero(f, slot);
      ok := true;
      if has { ok := EncRecord(stream, f, slot.value); }
    case Repeated =>
      var count := if f.sizeOffset != 0 then |slot.items| else f.arraySize;
      assert slot.items[..|slot.items|] == slot.items;
      ok := EncArray(stream, f, slot.items[..count]);
    case OneOf =>
      ok := true;
      if slot.which == f.tag { ok := EncRecord(stream, f, slot.value); }
  }

  /** `pb_encode` */
  method EncodeInto(stream: OStream, fields: seq<Field>, m: Message) returns (ok: bool)
    requires stream.Valid() && WellFormed(fields) && InMemory(fields, m)
    modifies stream, stream.buffer
    ensures stream.Did(old(stream.At()), EncodeMessage(fields, m), ok)
    decreases fields, 10, 0
  {
    hide OStream.Did, OStream.Room, OStream.After, OStream.At, OStream.Valid, OStream.ValidMark,
      EncodeField, WellFormedField, InMemorySlot, DataAddress, RequiredIndex, SizeAddress;
    ghost var before := stream.At();
    ghost var written: seq<byte> := [];
    StartsAt(stream);
    AppendNothing(EncodeFrom(fields, m, 0));
    var iter := new FieldIter(fields);
    var more := iter.Begin();
    ghost var done := 0;
    while more
      invariant iter.Valid() && iter.start == fields && done <= |fields|
      invariant more ==> done == iter.pos < |fields|
      invariant !more ==> done == |fields|
      invariant stream.Valid() && stream.ValidMark(before) && stream.Room(before, |written|) && stream.At() == stream.After(before, written)
      invariant EncodeFrom(fields, m, 0) == Append(Some(written), EncodeFrom(fields, m, done))
      decreases |fields| - done
    {
      var f, slot := fields[iter.pos], SlotAt(m, iter.pData);
      ghost var e, rest := EncodeField(f, slot), EncodeFrom(fields, m, done + 1);
      ok := EncField(stream, f, slot);
      if !ok {
        FailsLater(stream, before, written, e, rest);
        return false;
      }
      PassesLater(stream, before, written, e);
      AppendAssociates(written, e.value, rest);
      written := written + e.value;
      more := iter.Next();
      done := done + 1;
    }
    AllDone(stream, before, written);
    assert written + [] == written;
    return true;
  }

  /** `pb_get_encoded_size`: the number of bytes of the encoding, without writing any. */
  method EncodedSize(fields: seq<Field>, m: Message) returns (ok: bool, size: nat)
    requires WellFormed(fields) && InMemory(fields, m)
    ensures ok <==> EncodeMessage(fields, m).Some?
    ensures ok ==> size == |EncodeMessage(fields, m).value|
  {
    hide EncodeMessage, InMemory, WellFormed;
    var stream := new OStream.Sizing();
    ghost var zero := stream.At();
    ok := EncodeInto(stream, fields, m);
    size := stream.bytesWritten;
    if ok { Counted(stream, zero, EncodeMessage(fields, m)); } else { Uncounted(stream, zero, EncodeMessage(fields, m)); }
  }

  /**
   Encoding into a buffer succeeds exactly when sizing succeeds and the size fits the buffer; then the
   buffer starts with the encoding and the rest of it is unchanged.
   */
  method EncodeToBuffer(buf: array<byte>, fields: seq<Field>, m: Message) returns (ok: bool, length: nat)
    requires WellFormed(fields) && InMemory(fields, m)
    modifies buf
    ensures ok <==> EncodeMessage(fields, m).Some? && |EncodeMessage(fields, m).value| <= buf.Length
    ensures ok ==> length == |EncodeMessage(fields, m).value|
                   && buf[..length] == EncodeMessage(fields, m).value && buf[length..] == old(buf[length..])
  {
    hide EncodeMessage, InMemory, WellFormed;
    var stream := new OStream.FromBuffer(buf);
    ok := EncodeInto(stream, fields, m);
    length := stream.bytesWritten;
  }
}

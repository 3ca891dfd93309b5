/**
 The decoder of `pb_decode.c`: it reads from a stream, moves a field iterator around the descriptor
 and writes into a struct in place. Each method is proved against the function of `Decoding` that
 says what it computes.
 */
module Decoder {
  import opened Bits
  import opened Wire
  import opened Descriptor
  import opened Decoding
  import opened FieldIterator
  import opened InputStream
  import opened RequiredFields
  import opened Options

  /** The destination struct. */
  class Struct {
    var mem: Message

    constructor (mem: Message)
      ensures this.mem == mem
    {
      this.mem := mem;
    }
  }

  /** A decoder has done on the stream what the function says: succeeded alike, and used as many bytes. */
  ghost predicate Did<T>(stream: IStream, state0: nat, left0: nat, r: Parsed<T>, ok: bool)
    reads stream
  {
    stream.Within(state0, left0) && (ok <==> r.Ok?) && (ok ==> stream.Moved(state0, left0, r.used))
  }

  // ---------------------------------------------------------------------------------------
  // Field decoders
  // ---------------------------------------------------------------------------------------

  /** `pb_dec_bool`, `pb_dec_varint`, `pb_dec_uvarint`, `pb_dec_svarint` */
  method DecInteger(stream: IStream, f: Field) returns (ok: bool, v: Value)
    requires stream.Valid()
    requires f.ltype.TBool? || f.ltype.TVarint? || f.ltype.TUVarint? || f.ltype.TSVarint?
    modifies stream
    ensures Did(stream, old(stream.state), old(stream.bytesLeft), DecodeScalar(f, old(stream.Rest())), ok)
    ensures ok ==> v == DecodeScalar(f, old(stream.Rest())).value
  {
    hide Varint32, ReadVarint, SignedBits, UnZigZag, Low;
    v := NoValue;
    if f.ltype.TBool? {
      var value;
      ok, value := stream.DecodeVarint32();
      if ok { v := Int(if value != 0 then 1 else 0); }
      return;
    }
    var value;
    ok, value := stream.DecodeVarint();
    if !ok { return; }
    if !IntWidth(f.dataSize) { return false, v; }
    if f.ltype.TVarint? {
      var svalue := if f.dataSize == 8 then SignedBits(value, 64) else SignedBits(value, 32);
      var clamped := CastSigned(svalue, f.dataSize);
      v := Int(clamped);
      return clamped == svalue, v;
    } else if f.ltype.TUVarint? {
      var clamped := Low(value, 8 * f.dataSize);
      v := Int(clamped);
      return clamped == value, v;
    } else {
      var svalue := UnZigZag(value);
      var clamped := CastSigned(svalue, f.dataSize);
      v := Int(clamped);
      return clamped == svalue, v;
    }
  }

  /** `pb_decode_fixed32`: the bytes shifted into place and joined by `|`. */
  method DecFixed32(stream: IStream, f: Field) returns (ok: bool, v: Value)
    requires stream.Valid() && f.ltype.TFixed32?
    modifies stream
    ensures Did(stream, old(stream.state), old(stream.bytesLeft), DecodeScalar(f, old(stream.Rest())), ok)
    ensures ok ==> v == DecodeScalar(f, old(stream.Rest())).value
  {
    hide Or, Shl, FromLittleEndian;
    v := NoValue;
    var b;
    ok, b := stream.Read(4);
    if ok {
      v := Int(Or(Or(Or(b[0], Shl(b[1], 8)), Shl(b[2], 16)), Shl(b[3], 24)));
      OneByte(b);
      JoinBytes(b, 2, b[0]);
      JoinBytes(b, 3, Or(b[0], Shl(b[1], 8)));
      JoinBytes(b, 4, Or(Or(b[0], Shl(b[1], 8)), Shl(b[2], 16)));
      assert b[..4] == b;
    }
  }

  /** `pb_decode_fixed64` */
  method DecFixed64(stream: IStream, f: Field) returns (ok: bool, v: Value)
    requires stream.Valid() && f.ltype.TFixed64?
    modifies stream
    ensures Did(stream, old(stream.state), old(stream.bytesLeft), DecodeScalar(f, old(stream.Rest())), ok)
    ensures ok ==> v == DecodeScalar(f, old(stream.Rest())).value
  {
    hide Or, Shl, FromLittleEndian;
    v := NoValue;
    var b;
    ok, b := stream.Read(8);
    if ok {
      OneByte(b);
      var x: nat := b[0];
      JoinBytes(b, 2, x); x := Or(x, Shl(b[1], 8));
      JoinBytes(b, 3, x); x := Or(x, Shl(b[2], 16));
      JoinBytes(b, 4, x); x := Or(x, Shl(b[3], 24));
      JoinBytes(b, 5, x); x := Or(x, Shl(b[4], 32));
      JoinBytes(b, 6, x); x := Or(x, Shl(b[5], 40));
      JoinBytes(b, 7, x); x := Or(x, Shl(b[6], 48));
      JoinBytes(b, 8, x); x := Or(x, Shl(b[7], 56));
      v := Int(x);
      assert b[..8] == b;
    }
  }

  lemma OneByte(b: seq<byte>)
    requires |b| >= 1
    ensures FromLittleEndian(b[..1]) == b[0]
  {
    assert b[..1][1..] == [];
  }

  /** Joining the next byte by `|` extends the little-endian number. */
  lemma JoinBytes(b: seq<byte>, n: nat, x: nat)
    requires 1 < n <= |b| && x == FromLittleEndian(b[..n - 1])
    ensures Or(x, Shl(b[n - 1], 8 * (n - 1))) == FromLittleEndian(b[..n])
  {
    hide Or, Shl;
    FromLittleEndianRange(b[..n - 1]);
    OrDisjoint(x, b[n - 1], 8 * (n - 1));
    LittleEndianSnoc(b[..n - 1], b[n - 1]);
    assert b[..n - 1] + [b[n - 1]] == b[..n];
  }

  lemma {:induction false} LittleEndianSnoc(s: seq<byte>, b: byte)
    ensures FromLittleEndian(s + [b]) == FromLittleEndian(s) + Shl(b, 8 * |s|)
  {
    hide Shl;
    if s == [] {
      assert FromLittleEndian([b]) == b + 256 * FromLittleEndian([]) by { assert [b][1..] == []; }
      ShlZero(b);
      assert s + [b] == [b];
    } else {
      assert (s + [b])[1..] == s[1..] + [b];
      LittleEndianSnoc(s[1..], b);
      ShlShl(b, 8 * (|s| - 1), 8);
      ShlConstants(Shl(b, 8 * (|s| - 1)));
    }
  }

  /** `pb_dec_bytes`, `pb_dec_string`, `pb_dec_fixed_length_bytes` */
  method DecBlob(stream: IStream, f: Field) returns (ok: bool, v: Value)
    requires stream.Valid()
    requires f.ltype.TBytes? || f.ltype.TString? || f.ltype.TFixedLengthBytes?
    modifies stream
    ensures Did(stream, old(stream.state), old(stream.bytesLeft), DecodeScalar(f, old(stream.Rest())), ok)
    ensures ok ==> v == DecodeScalar(f, old(stream.Rest())).value
  {
    hide Varint32, CString;
    ghost var s := stream.Rest();
    v := NoValue;
    var size, bytes;
    ok, size := stream.DecodeVarint32();
    if !ok { return; }
    if f.ltype.TString? {
      if size + 1 > f.dataSize { return false, v; }
    } else {
      if size > PB_SIZE_MAX { return false, v; }
      if f.ltype.TBytes? {
        if size + BYTES_HEADER > f.dataSize { return false, v; }
      } else if size == 0 {
        return true, Blob(Zeros(f.dataSize));
      } else if size != f.dataSize {
        return false, v;
      }
    }
    ghost var n := Varint32(s).used;
    ok, bytes := stream.Read(size);
    assert ok ==> bytes == s[n..n + size];
    if ok { v := Blob(if f.ltype.TString? then CString(bytes) else bytes); }
  }

  method DecScalar(stream: IStream, f: Field) returns (ok: bool, v: Value)
    requires stream.Valid() && !f.ltype.TSubmessage?
    modifies stream
    ensures Did(stream, old(stream.state), old(stream.bytesLeft), DecodeScalar(f, old(stream.Rest())), ok)
    ensures ok ==> v == DecodeScalar(f, old(stream.Rest())).value
  {
    hide DecodeScalar;
    if f.ltype.TFixed32? {
      ok, v := DecFixed32(stream, f);
    } else if f.ltype.TFixed64? {
      ok, v := DecFixed64(stream, f);
    } else if f.ltype.TBytes? || f.ltype.TString? || f.ltype.TFixedLengthBytes? {
      ok, v := DecBlob(stream, f);
    } else {
      ok, v := DecInteger(stream, f);
    }
  }

  // ---------------------------------------------------------------------------------------
  // Default values
  // ---------------------------------------------------------------------------------------

  /** `pb_field_set_to_default` on the field the iterator is at. */
  method SetFieldToDefault(iter: FieldIter, f: Field, dest: Struct)
    requires iter.Valid() && iter.pos < |iter.start| && f == iter.start[iter.pos]
    modifies dest
    ensures dest.mem == old(dest.mem)[iter.pData := DefaultSlot(f)]
    decreases f, 0
  {
    hide Defaults, DataAddress, WellFormed;
    var a := iter.pData;
    if f.htype.Repeated? {
      dest.mem := dest.mem[a := Items([])];
      return;
    } else if f.htype.OneOf? {
      dest.mem := dest.mem[a := Union(0, NoValue)];
      return;
    }
    var v;
    if f.ltype.TSubmessage? {
      var part := new Struct(map[]);
      assert WellFormedField(f) by { UsableAt(iter); }
      SetToDefaults(f.ltype.fields, part);
      assert map[] + Defaults(f.ltype.fields) == Defaults(f.ltype.fields);
      v := Msg(part.mem);
    } else if f.default.Some? {
      v := f.default.value;
    } else {
      v := ZeroValue(f);
    }
    dest.mem := dest.mem[a := if f.htype.Optional? && f.sizeOffset != 0 then Opt(false, v) else Single(v)];
  }

  lemma UsableAt(iter: FieldIter)
    requires iter.Valid() && iter.pos < |iter.start|
    ensures WellFormedField(iter.start[iter.pos])
  {
  }

  /** `pb_message_set_to_defaults` */
  method SetToDefaults(fields: seq<Field>, dest: Struct)
    requires WellFormed(fields)
    modifies dest
    ensures dest.mem == old(dest.mem) + Defaults(fields)
    decreases fields, 1
  {
    hide DefaultSlot, DataAddress, WellFormed, WellFormedField;
    var iter := new FieldIter(fields);
    var nonEmpty := iter.Begin();
    assert old(dest.mem) + DefaultsUpTo(fields, 0) == old(dest.mem);
    if !nonEmpty { return; }
    ghost var done := 0;
    var more := true;
    while more
      invariant iter.Valid() && iter.start == fields && done <= |fields|
      invariant more ==> done == iter.pos < |fields|
      invariant !more ==> done == |fields|
      invariant dest.mem == old(dest.mem) + DefaultsUpTo(fields, done)
      decreases |fields| - done, more
    {
      ghost var before := dest.mem;
      SetFieldToDefault(iter, fields[iter.pos], dest);
      assert dest.mem == old(dest.mem) + DefaultsUpTo(fields, done + 1);
      more := iter.Next();
      done := done + 1;
    }
  }

  // ---------------------------------------------------------------------------------------
  // Fields, records and messages
  // ---------------------------------------------------------------------------------------

  /** The descriptor of a submessage is usable. */
  ghost predicate UsableField(f: Field) {
    f.ltype.TSubmessage? ==> WellFormed(f.ltype.fields)
  }

  /** The field decoders, with `pb_dec_submessage`. `prior` is what the destination holds. */
  method DecElement(stream: IStream, f: Field, prior: Value) returns (ok: bool, v: Value)
    requires stream.Valid() && UsableField(f)
    modifies stream
    ensures Did(stream, old(stream.state), old(stream.bytesLeft), DecodeElement(f, old(stream.Rest()), prior), ok)
    ensures ok ==> v == DecodeElement(f, old(stream.Rest()), prior).value
    decreases stream.bytesLeft, 0
  {
    hide DecodeScalar, DecodeNoInit, Defaults, Varint32;
    if !f.ltype.TSubmessage? {
      ok, v := DecScalar(stream, f);
      return;
    }
    v := NoValue;
    var sub := f.ltype.fields;
    var open, substream := stream.MakeSubstream();
    if !open { return false, v; }
    var dest := new Struct(if f.htype.Repeated? then map[] else MessageIn(prior));
    var status;
    if f.htype.Repeated? {
      assert map[] + Defaults(sub) == Defaults(sub);
      status := DecodeInto(substream, sub, dest);
    } else {
      status := MergeInto(substream, sub, dest);
    }
    var closed := stream.CloseSubstream(substream);
    if !closed { return false, v; }
    return status, Msg(dest.mem);
  }

  /** The packed branch of `decode_static_field`: entries to the end of the substream. */
  method DecPacked(stream: IStream, f: Field, a: int, dest: Struct, arr: Array) returns (ok: bool, arr': Array)
    requires stream.Valid() && Packable(f)
    modifies stream, dest
    ensures stream.Within(old(stream.state), old(stream.bytesLeft))
    ensures var r := Substream(old(stream.Rest()));
            && (ok <==> r.Ok? && DecodePacked(f, r.value, arr).Some?)
            && (ok ==> stream.Moved(old(stream.state), old(stream.bytesLeft), r.used)
                       && Some(arr') == DecodePacked(f, r.value, arr)
                       && dest.mem == old(dest.mem)[a := Items(arr'.items)])
  {
    hide DecodeScalar, Varint32;
    arr' := arr;
    var open, substream := stream.MakeSubstream();
    if !open { return false, arr'; }
    ghost var content := substream.Rest();
    ghost var end := substream.state + substream.bytesLeft;
    dest.mem := dest.mem[a := Items(arr'.items)];
    var status := true;
    while status && substream.bytesLeft > 0 && arr'.count < f.arraySize
      modifies substream, dest
      invariant substream.Valid() && old(stream.state) <= substream.state && substream.state + substream.bytesLeft <= end
      invariant status ==> substream.state + substream.bytesLeft == end
      invariant status ==> DecodePacked(f, content, arr) == DecodePacked(f, substream.Rest(), arr')
      invariant !status ==> DecodePacked(f, content, arr).None?
      invariant dest.mem == old(dest.mem)[a := Items(arr'.items)]
      decreases substream.bytesLeft, status
    {
      ghost var rest := substream.Rest();
      var v;
      status, v := DecScalar(substream, f);
      if status {
        assert substream.Rest() == rest[DecodeScalar(f, rest).used..];
        arr' := Store(arr', v);
        dest.mem := dest.mem[a := Items(arr'.items)];
      }
    }
    if substream.bytesLeft != 0 { return false, arr'; }
    var closed := stream.CloseSubstream(substream);
    if !closed { return false, arr'; }
    return status, arr';
  }

  /** `decode_static_field` */
  method DecodeStaticField(stream: IStream, wireType: nat, iter: FieldIter, dest: Struct, fixedCount: nat)
      returns (ok: bool, count: nat)
    requires stream.Valid() && iter.Valid() && UsableField(FieldAt(iter.start, iter.pos))
    requires iter.pSize.LoopCounter? <==> FixedCount(FieldAt(iter.start, iter.pos))
    modifies stream, dest
    ensures var r := DecodeStatic(FieldAt(iter.start, iter.pos), wireType, old(stream.Rest()), SlotAt(old(dest.mem), iter.pData), fixedCount);
            && Did(stream, old(stream.state), old(stream.bytesLeft), r, ok)
            && (ok ==> dest.mem == old(dest.mem)[iter.pData := r.value.slot] && count == r.value.fixedCount)
    decreases stream.bytesLeft, 1
  {
    hide DecodeElement, DecodePacked, Defaults, Varint32, WellFormed;
    var f, a := FieldAt(iter.start, iter.pos), iter.pData;
    var slot := SlotAt(dest.mem, a);
    var v;
    count := fixedCount;
    match f.htype
    case Required =>
      ok, v := DecElement(stream, f, ValueIn(slot));
      dest.mem := dest.mem[a := Single(v)];
    case Optional =>
      if f.sizeOffset != 0 { dest.mem := dest.mem[a := Opt(true, ValueIn(slot))]; }
      ok, v := DecElement(stream, f, ValueIn(slot));
      dest.mem := dest.mem[a := if f.sizeOffset != 0 then Opt(true, v) else Single(v)];
    case Repeated =>
      var arr := Array(ItemsIn(slot), if iter.pSize.LoopCounter? then fixedCount else |ItemsIn(slot)|);
      if wireType == WT_STRING && Packable(f) {
        var arr';
        ok, arr' := DecPacked(stream, f, a, dest, arr);
        if iter.pSize.LoopCounter? { count := arr'.count; }
      } else {
        if arr.count >= f.arraySize { return false, count; }
        ok, v := DecElement(stream, f, NoValue);
        dest.mem := dest.mem[a := Items(Store(arr, v).items)];
        if iter.pSize.LoopCounter? { count := arr.count + 1; }
      }
    case OneOf =>
      var start := ValueIn(slot);
      if !(slot.Union? && slot.which == f.tag) {
        start := NoValue;
        if f.ltype.TSubmessage? {
          var cleared := new Struct(map[]);
          SetToDefaults(f.ltype.fields, cleared);
          assert map[] + Defaults(f.ltype.fields) == Defaults(f.ltype.fields);
          start := Msg(cleared.mem);
        }
      }
      dest.mem := dest.mem[a := Union(f.tag, start)];
      ok, v := DecElement(stream, f, start);
      dest.mem := dest.mem[a := Union(f.tag, v)];
  }

  /** The locals of the field loop, besides the struct. */
  datatype Locals = Locals(fixedField: Option<nat>, fixedCount: nat, ghost seen: set<nat>)

  ghost function ProgressOf(mem: Message, l: Locals): Progress {
    Progress(mem, l.seen, l.fixedField, l.fixedCount)
  }

  /** The iterator is consistent with the fixed-count field that is being received. */
  ghost predicate LoopState(iter: FieldIter, words: seq<nat>, l: Locals)
    reads iter
  {
    && iter.Valid()
    && (iter.pSize.LoopCounter? ==> l.fixedField == Some(iter.pos))
    && Tracks(words, l.seen) && OnlyTracked(iter.start, l.seen)
  }

  /** Lines 997 to 1028 of `pb_decode.c`, for the field the iterator has found. */
  method DecodeFound(stream: IStream, wireType: nat, iter: FieldIter, dest: Struct, fieldsSeen: array<nat>, l: Locals)
      returns (ok: bool, l': Locals)
    requires stream.Valid() && LoopState(iter, fieldsSeen[..], l)
    modifies stream, dest, fieldsSeen, iter
    ensures var r := DecodeField(iter.start, old(iter.pos), wireType, old(stream.Rest()), ProgressOf(old(dest.mem), l));
            && Did(stream, old(stream.state), old(stream.bytesLeft), r, ok)
            && (ok ==> ProgressOf(dest.mem, l') == r.value && LoopState(iter, fieldsSeen[..], l'))
    decreases stream.bytesLeft, 2
  {
    hide DecodeStatic, DataAddress, RequiredIndex, Tracks, OnlyTracked, SizeAddress, WellFormed;
    l' := l;
    var f := FieldAt(iter.start, iter.pos);
    if f.htype.Repeated? && iter.pSize == InStruct(iter.pData) {
      assert FixedCount(f) by { PlainSizeAddress(iter); }
      if l'.fixedField != Some(iter.pos) {
        if l'.fixedField.Some? && l'.fixedCount != FieldAt(iter.start, l'.fixedField.value).arraySize {
          return false, l';
        }
        l' := l'.(fixedField := Some(iter.pos), fixedCount := 0);
      }
      iter.pSize := LoopCounter;
    }
    assert iter.pSize.LoopCounter? <==> FixedCount(f) by { PlainSizeAddress(iter); }
    if f.htype.Required? && iter.requiredFieldIndex < PB_MAX_REQUIRED_FIELDS {
      SetSeen(fieldsSeen, iter.requiredFieldIndex, l'.seen);
      MarkOnlyTracked(iter.start, iter.pos, ProgressOf(dest.mem, l'));
      l' := l'.(seen := l'.seen + {iter.requiredFieldIndex});
    }
    var count;
    assert UsableField(f) by { UsableFound(iter); }
    ok, count := DecodeStaticField(stream, wireType, iter, dest, l'.fixedCount);
    l' := l'.(fixedCount := count);
  }

  lemma UsableFound(iter: FieldIter)
    requires iter.Valid()
    ensures UsableField(FieldAt(iter.start, iter.pos))
  {
    if iter.pos < |iter.start| { UsableAt(iter); }
  }

  /** Outside unions the count of a field is at its offset from the data. */
  lemma PlainSizeAddress(iter: FieldIter)
    requires iter.Valid()
    ensures var f := FieldAt(iter.start, iter.pos);
            f.htype.Repeated? ==> SizeAddress(iter.start, iter.pos) == iter.pData + f.sizeOffset
  {
  }

  /** One turn of the field loop. */
  method DecodeTurn(stream: IStream, iter: FieldIter, dest: Struct, fieldsSeen: array<nat>, l: Locals)
      returns (ok: bool, stop: bool, l': Locals)
    requires stream.Valid() && stream.bytesLeft > 0 && LoopState(iter, fieldsSeen[..], l)
    modifies stream, dest, fieldsSeen, iter
    ensures stream.Within(old(stream.state), old(stream.bytesLeft))
    ensures var t := DecodeRecord(iter.start, old(stream.Rest()), ProgressOf(old(dest.mem), l));
            && (stop <==> t.Stop?) && (ok <==> t.Next?)
            && (ok || stop ==> stream.Moved(old(stream.state), old(stream.bytesLeft), t.used) && LoopState(iter, fieldsSeen[..], l'))
            && (ok ==> ProgressOf(dest.mem, l') == t.st)
            && (stop ==> ProgressOf(dest.mem, l') == ProgressOf(old(dest.mem), l))
    decreases stream.bytesLeft, 3
  {
    hide DecodeField, ReadHeader, Wire.SkipField, Tracks, OnlyTracked, WellFormed;
    l' := l;
    ghost var s := stream.Rest();
    var wireType, tag;
    ok, wireType, tag, stop := stream.DecodeTag();
    if !ok { return; }
    assert stream.Rest() == s[ReadHeader(s).used..];
    var found;
    ghost var steps;
    found, steps := iter.Find(tag);
    if !found {
      ok := stream.SkipField(wireType);
      return;
    }
    ok, l' := DecodeFound(stream, wireType, iter, dest, fieldsSeen, l);
  }

  /** Lines 1032 to 1081 of `pb_decode.c`: the fixed-count field is complete and no required field is missing. */
  method CheckComplete(iter: FieldIter, fieldsSeen: array<nat>, l: Locals) returns (ok: bool)
    requires LoopState(iter, fieldsSeen[..], l)
    modifies iter
    ensures ok <==> (l.fixedField.Some? ==> l.fixedCount == FieldAt(iter.start, l.fixedField.value).arraySize) && RequiredSeen(iter.start, l.seen)
  {
    hide Tracks, OnlyTracked, RequiredSeen, RequiredIndex;
    if l.fixedField.Some? && l.fixedCount != FieldAt(iter.start, l.fixedField.value).arraySize {
      return false;
    }
    var requiredCount := CountRequired(iter);
    ok := AllSeen(fieldsSeen, requiredCount, iter.start, l.seen);
  }

  /** `pb_decode_noinit` */
  method MergeInto(stream: IStream, fields: seq<Field>, dest: Struct) returns (ok: bool)
    requires stream.Valid() && WellFormed(fields)
    modifies stream, dest
    ensures var r := DecodeNoInit(fields, old(stream.Rest()), old(dest.mem));
            Did(stream, old(stream.state), old(stream.bytesLeft), r, ok) && (ok ==> dest.mem == r.value)
    decreases stream.bytesLeft, 4
  {
    hide DecodeRecord, DecodeLoop, WellFormed, RequiredSeen, LoopState, IStream.Rest;
    var fieldsSeen := new nat[2](_ => 0);
    var iter := new FieldIter(fields);
    var l := Locals(None, 0, {});
    assert LoopState(iter, fieldsSeen[..], l) by {
      assert fieldsSeen[..] == [0, 0];
      StartState(iter, l);
    }
    ghost var s := stream.Rest();
    var stop := false;
    while !stop && stream.bytesLeft > 0
      invariant stream.Within(old(stream.state), old(stream.bytesLeft))
      invariant stream.Moved(old(stream.state), old(stream.bytesLeft), stream.state - old(stream.state))
      invariant iter.start == fields && LoopState(iter, fieldsSeen[..], l)
      invariant DecodeLoop(fields, s, Start(old(dest.mem))) ==
        if stop then Ok(ProgressOf(dest.mem, l), stream.state - old(stream.state))
        else Plus(DecodeLoop(fields, stream.Rest(), ProgressOf(dest.mem, l)), stream.state - old(stream.state))
      decreases stream.bytesLeft, !stop
    {
      ghost var rest := stream.Rest();
      ghost var st := ProgressOf(dest.mem, l);
      ghost var here := stream.state;
      ghost var end := stream.state + stream.bytesLeft;
      assert rest == stream.source[here..end] by { RestIs(stream); }
      var turned;
      TurnOfLoop(fields, rest, st);
      turned, stop, l := DecodeTurn(stream, iter, dest, fieldsSeen, l);
      if !turned && !stop { return false; }
      assert stream.Rest() == rest[stream.state - here..] by { RestIs(stream); }
    }
    NothingLeft(fields, stream.Rest(), ProgressOf(dest.mem, l));
    ok := CheckComplete(iter, fieldsSeen, l);
  }

  lemma RestIs(stream: IStream)
    requires stream.Valid()
    ensures stream.Rest() == stream.source[stream.state..stream.state + stream.bytesLeft]
  {
  }

  lemma TurnOfLoop(fields: seq<Field>, s: seq<byte>, st: Progress)
    requires |s| > 0
    ensures var t := DecodeRecord(fields, s, st);
            && (t.Stop? ==> DecodeLoop(fields, s, st) == Ok(st, t.used))
            && (t.Error? ==> DecodeLoop(fields, s, st).Fail?)
            && (t.Next? ==> DecodeLoop(fields, s, st) == Plus(DecodeLoop(fields, s[t.used..], t.st), t.used))
  {
  }

  lemma NothingLeft(fields: seq<Field>, s: seq<byte>, st: Progress)
    ensures s == [] ==> DecodeLoop(fields, s, st) == Ok(st, 0)
  {
  }

  lemma StartState(iter: FieldIter, l: Locals)
    requires iter.Direct() && l == Locals(None, 0, {})
    ensures LoopState(iter, [0, 0], l)
  {
    NothingTracked();
  }

  /** `pb_decode` */
  method DecodeInto(stream: IStream, fields: seq<Field>, dest: Struct) returns (ok: bool)
    requires stream.Valid() && WellFormed(fields)
    modifies stream, dest
    ensures var r := Decode(fields, old(stream.Rest()), old(dest.mem));
            Did(stream, old(stream.state), old(stream.bytesLeft), r, ok) && (ok ==> dest.mem == r.value)
    decreases stream.bytesLeft, 5
  {
    hide DecodeNoInit;
    SetToDefaults(fields, dest);
    ok := MergeInto(stream, fields, dest);
  }
}

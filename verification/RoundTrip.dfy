/**
 Decoding what was encoded gives back the message, for every descriptor tree and every message in
 normal form.
 */
module RoundTrip {
  import opened Bits
  import opened Wire
  import opened Descriptor
  import opened Decoding
  import opened Encoding
  import opened Records
  import opened Options

  // ---------------------------------------------------------------------------------------
  // Normal form
  // ---------------------------------------------------------------------------------------

  predicate NormalValue(f: Field, v: Value)
    decreases f, 0
  {
    if f.ltype.TSubmessage? then v.Msg? && Normal(f.ltype.fields, v.message) else TypedValue(f, v)
  }

  /** The default of a proto3 field, which has no flag, is zero. */
  predicate ZeroDefault(f: Field) {
    f.default.None? || f.default.value == ZeroValue(f)
  }

  predicate NormalSlot(f: Field, slot: Slot)
    decreases f, 1
  {
    match f.htype
    case Required => slot.Single? && NormalValue(f, slot.value)
    case Optional =>
      if f.sizeOffset != 0
      then slot.Opt? && (if slot.has then NormalValue(f, slot.value) else slot.value == DefaultValue(f))
      else slot.Single? && NormalValue(f, slot.value) && ZeroDefault(f)
    case Repeated =>
      && slot.Items?
      && (if f.sizeOffset != 0 then |slot.items| <= f.arraySize else |slot.items| == f.arraySize)
      && forall k :: 0 <= k < |slot.items| ==> NormalValue(f, slot.items[k])
    case OneOf =>
      slot.Union? && (slot.which == f.tag ==> NormalValue(f, slot.value)) && (slot.which == 0 ==> slot.value == NoValue)
  }

  /**
   A typed message in which an optional field that is absent holds its default, and which needs no
   default other than zero for its proto3 fields.
   */
  predicate Normal(fields: seq<Field>, m: Message)
    decreases fields, 2
  {
    && m.Keys == Addresses(fields)
    && (forall i :: 0 <= i < |fields| ==> NormalSlot(fields[i], SlotAt(m, DataAddress(fields, i))))
    && (forall i :: 0 <= i < |fields| && fields[i].htype.OneOf? && SlotAt(m, DataAddress(fields, i)).Union? ==>
          KnownMember(fields, DataAddress(fields, i), SlotAt(m, DataAddress(fields, i)).which))
  }

  // ---------------------------------------------------------------------------------------
  // Scalars
  // ---------------------------------------------------------------------------------------

  lemma Shl8Powers()
    ensures Shl(1, 8) == 0x100 && Shl(1, 16) == 0x1_0000 && Shl(1, 32) == TWO32 && Shl(1, 64) == TWO64
    ensures Shl(1, 7) == 0x80 && Shl(1, 15) == 0x8000 && Shl(1, 31) == TWO31 && Shl(1, 63) == TWO63
  {
    ShlConstants(1);
    ShlShl(1, 8, 8);
    ShlConstants(0x100);
    assert Shl(1, 16) == 2 * Shl(1, 15) && Shl(1, 32) == 2 * Shl(1, 31);
  }

  /** A signed value of `bits` bits is what its two's complement reads as. */
  lemma SignedBitsInverts(v: int, bits: nat)
    requires bits in {8, 16, 32, 64} && 0 <= v + Shl(1, bits - 1) && v < Shl(1, bits - 1)
    ensures SignedBits(Unsigned64(v), bits) == v
  {
    hide Low, Shl;
    Shl8Powers();
    Unsigned64Value(v);
    if v >= 0 {
      LowRange(v, bits);
    } else {
      LowOfNegative(v, bits);
    }
  }

  lemma LowOfNegative(v: int, bits: nat)
    requires bits in {8, 16, 32, 64} && 0 <= v + Shl(1, bits - 1) && v < 0
    ensures 0 <= TWO64 + v && Low(TWO64 + v, bits) == Shl(1, bits) + v
  {
    hide Low, Shl;
    Shl8Powers();
    var low := Shl(1, bits) + v;
    LowRange(low, bits);
    if bits < 64 {
      // TWO64 + v == low + (2^(64 - bits) - 1) * 2^bits
      var high := Shl(1, 64 - bits) - 1;
      ShlShl(1, 64 - bits, bits);
      ShlAdd(high, 1, bits);
      LowIgnores(low, high, bits, bits);
    }
  }

  lemma NarrowSignedInverts(v: int, width: nat)
    requires IntWidth(width) && IntRange(v, width, true)
    ensures NarrowSigned(Unsigned64(v), width) == Some(v)
  {
    hide SignedBits, Unsigned64, Shl;
    Shl8Powers();
    SignedBitsInverts(v, 8 * width);
    if width < 8 { SignedBitsInverts(v, 32); }
  }

  lemma NarrowUnsignedInverts(v: nat, width: nat)
    requires IntWidth(width) && IntRange(v, width, false)
    ensures Unsigned64(v) == v && NarrowUnsigned(v, width) == Some(v)
  {
    hide Low, Shl;
    Shl8Powers();
    LowRange(v, 8 * width);
  }

  lemma NarrowZigZagInverts(v: int, width: nat)
    requires IntWidth(width) && IntRange(v, width, true)
    ensures NarrowZigZag(ZigZag(v), width) == Some(v)
  {
    hide SignedBits, Unsigned64, Shl, ZigZag, UnZigZag;
    Shl8Powers();
    ZigZagInverts(v);
    SignedBitsInverts(v, 8 * width);
  }

  lemma ReadVarintInverts(u: nat, tail: seq<byte>)
    requires u < TWO64
    ensures ReadVarint(Varint(u) + tail) == Ok(u, |Varint(u)|)
  {
    Varint64Inverts(u, tail);
  }

  lemma {:induction false} CStringWhole(s: seq<byte>)
    requires 0 !in s
    ensures CString(s) == s
  {
    if s != [] { CStringWhole(s[1..]); }
  }

  /** The integer types: every value of every width comes back, and nothing but its encoding is used. */
  lemma IntegerRoundTrip(f: Field, v: Value, tail: seq<byte>)
    requires f.ltype.TBool? || f.ltype.TVarint? || f.ltype.TUVarint? || f.ltype.TSVarint?
    requires TypedValue(f, v)
    ensures EncodeScalar(f, v).Some?
    ensures DecodeScalar(f, EncodeScalar(f, v).value + tail) == Ok(v, |EncodeScalar(f, v).value|)
    ensures 1 <= |EncodeScalar(f, v).value| <= 10
  {
    hide Varint, Varint32, Varint64, ReadVarint, NarrowSigned, NarrowUnsigned, NarrowZigZag;
    match f.ltype
    case TBool =>
      Varint32Inverts(v.i, tail);
      VarintAtMost(v.i);
    case TVarint =>
      ReadVarintInverts(Unsigned64(v.i), tail);
      NarrowSignedInverts(v.i, f.dataSize);
      VarintAtMost(Unsigned64(v.i));
    case TUVarint =>
      NarrowUnsignedInverts(v.i, f.dataSize);
      ReadVarintInverts(v.i, tail);
      VarintAtMost(v.i);
    case TSVarint =>
      ReadVarintInverts(ZigZag(v.i), tail);
      NarrowZigZagInverts(v.i, f.dataSize);
      VarintAtMost(ZigZag(v.i));
  }

  lemma FixedRoundTrip(f: Field, v: Value, tail: seq<byte>)
    requires f.ltype.TFixed32? || f.ltype.TFixed64?
    requires TypedValue(f, v)
    ensures EncodeScalar(f, v).Some?
    ensures DecodeScalar(f, EncodeScalar(f, v).value + tail) == Ok(v, |EncodeScalar(f, v).value|)
  {
    hide LittleEndian, FromLittleEndian, Shl;
    Shl8Powers();
    var n := if f.ltype.TFixed32? then 4 else 8;
    LittleEndianInverts(n, v.i);
    assert (LittleEndian(n, v.i) + tail)[..n] == LittleEndian(n, v.i);
  }

  lemma BlobRoundTrip(f: Field, v: Value, tail: seq<byte>)
    requires f.ltype.TBytes? || f.ltype.TString? || f.ltype.TFixedLengthBytes?
    requires WellFormedField(f) && TypedValue(f, v)
    ensures EncodeScalar(f, v).Some?
    ensures DecodeScalar(f, EncodeScalar(f, v).value + tail) == Ok(v, |EncodeScalar(f, v).value|)
  {
    hide Varint, Varint32, CString;
    var b := v.bytes;
    assert |b| <= PB_SIZE_MAX;
    var n := |Varint(|b|)|;
    var s := Varint(|b|) + b + tail;
    assert s == Varint(|b|) + (b + tail);
    Varint32Inverts(|b|, b + tail);
    assert s[n..n + |b|] == b;
    if f.ltype.TString? { CStringWhole(b); }
  }

  lemma ScalarRoundTrip(f: Field, v: Value, tail: seq<byte>)
    requires WellFormedField(f) && TypedValue(f, v) && !f.ltype.TSubmessage?
    ensures EncodeScalar(f, v).Some?
    ensures DecodeScalar(f, EncodeScalar(f, v).value + tail) == Ok(v, |EncodeScalar(f, v).value|)
  {
    hide DecodeScalar, EncodeScalar;
    if f.ltype.TBytes? || f.ltype.TString? || f.ltype.TFixedLengthBytes? {
      BlobRoundTrip(f, v, tail);
    } else if f.ltype.TFixed32? || f.ltype.TFixed64? {
      FixedRoundTrip(f, v, tail);
    } else {
      IntegerRoundTrip(f, v, tail);
    }
  }

  // ---------------------------------------------------------------------------------------
  // Zero and default
  // ---------------------------------------------------------------------------------------

  /** A field of a normal message that the encoder takes for zero holds its default. */
  lemma {:induction false} ZeroIsDefault(f: Field, slot: Slot)
    requires WellFormedField(f) && NormalSlot(f, slot) && IsZero(f, slot)
    ensures slot == DefaultSlot(f)
    decreases f, 0
  {
    if f.ltype.TSubmessage? && f.htype.Optional? && f.sizeOffset == 0 {
      AllZeroIsDefault(f.ltype.fields, slot.value.message);
    }
  }

  lemma {:induction false} AllZeroIsDefault(fields: seq<Field>, m: Message)
    requires WellFormed(fields) && Normal(fields, m) && AllZero(fields, m)
    ensures m == Defaults(fields)
    decreases fields, 1
  {
    hide DataAddress, Defaults;
    DefaultsKeys(fields);
    forall a | a in m ensures m[a] == Defaults(fields)[a] {
      var i :| 0 <= i < |fields| && DataAddress(fields, i) == a;
      assert NormalSlot(fields[i], SlotAt(m, DataAddress(fields, i)));
      ZeroIsDefault(fields[i], SlotAt(m, DataAddress(fields, i)));
      DefaultsAt(fields, i);
    }
  }

  lemma DefaultsKeys(fields: seq<Field>)
    requires WellFormed(fields)
    ensures Defaults(fields).Keys == Addresses(fields)
  {
    DefaultsUpToKeys(fields, |fields|);
  }

  // ---------------------------------------------------------------------------------------
  // The state of the decoder after the fields before `i`
  // ---------------------------------------------------------------------------------------

  /** The slot at `a` has been decoded: its field, or the stored member of its union, comes before `i`. */
  predicate Done(fields: seq<Field>, m: Message, i: nat, a: int)
    requires i <= |fields|
  {
    exists j :: 0 <= j < i && DataAddress(fields, j) == a && Stores(fields[j], SlotAt(m, a))
  }

  predicate Stores(f: Field, slot: Slot) {
    f.htype.OneOf? ==> slot.Union? && slot.which == f.tag
  }

  /** The struct when the fields before `i` are decoded and the others hold their defaults. */
  function Mix(fields: seq<Field>, m: Message, i: nat): Message
    requires i <= |fields|
  {
    map a | a in Addresses(fields) :: if Done(fields, m, i, a) then SlotAt(m, a) else SlotAt(Defaults(fields), a)
  }

  predicate SeenBefore(fields: seq<Field>, i: nat, seen: set<nat>)
    requires i <= |fields|
  {
    forall j :: 0 <= j < i && fields[j].htype.Required? && RequiredIndex(fields, j) < PB_MAX_REQUIRED_FIELDS
      ==> RequiredIndex(fields, j) in seen
  }

  predicate At(fields: seq<Field>, m: Message, i: nat, st: Progress)
    requires i <= |fields|
  {
    && st.msg == Mix(fields, m, i)
    && FixedComplete(fields, st)
    && (st.fixedField.Some? ==> st.fixedField.value < i)
    && SeenBefore(fields, i, st.seen)
  }

  lemma InAddresses(fields: seq<Field>, i: nat)
    requires i < |fields|
    ensures DataAddress(fields, i) in Addresses(fields)
  {
  }

  /** What field `i` is about to store is not in the struct yet. */
  lemma NotDoneBefore(fields: seq<Field>, m: Message, i: nat)
    requires WellFormed(fields) && i < |fields| && Stores(fields[i], SlotAt(m, DataAddress(fields, i)))
    ensures !Done(fields, m, i, DataAddress(fields, i))
    ensures SlotAt(Mix(fields, m, i), DataAddress(fields, i)) == DefaultSlot(fields[i])
  {
    hide DataAddress, Defaults;
    var a := DataAddress(fields, i);
    if Done(fields, m, i, a) {
      var j :| 0 <= j < i && DataAddress(fields, j) == a && Stores(fields[j], SlotAt(m, a));
      SharedAddress(fields, j, i);
      assert false;
    }
    DefaultsAt(fields, i);
    InAddresses(fields, i);
  }

  /** Storing what field `i` encodes moves the state on. */
  lemma MixStored(fields: seq<Field>, m: Message, i: nat)
    requires WellFormed(fields) && i < |fields| && Stores(fields[i], SlotAt(m, DataAddress(fields, i)))
    ensures Mix(fields, m, i)[DataAddress(fields, i) := SlotAt(m, DataAddress(fields, i))] == Mix(fields, m, i + 1)
  {
    hide DataAddress, Defaults;
    var a := DataAddress(fields, i);
    InAddresses(fields, i);
    assert Done(fields, m, i + 1, a);
    forall b | b != a ensures Done(fields, m, i + 1, b) == Done(fields, m, i, b) {
      DoneElsewhere(fields, m, i, b);
    }
  }

  lemma DoneElsewhere(fields: seq<Field>, m: Message, i: nat, b: int)
    requires i < |fields|
    requires b != DataAddress(fields, i) || !Stores(fields[i], SlotAt(m, b))
    ensures Done(fields, m, i + 1, b) == Done(fields, m, i, b)
  {
    hide DataAddress;
    if Done(fields, m, i, b) {
      var j :| 0 <= j < i && DataAddress(fields, j) == b && Stores(fields[j], SlotAt(m, b));
      assert j < i + 1;
    }
  }

  /** A field that encodes nothing holds its default, or is not the stored member of its union. */
  lemma MixSkipped(fields: seq<Field>, m: Message, i: nat)
    requires WellFormed(fields) && i < |fields|
    requires var slot := SlotAt(m, DataAddress(fields, i)); !Stores(fields[i], slot) || slot == DefaultSlot(fields[i])
    ensures Mix(fields, m, i) == Mix(fields, m, i + 1)
  {
    hide DataAddress, Defaults;
    var a := DataAddress(fields, i);
    if Stores(fields[i], SlotAt(m, a)) {
      NotDoneBefore(fields, m, i);
      MixStored(fields, m, i);
      InAddresses(fields, i);
      assert Mix(fields, m, i)[a := SlotAt(m, a)] == Mix(fields, m, i);
    } else {
      forall b ensures Done(fields, m, i + 1, b) == Done(fields, m, i, b) {
        DoneElsewhere(fields, m, i, b);
      }
    }
  }

  /** At the end the struct is the message. */
  lemma MixComplete(fields: seq<Field>, m: Message)
    requires WellFormed(fields) && Normal(fields, m)
    ensures Mix(fields, m, |fields|) == m
  {
    hide DataAddress, Defaults;
    forall a | a in m ensures Mix(fields, m, |fields|)[a] == m[a] {
      if !Done(fields, m, |fields|, a) {
        var i :| 0 <= i < |fields| && DataAddress(fields, i) == a;
        var slot := SlotAt(m, a);
        assert NormalSlot(fields[i], SlotAt(m, DataAddress(fields, i)));
        assert fields[i].htype.OneOf? && KnownMember(fields, a, slot.which);
        assert slot.which == 0 by {
          assert forall j :: 0 <= j < |fields| && DataAddress(fields, j) == a && fields[j].tag == slot.which ==> Stores(fields[j], slot);
        }
        DefaultsAt(fields, i);
      }
    }
  }

  lemma MixStart(fields: seq<Field>, m: Message)
    requires WellFormed(fields)
    ensures Mix(fields, m, 0) == Defaults(fields)
  {
    hide DataAddress, Defaults;
    DefaultsKeys(fields);
  }

  lemma SeenMarked(fields: seq<Field>, i: nat, st: Progress)
    requires i < |fields| && SeenBefore(fields, i, st.seen)
    ensures SeenBefore(fields, i + 1, MarkSeen(fields, i, st).seen)
  {
    hide RequiredIndex;
  }

  // ---------------------------------------------------------------------------------------
  // Every normal message can be encoded
  // ---------------------------------------------------------------------------------------

  lemma {:induction false} ElementEncodable(f: Field, v: Value)
    requires WellFormedField(f) && NormalValue(f, v)
    ensures EncodeElement(f, v).Some?
    decreases f, 0, 0
  {
    hide EncodeScalar;
    if f.ltype.TSubmessage? {
      FromEncodable(f.ltype.fields, v.message, 0);
    } else {
      ScalarRoundTrip(f, v, []);
    }
  }

  lemma {:induction false} ScalarsEncodable(f: Field, vs: seq<Value>)
    requires WellFormedField(f) && !f.ltype.TSubmessage? && forall k :: 0 <= k < |vs| ==> TypedValue(f, vs[k])
    ensures EncodeScalars(f, vs).Some?
  {
    hide EncodeScalar;
    if vs != [] {
      ScalarRoundTrip(f, vs[0], []);
      ScalarsEncodable(f, vs[1..]);
    }
  }

  lemma {:induction false} RecordsEncodable(f: Field, vs: seq<Value>)
    requires WellFormedField(f) && forall k :: 0 <= k < |vs| ==> NormalValue(f, vs[k])
    ensures EncodeRecords(f, vs).Some?
    decreases f, 1, |vs|
  {
    if vs != [] {
      ElementEncodable(f, vs[0]);
      RecordsEncodable(f, vs[1..]);
    }
  }

  lemma {:induction false} FieldEncodable(f: Field, slot: Slot)
    requires WellFormedField(f) && NormalSlot(f, slot)
    ensures EncodeField(f, slot).Some?
    decreases f, 2, 0
  {
    hide EncodeElement, EncodeScalars, EncodeRecords;
    if f.htype.Repeated? {
      var vs := slot.items;
      assert vs[..|vs|] == vs;
      if Packable(f) { ScalarsEncodable(f, vs); } else { RecordsEncodable(f, vs); }
    } else if NormalValue(f, slot.value) {
      ElementEncodable(f, slot.value);
    }
  }

  lemma {:induction false} FromEncodable(fields: seq<Field>, m: Message, i: nat)
    requires WellFormed(fields) && Normal(fields, m) && i <= |fields|
    ensures EncodeFrom(fields, m, i).Some?
    decreases fields, 3, |fields| - i
  {
    if i < |fields| {
      FieldEncodable(fields[i], SlotAt(m, DataAddress(fields, i)));
      FromEncodable(fields, m, i + 1);
    }
  }

  // ---------------------------------------------------------------------------------------
  // Arrays
  // ---------------------------------------------------------------------------------------

  /** The elements of a packed array, encoded one by one. */
  function ElementBytes(f: Field, vs: seq<Value>): (es: seq<seq<byte>>)
    requires EncodeScalars(f, vs).Some?
    ensures |es| == |vs|
  {
    if vs == [] then [] else [EncodeScalar(f, vs[0]).value] + ElementBytes(f, vs[1..])
  }

  lemma {:induction false} ElementBytesDecode(f: Field, vs: seq<Value>)
    requires WellFormedField(f) && !f.ltype.TSubmessage? && forall k :: 0 <= k < |vs| ==> TypedValue(f, vs[k])
    requires EncodeScalars(f, vs).Some?
    ensures Concat(ElementBytes(f, vs)) == EncodeScalars(f, vs).value
    ensures DecodableElements(f, ElementBytes(f, vs)) && ElementValues(f, ElementBytes(f, vs)) == vs
  {
    hide EncodeScalar, DecodeScalar;
    if vs != [] {
      var e := EncodeScalar(f, vs[0]).value;
      ScalarRoundTrip(f, vs[0], []);
      assert e + [] == e;
      ElementBytesDecode(f, vs[1..]);
      var es := ElementBytes(f, vs);
      assert es[1..] == ElementBytes(f, vs[1..]);
      forall k | 0 <= k < |es| ensures DecodeScalar(f, es[k]) == Ok(vs[k], |es[k]|) {
        if k > 0 {
          assert es[k] == es[1..][k - 1];
          assert ElementValues(f, es[1..])[k - 1] == vs[1..][k - 1];
        }
      }
    }
  }

  /** The state when a repeated field is complete. */
  lemma ArrayDone(fields: seq<Field>, m: Message, i: nat, st: Progress, vs: seq<Value>)
    requires WellFormed(fields) && i < |fields| && fields[i].htype.Repeated? && At(fields, m, i, st)
    requires SlotAt(m, DataAddress(fields, i)) == Items(vs) && |vs| <= fields[i].arraySize
    requires FixedCount(fields[i]) ==> |vs| == fields[i].arraySize
    ensures CanReceive(fields, i, st)
    ensures var st1 := EnterFixed(fields, i, st).value;
            && Current(fields, i, st1) == Array([], 0)
            && At(fields, m, i + 1, Received(fields, i, st1, Array(vs, |vs|)))
  {
    hide DataAddress, Mix;
    NotDoneBefore(fields, m, i);
    MixStored(fields, m, i);
  }

  lemma PackedArrayRoundTrip(fields: seq<Field>, i: nat, vs: seq<Value>, tail: seq<byte>, st: Progress)
    requires WellFormed(fields) && CanReceive(fields, i, st) && Packable(fields[i])
    requires Current(fields, i, EnterFixed(fields, i, st).value) == Array([], 0)
    requires (forall k :: 0 <= k < |vs| ==> TypedValue(fields[i], vs[k])) && 0 < |vs| <= fields[i].arraySize
    requires EncodeArray(fields[i], vs).Some? && Short(EncodeScalars(fields[i], vs))
    ensures var e := EncodeArray(fields[i], vs).value;
            DecodeLoop(fields, e + tail, st)
              == Shift(DecodeLoop(fields, tail, Received(fields, i, EnterFixed(fields, i, st).value, Array(vs, |vs|))), |e|)
  {
    hide DecodeLoop, TypedValue, Current, Received, StoreAll, EncodeScalars, ElementBytes, ElementValues;
    var f := fields[i];
    assert WellFormedField(f);
    ElementBytesDecode(f, vs);
    var pieces := [Packed(ElementBytes(f, vs))];
    assert Elements(pieces) == ElementBytes(f, vs) by { assert Elements([]) == []; assert pieces[1..] == []; }
    assert PiecesBytes(f.tag, pieces) == EncodeArray(f, vs).value by { assert PiecesBytes(f.tag, []) == []; assert pieces[1..] == []; }
    EnterPieces(fields, i, pieces, tail, st);
    PiecesDecode(fields, i, pieces, tail, EnterFixed(fields, i, st).value);
    StoreAllAppends([], vs);
    assert [] + vs == vs;
  }

  // ---------------------------------------------------------------------------------------
  // Length prefixes
  // ---------------------------------------------------------------------------------------

  /** The content that goes behind a length prefix can be announced in 32 bits. */
  predicate Short(content: Option<seq<byte>>) {
    content.Some? ==> |content.value| < TWO32
  }

  predicate ElementFits(f: Field, v: Value)
    decreases f, 0
  {
    f.ltype.TSubmessage? && v.Msg? ==>
      Short(EncodeMessage(f.ltype.fields, v.message)) && LengthsFit(f.ltype.fields, v.message)
  }

  predicate SlotFits(f: Field, slot: Slot)
    decreases f, 1
  {
    if Skipped(f, slot) then true
    else if !slot.Items? then ElementFits(f, slot.value)
    else if Packable(f) then Short(EncodeScalars(f, slot.items))
    else forall k :: 0 <= k < |slot.items| ==> ElementFits(f, slot.items[k])
  }

  /** Every submessage and every packed array in the message, at any depth, takes less than 4 GiB. */
  predicate LengthsFit(fields: seq<Field>, m: Message)
    decreases fields, 2
  {
    FitsFrom(fields, m, 0)
  }

  predicate FitsFrom(fields: seq<Field>, m: Message, i: nat)
    requires i <= |fields|
    decreases fields, 1, |fields| - i
  {
    i < |fields| ==> SlotFits(fields[i], SlotAt(m, DataAddress(fields, i))) && FitsFrom(fields, m, i + 1)
  }

  /** The fields for which nothing is encoded. */
  predicate Skipped(f: Field, slot: Slot) {
    match f.htype
    case Required => false
    case Optional => if f.sizeOffset != 0 then slot.Opt? && !slot.has else IsZero(f, slot)
    case Repeated => slot == Items([])
    case OneOf => !Stores(f, slot)
  }

  /** A length from 2^32 on, but below 2^63, is refused. */
  lemma {:induction false} LongRefused(content: seq<byte>, tail: seq<byte>)
    requires TWO32 <= |content| < TWO63
    ensures Substream(Varint(|content|) + content + tail).Fail?
  {
    hide Varint, Varint32, DropGroups, SignGroups;
    var n := |content|;
    assert Varint(n) + content + tail == Varint(n) + (content + tail);
    NotSignExtended(n);
    Varint32Accepts(n, content + tail);
  }

  lemma NotSignExtended(v: nat)
    requires v < TWO63
    ensures !SignGroups(DropGroups(v, 5), 4)
  {
    var w := DropGroups(v, 5);
    DropFive(v);
    if SignGroups(w, 4) { FourGroups(w); }
  }

  lemma DropFive(v: nat)
    requires v < TWO63
    ensures DropGroups(v, 5) < 0x1000_0000
  {
    var a := v / 128;
    var b := a / 128;
    var c := b / 128;
    var d := c / 128;
    assert DropGroups(v, 5) == DropGroups(a, 4) == DropGroups(b, 3) == DropGroups(c, 2) == DropGroups(d, 1) == d / 128;
  }

  lemma FourGroups(w: nat)
    requires SignGroups(w, 4)
    ensures w >= 0x1000_0000
  {
    var a := w / 128;
    var b := a / 128;
    var c := b / 128;
    assert SignGroups(a, 3) && SignGroups(b, 2) && SignGroups(c, 1);
    assert SignGroups(c / 128, 0);
  }

  // ---------------------------------------------------------------------------------------
  // The round trip, by induction on the descriptor tree
  // ---------------------------------------------------------------------------------------

  /** A packed array whose length does not fit stops the decoder. */
  lemma PackedTooLong(fields: seq<Field>, i: nat, vs: seq<Value>, tail: seq<byte>, st: Progress)
    requires WellFormed(fields) && CanReceive(fields, i, st) && Packable(fields[i])
    requires 0 < |vs| <= fields[i].arraySize && EncodeScalars(fields[i], vs).Some?
    requires TWO32 <= |EncodeScalars(fields[i], vs).value| < TWO63
    ensures DecodeLoop(fields, EncodeArray(fields[i], vs).value + tail, st).Fail?
  {
    hide DecodeLoop, DecodeRecord, EncodeScalars, DataAddress, Substream;
    var f := fields[i];
    var content := EncodeScalars(f, vs).value;
    LongRefused(content, tail);
    var payload := Varint(|content|) + content + tail;
    assert EncodeArray(f, vs).value + tail == TagBytes(WT_STRING, f.tag) + payload;
    RecordOfField(fields, i, WT_STRING, payload, st);
    LoopTurn(fields, EncodeArray(f, vs).value, tail, st);
  }

  lemma {:induction false} ElementRoundTrip(f: Field, v: Value, tail: seq<byte>, prior: Value)
    requires WellFormedField(f) && NormalValue(f, v)
    requires f.ltype.TSubmessage? && !f.htype.Repeated? ==> MessageIn(prior) == Defaults(f.ltype.fields)
    requires EncodeElement(f, v).Some? && |EncodeElement(f, v).value| < TWO63
    ensures var r := DecodeElement(f, EncodeElement(f, v).value + tail, prior);
            r == if ElementFits(f, v) then Ok(v, |EncodeElement(f, v).value|) else Fail
    decreases f, 0, 0
  {
    hide Defaults, EncodeScalar, DecodeScalar, TypedValue, DecodeNoInit, EncodeMessage, LengthsFit, Substream;
    match f.ltype
    case TSubmessage(sub) =>
      var content := EncodeMessage(sub, v.message).value;
      MessageRoundTrip(sub, v.message);
      if |content| < TWO32 { SubstreamOf(content, tail); } else { LongRefused(content, tail); }
    case _ =>
      ScalarRoundTrip(f, v, tail);
  }

  /** The entries of an array that is not packed, one record each. */
  lemma {:induction false} RecordsRoundTrip(
      fields: seq<Field>, i: nat, f: Field, done: seq<Value>, rest: seq<Value>, tail: seq<byte>, st: Progress)
    requires WellFormed(fields) && Receiving(fields, i, st) && f == fields[i] && !Packable(f)
    requires Current(fields, i, st) == Array(done, |done|) && |done| + |rest| <= f.arraySize
    requires forall k :: 0 <= k < |rest| ==> NormalValue(f, rest[k])
    requires EncodeRecords(f, rest).Some? && |EncodeRecords(f, rest).value| < TWO63
    ensures var e := EncodeRecords(f, rest).value;
            DecodeLoop(fields, e + tail, st)
              == if forall k :: 0 <= k < |rest| ==> ElementFits(f, rest[k])
                 then Shift(DecodeLoop(fields, tail, Received(fields, i, st, Array(done + rest, |done| + |rest|))), |e|)
                 else Fail
    decreases f, 1, |rest|
  {
    hide DecodeLoop, DecodeRecord, EncodeElement, NormalValue, WellFormed, DataAddress, EnterFixed, ElementFits;
    if rest == [] {
      assert done + rest == done;
      assert [] + tail == tail;
      ReceivedCurrent(fields, i, st);
    } else {
      var v, r := rest[0], EncodeRecord(f, rest[0]).value;
      var tail' := EncodeRecords(f, rest[1..]).value + tail;
      assert EncodeRecords(f, rest).value + tail == r + tail';
      EntryRoundTrip(fields, i, f, done, v, tail', st);
      LoopTurn(fields, r, tail', st);
      if ElementFits(f, v) {
        var arr, all := Array(done + [v], |done| + 1), Array(done + rest, |done| + |rest|);
        ReceivedTwice(fields, i, st, arr, all);
        assert done + [v] + rest[1..] == done + rest;
        RecordsRoundTrip(fields, i, f, done + [v], rest[1..], tail, Received(fields, i, st, arr));
      }
    }
  }

  lemma ReceivedCurrent(fields: seq<Field>, i: nat, st: Progress)
    requires Receiving(fields, i, st)
    ensures Received(fields, i, st, Current(fields, i, st)) == st
  {
    var a := DataAddress(fields, i);
    assert a in st.msg && st.msg[a := Items(Current(fields, i, st).items)] == st.msg;
  }

  lemma {:induction false} EntryRoundTrip(
      fields: seq<Field>, i: nat, f: Field, done: seq<Value>, v: Value, tail: seq<byte>, st: Progress)
    requires WellFormed(fields) && Receiving(fields, i, st) && f == fields[i] && !Packable(f)
    requires Current(fields, i, st) == Array(done, |done|) && |done| < f.arraySize
    requires NormalValue(f, v) && EncodeRecord(f, v).Some? && |EncodeRecord(f, v).value| < TWO63
    ensures var r := EncodeRecord(f, v).value;
            DecodeRecord(fields, r + tail, st)
              == if ElementFits(f, v) then Next(Received(fields, i, st, Array(done + [v], |done| + 1)), |r|) else Error
    decreases f, 0, 1
  {
    hide DecodeLoop, DecodeRecord, DecodeElement, EncodeElement, NormalValue, DataAddress, ElementFits;
    assert WellFormedField(f);
    var e := EncodeElement(f, v).value;
    assert EncodeRecord(f, v).value + tail == TagBytes(WireTypeOf(f), f.tag) + (e + tail);
    ElementRoundTrip(f, v, tail, NoValue);
    RecordOfField(fields, i, WireTypeOf(f), e + tail, st);
  }

  /** A field that is not repeated and is not skipped: one record. */
  lemma {:induction false} SingleStep(fields: seq<Field>, m: Message, i: nat, f: Field, slot: Slot, tail: seq<byte>, st: Progress)
      returns (st': Progress)
    requires WellFormed(fields) && i < |fields| && f == fields[i] && slot == SlotAt(m, DataAddress(fields, i))
    requires At(fields, m, i, st) && !f.htype.Repeated? && NormalSlot(f, slot) && Stores(f, slot)
    requires f.htype.Optional? && f.sizeOffset != 0 ==> slot.has
    requires EncodeRecord(f, slot.value).Some? && |EncodeRecord(f, slot.value).value| < TWO63
    ensures ElementFits(f, slot.value) ==> At(fields, m, i + 1, st')
    ensures var e := EncodeRecord(f, slot.value).value;
            DecodeLoop(fields, e + tail, st)
              == if ElementFits(f, slot.value) then Shift(DecodeLoop(fields, tail, st'), |e|) else Fail
    decreases f, 1, 0
  {
    hide DecodeLoop, DecodeRecord, DecodeElement, EncodeElement, NormalValue, DataAddress, Mix, Defaults, SeenBefore, ElementFits;
    assert WellFormedField(f);
    NotDoneBefore(fields, m, i);
    MixStored(fields, m, i);
    SeenMarked(fields, i, st);
    var e := EncodeElement(f, slot.value).value;
    var r := EncodeRecord(f, slot.value).value;
    var before := DefaultSlot(f);
    assert r + tail == TagBytes(WireTypeOf(f), f.tag) + (e + tail);
    var prior := if f.htype.OneOf? then MemberStart(f, before) else ValueIn(before);
    ElementRoundTrip(f, slot.value, tail, prior);
    RecordOfField(fields, i, WireTypeOf(f), e + tail, st);
    LoopTurn(fields, r, tail, st);
    st' := if ElementFits(f, slot.value) then DecodeRecord(fields, r + tail, st).st else st;
  }

  lemma PackedStep(fields: seq<Field>, i: nat, f: Field, vs: seq<Value>, tail: seq<byte>, st: Progress)
    requires WellFormed(fields) && CanReceive(fields, i, st) && f == fields[i] && Packable(f)
    requires Current(fields, i, EnterFixed(fields, i, st).value) == Array([], 0)
    requires NormalSlot(f, Items(vs)) && 0 < |vs| <= f.arraySize
    requires EncodeArray(f, vs).Some? && |EncodeArray(f, vs).value| < TWO63
    ensures var e := EncodeArray(f, vs).value;
            DecodeLoop(fields, e + tail, st)
              == if Short(EncodeScalars(f, vs))
                 then Shift(DecodeLoop(fields, tail, Received(fields, i, EnterFixed(fields, i, st).value, Array(vs, |vs|))), |e|)
                 else Fail
  {
    hide DecodeLoop, EncodeScalars, NormalValue, DataAddress, Current, Received, EnterFixed;
    forall k | 0 <= k < |vs| ensures TypedValue(f, vs[k]) { PackableTyped(f, vs[k]); }
    if Short(EncodeScalars(f, vs)) { PackedArrayRoundTrip(fields, i, vs, tail, st); } else { PackedTooLong(fields, i, vs, tail, st); }
  }

  lemma {:induction false} RecordsStep(fields: seq<Field>, i: nat, f: Field, vs: seq<Value>, tail: seq<byte>, st: Progress)
    requires WellFormed(fields) && CanReceive(fields, i, st) && f == fields[i] && !Packable(f)
    requires Current(fields, i, EnterFixed(fields, i, st).value) == Array([], 0)
    requires NormalSlot(f, Items(vs)) && f.htype.Repeated? && 0 < |vs| <= f.arraySize
    requires EncodeArray(f, vs).Some? && |EncodeArray(f, vs).value| < TWO63
    ensures var e := EncodeArray(f, vs).value;
            DecodeLoop(fields, e + tail, st)
              == if forall k :: 0 <= k < |vs| ==> ElementFits(f, vs[k])
                 then Shift(DecodeLoop(fields, tail, Received(fields, i, EnterFixed(fields, i, st).value, Array(vs, |vs|))), |e|)
                 else Fail
    decreases f, 1, |vs| + 1
  {
    hide DecodeLoop, EncodeRecords, NormalValue, DataAddress, Current, Received, EnterFixed, ElementFits;
    assert [] + vs == vs;
    EntersOnce(fields, i, vs, tail, st);
    RecordsRoundTrip(fields, i, f, [], vs, tail, EnterFixed(fields, i, st).value);
  }

  /** A repeated field with at least one entry. */
  lemma {:induction false} ArrayStep(fields: seq<Field>, m: Message, i: nat, f: Field, vs: seq<Value>, tail: seq<byte>, st: Progress)
      returns (st': Progress)
    requires WellFormed(fields) && i < |fields| && f == fields[i] && SlotAt(m, DataAddress(fields, i)) == Items(vs)
    requires At(fields, m, i, st) && f.htype.Repeated? && NormalSlot(f, Items(vs)) && vs != []
    requires EncodeArray(f, vs).Some? && |EncodeArray(f, vs).value| < TWO63
    ensures At(fields, m, i + 1, st')
    ensures var e := EncodeArray(f, vs).value;
            DecodeLoop(fields, e + tail, st)
              == if SlotFits(f, Items(vs)) then Shift(DecodeLoop(fields, tail, st'), |e|) else Fail
    decreases f, 2, 0
  {
    hide DecodeLoop, DecodeRecord, EncodeElement, EncodeScalars, NormalValue, DataAddress, At, Current, Received, EnterFixed, ElementFits, EncodeRecords;
    ArrayDone(fields, m, i, st, vs);
    var st1 := EnterFixed(fields, i, st).value;
    if Packable(f) {
      PackedStep(fields, i, f, vs, tail, st);
    } else {
      RecordsStep(fields, i, f, vs, tail, st);
    }
    st' := Received(fields, i, st1, Array(vs, |vs|));
  }

  lemma PackableTyped(f: Field, v: Value)
    requires NormalValue(f, v) && Packable(f)
    ensures TypedValue(f, v)
  {
  }

  /** The first record enters a fixed-count field. */
  lemma EntersOnce(fields: seq<Field>, i: nat, vs: seq<Value>, tail: seq<byte>, st: Progress)
    requires WellFormed(fields) && i < |fields| && EnterFixed(fields, i, st).Some? && vs != []
    requires EncodeRecords(fields[i], vs).Some?
    ensures var e := EncodeRecords(fields[i], vs).value;
            DecodeLoop(fields, e + tail, st) == DecodeLoop(fields, e + tail, EnterFixed(fields, i, st).value)
  {
    hide DecodeLoop, DecodeRecord, DecodeStatic, DataAddress, EncodeElement;
    var f := fields[i];
    var st1 := EnterFixed(fields, i, st).value;
    assert EnterFixed(fields, i, st1) == Some(st1);
    var payload := EncodeElement(f, vs[0]).value + (EncodeRecords(f, vs[1..]).value + tail);
    assert EncodeRecords(f, vs).value + tail == TagBytes(WireTypeOf(f), f.tag) + payload;
    RecordOfField(fields, i, WireTypeOf(f), payload, st);
    RecordOfField(fields, i, WireTypeOf(f), payload, st1);
    if FixedCount(f) { SameTurn(fields, TagBytes(WireTypeOf(f), f.tag) + payload, st, st1); }
  }

  /** Decoding what field `i` encodes moves the state past it, unless a length in it does not fit. */
  lemma {:induction false} FieldStep(fields: seq<Field>, m: Message, i: nat, f: Field, tail: seq<byte>, st: Progress)
      returns (st': Progress)
    requires WellFormed(fields) && Normal(fields, m) && i < |fields| && f == fields[i] && At(fields, m, i, st)
    requires var e := EncodeField(f, SlotAt(m, DataAddress(fields, i))); e.Some? && |e.value| < TWO63
    ensures SlotFits(f, SlotAt(m, DataAddress(fields, i))) ==> At(fields, m, i + 1, st')
    ensures var e := EncodeField(f, SlotAt(m, DataAddress(fields, i))).value;
            DecodeLoop(fields, e + tail, st)
              == if SlotFits(f, SlotAt(m, DataAddress(fields, i))) then Shift(DecodeLoop(fields, tail, st'), |e|) else Fail
    decreases f, 3, 0
  {
    hide DecodeLoop, ElementFits, DataAddress, At, EncodeField, EncodeRecord, EncodeArray, Stores, Skipped, NormalSlot;
    var slot := SlotAt(m, DataAddress(fields, i));
    assert NormalSlot(f, slot) && WellFormedField(f);
    if Skipped(f, slot) {
      SkippedField(f, slot);
      SkippedStep(fields, m, i, st);
      assert [] + tail == tail;
      st' := st;
    } else {
      KeptField(f, slot);
      if f.htype.Repeated? {
        st' := ArrayStep(fields, m, i, f, slot.items, tail, st);
      } else {
        st' := SingleStep(fields, m, i, f, slot, tail, st);
      }
    }
  }

  lemma SkippedStep(fields: seq<Field>, m: Message, i: nat, st: Progress)
    requires WellFormed(fields) && i < |fields| && At(fields, m, i, st)
    requires var slot := SlotAt(m, DataAddress(fields, i)); Skipped(fields[i], slot) && (!Stores(fields[i], slot) || slot == DefaultSlot(fields[i]))
    ensures At(fields, m, i + 1, st)
  {
    hide DataAddress, Mix, IsZero, DefaultSlot;
    MixSkipped(fields, m, i);
  }

  lemma KeptField(f: Field, slot: Slot)
    requires NormalSlot(f, slot) && !Skipped(f, slot)
    ensures if f.htype.Repeated? then slot.Items? && slot.items != [] && EncodeField(f, slot) == EncodeArray(f, slot.items)
            else !slot.Items? && Stores(f, slot) && EncodeField(f, slot) == EncodeRecord(f, slot.value)
                 && (f.htype.Optional? && f.sizeOffset != 0 ==> slot.Opt? && slot.has)
  {
    hide IsZero, DefaultValue, EncodeRecord, EncodeArray, NormalValue;
    if f.htype.Repeated? { assert slot.items[..|slot.items|] == slot.items; }
  }

  lemma SkippedField(f: Field, slot: Slot)
    requires WellFormedField(f) && NormalSlot(f, slot) && Skipped(f, slot)
    ensures EncodeField(f, slot) == Some([])
    ensures !Stores(f, slot) || slot == DefaultSlot(f)
  {
    hide IsZero, DefaultValue;
    if f.htype.Optional? && f.sizeOffset == 0 { ZeroIsDefault(f, slot); }
  }

  lemma {:induction false} FromRoundTrip(fields: seq<Field>, m: Message, i: nat, st: Progress) returns (st': Progress)
    requires WellFormed(fields) && Normal(fields, m) && i <= |fields| && At(fields, m, i, st)
    requires EncodeFrom(fields, m, i).Some? && |EncodeFrom(fields, m, i).value| < TWO63
    ensures FitsFrom(fields, m, i) ==> At(fields, m, |fields|, st')
    ensures DecodeLoop(fields, EncodeFrom(fields, m, i).value, st)
         == if FitsFrom(fields, m, i) then Ok(st', |EncodeFrom(fields, m, i).value|) else Fail
    decreases fields, |fields| - i
  {
    hide At, EncodeField, Normal, WellFormed, DataAddress, SlotFits;
    if i == |fields| {
      st' := st;
    } else {
      var rest := EncodeFrom(fields, m, i + 1).value;
      st' := FieldStep(fields, m, i, fields[i], rest, st);
      if SlotFits(fields[i], SlotAt(m, DataAddress(fields, i))) { st' := FromRoundTrip(fields, m, i + 1, st'); }
    }
  }

  /** Merging the encoding of a message into a struct at its defaults gives the message, if every length fits. */
  lemma {:induction false} MessageRoundTrip(fields: seq<Field>, m: Message)
    requires WellFormed(fields) && Normal(fields, m)
    requires EncodeMessage(fields, m).Some? && |EncodeMessage(fields, m).value| < TWO63
    ensures DecodeNoInit(fields, EncodeMessage(fields, m).value, Defaults(fields))
         == if LengthsFit(fields, m) then Ok(m, |EncodeMessage(fields, m).value|) else Fail
    decreases fields, |fields| + 1
  {
    hide DecodeLoop, EncodeFrom, Defaults, Mix, DataAddress, FitsFrom;
    MixStart(fields, m);
    var st := Start(Defaults(fields));
    assert At(fields, m, 0, st);
    var st' := FromRoundTrip(fields, m, 0, st);
    MixComplete(fields, m);
  }

  /**
   The round trip: for every well-formed descriptor tree and every normal message, encoding succeeds.
   Decoding the bytes into any struct of that type uses them all and gives back the message, if and
   only if every submessage and every packed array takes less than 4 GiB; otherwise it fails.
   */
  lemma RoundTrip(fields: seq<Field>, m: Message, struct: Message)
    requires WellFormed(fields) && Normal(fields, m) && struct.Keys <= Addresses(fields)
    ensures EncodeMessage(fields, m).Some?
    ensures |EncodeMessage(fields, m).value| < TWO63 ==>
              Decode(fields, EncodeMessage(fields, m).value, struct)
                == if LengthsFit(fields, m) then Ok(m, |EncodeMessage(fields, m).value|) else Fail
  {
    hide DecodeNoInit, EncodeFrom, Defaults, Normal, LengthsFit;
    FromEncodable(fields, m, 0);
    DefaultsKeys(fields);
    assert struct + Defaults(fields) == Defaults(fields);
    if |EncodeMessage(fields, m).value| < TWO63 { MessageRoundTrip(fields, m); }
  }


  lemma {:induction false} SmallElementFits(f: Field, v: Value)
    requires WellFormedField(f) && NormalValue(f, v)
    requires EncodeElement(f, v).Some? && |EncodeElement(f, v).value| < TWO32
    ensures ElementFits(f, v)
    decreases f, 0, 0
  {
    hide TypedValue, LengthsFit;
    if f.ltype.TSubmessage? { SmallFits(f.ltype.fields, v.message, 0); }
  }

  lemma {:induction false} SmallRecordsFit(f: Field, vs: seq<Value>)
    requires WellFormedField(f) && forall k :: 0 <= k < |vs| ==> NormalValue(f, vs[k])
    requires EncodeRecords(f, vs).Some? && |EncodeRecords(f, vs).value| < TWO32
    ensures forall k :: 0 <= k < |vs| ==> ElementFits(f, vs[k])
    decreases f, 1, |vs|
  {
    hide EncodeElement, NormalValue, ElementFits;
    if vs != [] {
      SmallElementFits(f, vs[0]);
      SmallRecordsFit(f, vs[1..]);
    }
  }

  lemma {:induction false} SmallSlotFits(f: Field, slot: Slot)
    requires WellFormedField(f) && NormalSlot(f, slot)
    requires EncodeField(f, slot).Some? && |EncodeField(f, slot).value| < TWO32
    ensures SlotFits(f, slot)
    decreases f, 2, 0
  {
    hide EncodeElement, NormalValue, ElementFits, Skipped, EncodeField, EncodeScalars;
    if !Skipped(f, slot) {
      KeptField(f, slot);
      if !f.htype.Repeated? {
        KeptNormal(f, slot);
        SmallElementFits(f, slot.value);
      } else if !Packable(f) {
        SmallRecordsFit(f, slot.items);
      }
    }
  }

  lemma KeptNormal(f: Field, slot: Slot)
    requires NormalSlot(f, slot) && !Skipped(f, slot) && !f.htype.Repeated?
    ensures !slot.Items? && NormalValue(f, slot.value)
  {
    hide NormalValue, IsZero;
  }

  /** In particular a message that takes less than 4 GiB as a whole comes back. */
  lemma {:induction false} SmallFits(fields: seq<Field>, m: Message, i: nat)
    requires WellFormed(fields) && Normal(fields, m) && i <= |fields|
    requires EncodeFrom(fields, m, i).Some? && |EncodeFrom(fields, m, i).value| < TWO32
    ensures FitsFrom(fields, m, i)
    ensures i == 0 ==> LengthsFit(fields, m)
    decreases fields, 3, |fields| - i
  {
    hide EncodeField, SlotFits, DataAddress, NormalSlot;
    if i < |fields| {
      SmallSlotFits(fields[i], SlotAt(m, DataAddress(fields, i)));
      SmallFits(fields, m, i + 1);
    }
  }
}

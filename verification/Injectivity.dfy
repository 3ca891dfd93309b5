/**
 The encoding is injective on normal messages, of any size: records announce their field, values end where
 they say they do, and what is not encoded is known.
 */
module Injectivity {
  import opened Wire
  import opened Descriptor
  import opened Decoding
  import opened Encoding
  import opened RoundTrip
  import opened Options

  // ---------------------------------------------------------------------------------------
  // Prefixes
  // ---------------------------------------------------------------------------------------

  /** No varint is the beginning of another. */
  lemma {:induction false} VarintPrefixFree(u: nat, v: nat, s: seq<byte>, t: seq<byte>)
    requires Varint(u) + s == Varint(v) + t
    ensures u == v && s == t
    decreases u
  {
    assert (Varint(u) + s)[0] == (Varint(v) + t)[0];
    if u < 128 {
      assert v < 128;
      assert s == (Varint(u) + s)[1..] && t == (Varint(v) + t)[1..];
    } else {
      assert v >= 128;
      assert (Varint(u) + s)[1..] == Varint(u / 128) + s && (Varint(v) + t)[1..] == Varint(v / 128) + t;
      VarintPrefixFree(u / 128, v / 128, s, t);
    }
  }

  lemma DelimitedPrefixFree(c: seq<byte>, d: seq<byte>, s: seq<byte>, t: seq<byte>)
    requires Delimited(c) + s == Delimited(d) + t
    ensures c == d && s == t
  {
    hide Varint;
    assert Delimited(c) + s == Varint(|c|) + (c + s) && Delimited(d) + t == Varint(|d|) + (d + t);
    VarintPrefixFree(|c|, |d|, c + s, d + t);
    assert c == (c + s)[..|c|] && s == (c + s)[|c|..];
  }

  lemma HeaderPrefixFree(w: nat, tag: nat, w2: nat, tag2: nat, s: seq<byte>, t: seq<byte>)
    requires w < 8 && w2 < 8 && TagBytes(w, tag) + s == TagBytes(w2, tag2) + t
    ensures w == w2 && tag == tag2 && s == t
  {
    hide Varint;
    VarintPrefixFree(8 * tag + w, 8 * tag2 + w2, s, t);
  }

  // ---------------------------------------------------------------------------------------
  // Values
  // ---------------------------------------------------------------------------------------

  lemma ScalarPrefixFree(f: Field, v: Value, w: Value, s: seq<byte>, t: seq<byte>)
    requires WellFormedField(f) && TypedValue(f, v) && TypedValue(f, w) && !f.ltype.TSubmessage?
    requires EncodeScalar(f, v).Some? && EncodeScalar(f, w).Some? && EncodeScalar(f, v).value + s == EncodeScalar(f, w).value + t
    ensures v == w && s == t
  {
    hide EncodeScalar, DecodeScalar, TypedValue;
    ScalarRoundTrip(f, v, s);
    ScalarRoundTrip(f, w, t);
    var e := EncodeScalar(f, v).value;
    assert s == (e + s)[|e|..] && t == (e + t)[|e|..];
  }

  lemma ScalarNotEmpty(f: Field, v: Value)
    requires WellFormedField(f) && TypedValue(f, v) && Packable(f)
    ensures EncodeScalar(f, v).Some? && EncodeScalar(f, v).value != []
  {
    hide EncodeScalar, TypedValue;
    ScalarRoundTrip(f, v, []);
  }

  lemma {:induction false} ScalarsInjective(f: Field, vs: seq<Value>, ws: seq<Value>)
    requires WellFormedField(f) && Packable(f)
    requires (forall k :: 0 <= k < |vs| ==> TypedValue(f, vs[k])) && forall k :: 0 <= k < |ws| ==> TypedValue(f, ws[k])
    requires EncodeScalars(f, vs).Some? && EncodeScalars(f, vs) == EncodeScalars(f, ws)
    ensures vs == ws
    decreases |vs|
  {
    hide EncodeScalar, TypedValue, WellFormedField, Packable;
    if vs != [] { ScalarNotEmpty(f, vs[0]); }
    if ws != [] { ScalarNotEmpty(f, ws[0]); }
    if vs != [] && ws != [] {
      var e, d := EncodeScalar(f, vs[0]).value, EncodeScalar(f, ws[0]).value;
      var s, t := EncodeScalars(f, vs[1..]).value, EncodeScalars(f, ws[1..]).value;
      assert e + s == d + t;
      assert !f.ltype.TSubmessage? by { NotSubmessage(f); }
      ScalarPrefixFree(f, vs[0], ws[0], s, t);
      ScalarsInjective(f, vs[1..], ws[1..]);
      assert vs == [vs[0]] + vs[1..] && ws == [ws[0]] + ws[1..];
    }
  }

  lemma NotSubmessage(f: Field)
    requires Packable(f)
    ensures !f.ltype.TSubmessage?
  {
  }

  lemma {:induction false} ElementPrefixFree(f: Field, v: Value, w: Value, s: seq<byte>, t: seq<byte>)
    requires WellFormedField(f) && NormalValue(f, v) && NormalValue(f, w)
    requires EncodeElement(f, v).Some? && EncodeElement(f, w).Some? && EncodeElement(f, v).value + s == EncodeElement(f, w).value + t
    ensures v == w && s == t
    decreases f, 0, 0
  {
    hide EncodeScalar, TypedValue, EncodeMessage, Normal, Delimited;
    match f.ltype
    case TSubmessage(sub) =>
      var c, d := EncodeMessage(sub, v.message).value, EncodeMessage(sub, w.message).value;
      DelimitedPrefixFree(c, d, s, t);
      EncodingIsInjective(sub, v.message, w.message);
    case _ => ScalarPrefixFree(f, v, w, s, t);
  }

  // ---------------------------------------------------------------------------------------
  // Fields
  // ---------------------------------------------------------------------------------------

  /** The bytes begin with a record of a field from `i` on, or are none. */
  ghost predicate BeginsFrom(fields: seq<Field>, i: nat, s: seq<byte>) {
    s != [] ==> exists k, w, rest :: RecordAt(fields, i, s, k, w, rest)
  }

  predicate RecordAt(fields: seq<Field>, i: nat, s: seq<byte>, k: nat, w: nat, rest: seq<byte>) {
    i <= k < |fields| && w < 8 && s == TagBytes(w, fields[k].tag) + rest
  }

  /** What begins behind a field cannot begin with that field. */
  lemma OtherTag(fields: seq<Field>, i: nat, s: seq<byte>, w: nat, rest: seq<byte>)
    requires WellFormed(fields) && i < |fields| && w < 8 && BeginsFrom(fields, i + 1, s)
    ensures s != TagBytes(w, fields[i].tag) + rest
  {
    hide TagBytes, WellFormedField;
    if s == TagBytes(w, fields[i].tag) + rest {
      var k: nat, w2: nat, rest2 :| RecordAt(fields, i + 1, s, k, w2, rest2);
      HeaderPrefixFree(w, fields[i].tag, w2, fields[k].tag, rest, rest2);
    }
  }

  lemma RecordBegins(f: Field, v: Value)
    requires EncodeRecord(f, v).Some?
    ensures EncodeElement(f, v).Some? && EncodeRecord(f, v).value == TagBytes(WireTypeOf(f), f.tag) + EncodeElement(f, v).value
  {
    hide EncodeElement, TagBytes;
  }

  /** The wire type of the first record of an array. */
  function ArrayWireType(f: Field): (w: nat)
    ensures w < 8
  {
    if Packable(f) then WT_STRING else WireTypeOf(f)
  }

  lemma ArrayBegins(f: Field, vs: seq<Value>) returns (rest: seq<byte>)
    requires EncodeArray(f, vs).Some? && vs != []
    ensures EncodeArray(f, vs).value == TagBytes(ArrayWireType(f), f.tag) + rest
    ensures Packable(f) ==> EncodeScalars(f, vs).Some? && rest == Delimited(EncodeScalars(f, vs).value)
  {
    hide TagBytes, EncodeRecord, EncodeScalars, Delimited;
    if Packable(f) {
      rest := Delimited(EncodeScalars(f, vs).value);
    } else {
      RecordBegins(f, vs[0]);
      rest := EncodeElement(f, vs[0]).value + EncodeRecords(f, vs[1..]).value;
      assert EncodeRecord(f, vs[0]).value + EncodeRecords(f, vs[1..]).value == TagBytes(WireTypeOf(f), f.tag) + rest;
    }
  }

  /** A field that is encoded begins with its own tag. */
  lemma KeptBegins(f: Field, slot: Slot) returns (w: nat, rest: seq<byte>)
    requires WellFormedField(f) && NormalSlot(f, slot) && !Skipped(f, slot) && EncodeField(f, slot).Some?
    ensures w < 8 && EncodeField(f, slot).value == TagBytes(w, f.tag) + rest
  {
    hide TagBytes, EncodeRecord, EncodeArray, EncodeElement, Skipped, NormalSlot, EncodeField;
    KeptField(f, slot);
    if f.htype.Repeated? {
      rest := ArrayBegins(f, slot.items);
      w := ArrayWireType(f);
    } else {
      RecordBegins(f, slot.value);
      w, rest := WireTypeOf(f), EncodeElement(f, slot.value).value;
    }
  }

  lemma {:induction false} EncodingBegins(fields: seq<Field>, m: Message, i: nat)
    requires WellFormed(fields) && Normal(fields, m) && i <= |fields| && EncodeFrom(fields, m, i).Some?
    ensures BeginsFrom(fields, i, EncodeFrom(fields, m, i).value)
    decreases |fields| - i
  {
    hide TagBytes, EncodeField, Skipped, NormalSlot, DataAddress, WellFormedField;
    if i < |fields| {
      var f, slot := fields[i], SlotAt(m, DataAddress(fields, i));
      var more := EncodeFrom(fields, m, i + 1).value;
      EncodingBegins(fields, m, i + 1);
      if Skipped(f, slot) {
        SkippedField(f, slot);
        assert [] + more == more;
        if more != [] {
          var k: nat, w: nat, rest :| RecordAt(fields, i + 1, more, k, w, rest);
          assert RecordAt(fields, i, more, k, w, rest);
        }
      } else {
        var w, rest := KeptBegins(f, slot);
        assert TagBytes(w, f.tag) + rest + more == TagBytes(w, f.tag) + (rest + more);
        assert RecordAt(fields, i, EncodeFrom(fields, m, i).value, i, w, rest + more);
      }
    }
  }

  /** Neither is encoded, or both are and store the same. */
  predicate SameStored(f: Field, slot: Slot, slot2: Slot) {
    if Skipped(f, slot) then Skipped(f, slot2)
    else
      && !Skipped(f, slot2)
      && (if f.htype.Repeated? then slot == slot2 else !slot.Items? && !slot2.Items? && slot.value == slot2.value)
  }

  lemma {:induction false} RecordsPrefixFree(
      fields: seq<Field>, i: nat, f: Field, vs: seq<Value>, ws: seq<Value>, s: seq<byte>, t: seq<byte>)
    requires WellFormed(fields) && i < |fields| && f == fields[i] && BeginsFrom(fields, i + 1, s) && BeginsFrom(fields, i + 1, t)
    requires (forall k :: 0 <= k < |vs| ==> NormalValue(f, vs[k])) && forall k :: 0 <= k < |ws| ==> NormalValue(f, ws[k])
    requires EncodeRecords(f, vs).Some? && EncodeRecords(f, ws).Some? && EncodeRecords(f, vs).value + s == EncodeRecords(f, ws).value + t
    ensures vs == ws && s == t
    decreases f, 1, |vs|
  {
    hide TagBytes, EncodeRecord, EncodeElement, NormalValue, BeginsFrom, WellFormed;
    assert WellFormedField(f) by { FieldUsable(fields, i); }
    assert [] + s == s && [] + t == t;
    if vs != [] {
      RecordFirst(f, vs, s);
      if ws == [] { OtherTag(fields, i, t, WireTypeOf(f), EncodeElement(f, vs[0]).value + (EncodeRecords(f, vs[1..]).value + s)); }
    }
    if ws != [] {
      RecordFirst(f, ws, t);
      if vs == [] { OtherTag(fields, i, s, WireTypeOf(f), EncodeElement(f, ws[0]).value + (EncodeRecords(f, ws[1..]).value + t)); }
    }
    if vs != [] && ws != [] {
      var s1, t1 := EncodeRecords(f, vs[1..]).value + s, EncodeRecords(f, ws[1..]).value + t;
      var e, d := EncodeElement(f, vs[0]).value, EncodeElement(f, ws[0]).value;
      HeaderPrefixFree(WireTypeOf(f), f.tag, WireTypeOf(f), f.tag, e + s1, d + t1);
      ElementPrefixFree(f, vs[0], ws[0], s1, t1);
      RecordsPrefixFree(fields, i, f, vs[1..], ws[1..], s, t);
      assert vs == [vs[0]] + vs[1..] && ws == [ws[0]] + ws[1..];
    }
  }

  lemma FieldUsable(fields: seq<Field>, i: nat)
    requires WellFormed(fields) && i < |fields|
    ensures WellFormedField(fields[i])
  {
  }

  lemma RecordFirst(f: Field, vs: seq<Value>, s: seq<byte>)
    requires EncodeRecords(f, vs).Some? && vs != []
    ensures EncodeElement(f, vs[0]).Some? && EncodeRecords(f, vs[1..]).Some?
    ensures EncodeRecords(f, vs).value + s
         == TagBytes(WireTypeOf(f), f.tag) + (EncodeElement(f, vs[0]).value + (EncodeRecords(f, vs[1..]).value + s))
  {
    hide TagBytes, EncodeRecord, EncodeElement;
    RecordBegins(f, vs[0]);
    Regroup(TagBytes(WireTypeOf(f), f.tag), EncodeElement(f, vs[0]).value, EncodeRecords(f, vs[1..]).value, s);
  }

  lemma Regroup(h: seq<byte>, e: seq<byte>, r: seq<byte>, s: seq<byte>)
    ensures (h + e) + r + s == h + (e + (r + s))
  {
  }

  lemma {:induction false} ArrayPrefixFree(
      fields: seq<Field>, i: nat, f: Field, vs: seq<Value>, ws: seq<Value>, s: seq<byte>, t: seq<byte>)
    requires WellFormed(fields) && i < |fields| && f == fields[i] && BeginsFrom(fields, i + 1, s) && BeginsFrom(fields, i + 1, t)
    requires f.htype.Repeated? && NormalSlot(f, Items(vs)) && NormalSlot(f, Items(ws)) && vs != [] && ws != []
    requires EncodeArray(f, vs).Some? && EncodeArray(f, ws).Some? && EncodeArray(f, vs).value + s == EncodeArray(f, ws).value + t
    ensures vs == ws && s == t
    decreases f, 2, 0
  {
    hide TagBytes, EncodeScalars, EncodeRecords, NormalValue, BeginsFrom, WellFormed, Delimited;
    if Packable(f) {
      assert WellFormedField(f) by { FieldUsable(fields, i); }
      var c, d := EncodeScalars(f, vs).value, EncodeScalars(f, ws).value;
      var h := TagBytes(WT_STRING, f.tag);
      assert h + Delimited(c) + s == h + (Delimited(c) + s) && h + Delimited(d) + t == h + (Delimited(d) + t);
      HeaderPrefixFree(WT_STRING, f.tag, WT_STRING, f.tag, Delimited(c) + s, Delimited(d) + t);
      DelimitedPrefixFree(c, d, s, t);
      forall k | 0 <= k < |vs| ensures TypedValue(f, vs[k]) { PackableTyped(f, vs[k]); }
      forall k | 0 <= k < |ws| ensures TypedValue(f, ws[k]) { PackableTyped(f, ws[k]); }
      ScalarsInjective(f, vs, ws);
    } else {
      RecordsPrefixFree(fields, i, f, vs, ws, s, t);
    }
  }

  lemma {:induction false} SinglePrefixFree(f: Field, v: Value, w: Value, s: seq<byte>, t: seq<byte>)
    requires WellFormedField(f) && NormalValue(f, v) && NormalValue(f, w)
    requires EncodeRecord(f, v).Some? && EncodeRecord(f, w).Some? && EncodeRecord(f, v).value + s == EncodeRecord(f, w).value + t
    ensures v == w && s == t
    decreases f, 1, 0
  {
    hide TagBytes, EncodeElement, EncodeRecord, NormalValue;
    RecordBegins(f, v);
    RecordBegins(f, w);
    var h, e, d := TagBytes(WireTypeOf(f), f.tag), EncodeElement(f, v).value, EncodeElement(f, w).value;
    assert h + e + s == h + (e + s) && h + d + t == h + (d + t);
    HeaderPrefixFree(WireTypeOf(f), f.tag, WireTypeOf(f), f.tag, e + s, d + t);
    ElementPrefixFree(f, v, w, s, t);
  }

  lemma {:induction false} FieldPrefixFree(
      fields: seq<Field>, i: nat, f: Field, slot: Slot, slot2: Slot, s: seq<byte>, t: seq<byte>)
    requires WellFormed(fields) && i < |fields| && f == fields[i] && BeginsFrom(fields, i + 1, s) && BeginsFrom(fields, i + 1, t)
    requires NormalSlot(f, slot) && NormalSlot(f, slot2) && EncodeField(f, slot).Some? && EncodeField(f, slot2).Some?
    requires EncodeField(f, slot).value + s == EncodeField(f, slot2).value + t
    ensures SameStored(f, slot, slot2) && s == t
    decreases f, 3, 0
  {
    hide TagBytes, EncodeField, EncodeRecord, EncodeArray, Skipped, NormalSlot, BeginsFrom, WellFormed;
    FieldUsable(fields, i);
    assert [] + s == s && [] + t == t;
    if Skipped(f, slot) {
      SkippedField(f, slot);
      if Skipped(f, slot2) {
        SkippedField(f, slot2);
      } else {
        NotBoth(fields, i, slot2, s, t);
      }
    } else if Skipped(f, slot2) {
      SkippedField(f, slot2);
      NotBoth(fields, i, slot, t, s);
    } else {
      KeptField(f, slot);
      KeptField(f, slot2);
      if f.htype.Repeated? {
        assert slot == Items(slot.items) && slot2 == Items(slot2.items);
        ArrayPrefixFree(fields, i, f, slot.items, slot2.items, s, t);
      } else {
        KeptNormal(f, slot);
        KeptNormal(f, slot2);
        SinglePrefixFree(f, slot.value, slot2.value, s, t);
      }
    }
  }

  /** What follows a field cannot be what an encoding of that field begins. */
  lemma NotBoth(fields: seq<Field>, i: nat, slot: Slot, s: seq<byte>, t: seq<byte>)
    requires WellFormed(fields) && i < |fields| && BeginsFrom(fields, i + 1, s)
    requires NormalSlot(fields[i], slot) && !Skipped(fields[i], slot) && EncodeField(fields[i], slot).Some?
    ensures s != EncodeField(fields[i], slot).value + t
  {
    hide TagBytes, EncodeField, Skipped, NormalSlot, BeginsFrom, WellFormed;
    FieldUsable(fields, i);
    var w, rest := KeptBegins(fields[i], slot);
    OtherTag(fields, i, s, w, rest + t);
    assert TagBytes(w, fields[i].tag) + rest + t == TagBytes(w, fields[i].tag) + (rest + t);
  }

  // ---------------------------------------------------------------------------------------
  // Messages
  // ---------------------------------------------------------------------------------------

  lemma {:induction false} FromInjective(fields: seq<Field>, m: Message, m2: Message, i: nat)
    requires WellFormed(fields) && Normal(fields, m) && Normal(fields, m2) && i <= |fields|
    requires EncodeFrom(fields, m, i).Some? && EncodeFrom(fields, m, i) == EncodeFrom(fields, m2, i)
    ensures forall j :: i <= j < |fields| ==> SameStored(fields[j], SlotAt(m, DataAddress(fields, j)), SlotAt(m2, DataAddress(fields, j)))
    decreases fields, |fields| - i
  {
    hide EncodeField, SameStored, NormalSlot, DataAddress, WellFormedField, BeginsFrom;
    if i < |fields| {
      var s, t := EncodeFrom(fields, m, i + 1).value, EncodeFrom(fields, m2, i + 1).value;
      EncodingBegins(fields, m, i + 1);
      EncodingBegins(fields, m2, i + 1);
      FieldPrefixFree(fields, i, fields[i], SlotAt(m, DataAddress(fields, i)), SlotAt(m2, DataAddress(fields, i)), s, t);
      FromInjective(fields, m, m2, i + 1);
    }
  }

  /** Outside unions a slot is known from what is stored. */
  lemma StoredIsSlot(f: Field, slot: Slot, slot2: Slot)
    requires WellFormedField(f) && NormalSlot(f, slot) && NormalSlot(f, slot2) && SameStored(f, slot, slot2) && !f.htype.OneOf?
    ensures slot == slot2
  {
    hide NormalValue, IsZero, DefaultValue;
    if Skipped(f, slot) {
      SkippedField(f, slot);
      SkippedField(f, slot2);
    }
  }

  /** In a union the stored member is known, or that there is none. */
  lemma StoredIsUnion(fields: seq<Field>, m: Message, m2: Message, i: nat)
    requires WellFormed(fields) && Normal(fields, m) && Normal(fields, m2) && i < |fields| && fields[i].htype.OneOf?
    requires forall j :: 0 <= j < |fields| ==> SameStored(fields[j], SlotAt(m, DataAddress(fields, j)), SlotAt(m2, DataAddress(fields, j)))
    ensures SlotAt(m, DataAddress(fields, i)) == SlotAt(m2, DataAddress(fields, i))
  {
    hide DataAddress, WellFormed, NormalValue, SameStored, KnownMember;
    var a := DataAddress(fields, i);
    var slot, slot2 := SlotAt(m, a), SlotAt(m2, a);
    assert NormalSlot(fields[i], slot) && NormalSlot(fields[i], slot2);
    forall j | 0 <= j < |fields| ensures SameStored(fields[j], SlotAt(m2, DataAddress(fields, j)), SlotAt(m, DataAddress(fields, j))) {
      SameStoredSymmetric(fields[j], SlotAt(m, DataAddress(fields, j)), SlotAt(m2, DataAddress(fields, j)));
    }
    if slot2.which != 0 { StoredMember(fields, m2, m, i); }
    if slot.which != 0 { StoredMember(fields, m, m2, i); }
  }

  lemma SameStoredSymmetric(f: Field, slot: Slot, slot2: Slot)
    requires SameStored(f, slot, slot2)
    ensures SameStored(f, slot2, slot)
  {
    hide Skipped;
  }

  lemma StoredMember(fields: seq<Field>, m: Message, m2: Message, i: nat)
    requires WellFormed(fields) && Normal(fields, m) && i < |fields| && fields[i].htype.OneOf?
    requires forall j :: 0 <= j < |fields| ==> SameStored(fields[j], SlotAt(m, DataAddress(fields, j)), SlotAt(m2, DataAddress(fields, j)))
    requires SlotAt(m, DataAddress(fields, i)).Union? && SlotAt(m, DataAddress(fields, i)).which != 0
    ensures SlotAt(m, DataAddress(fields, i)) == SlotAt(m2, DataAddress(fields, i))
  {
    hide DataAddress, NormalSlot, WellFormedField;
    var a := DataAddress(fields, i);
    var slot := SlotAt(m, a);
    assert KnownMember(fields, a, slot.which);
    var j :| 0 <= j < |fields| && DataAddress(fields, j) == a && fields[j].tag == slot.which;
    if j != i { SharedAddress(fields, i, j); }
    assert SameStored(fields[j], SlotAt(m, DataAddress(fields, j)), SlotAt(m2, DataAddress(fields, j)));
  }

  /** Two normal messages with the same bytes are the same. */
  lemma {:induction false} EncodingIsInjective(fields: seq<Field>, m: Message, m2: Message)
    requires WellFormed(fields) && Normal(fields, m) && Normal(fields, m2)
    requires EncodeMessage(fields, m) == EncodeMessage(fields, m2)
    ensures m == m2
    decreases fields, |fields| + 1
  {
    hide EncodeFrom, DataAddress, SameStored, NormalSlot, WellFormedField, KnownMember;
    FromEncodable(fields, m, 0);
    FromInjective(fields, m, m2, 0);
    forall a | a in m ensures m[a] == m2[a] {
      var i :| 0 <= i < |fields| && DataAddress(fields, i) == a;
      if fields[i].htype.OneOf? {
        StoredIsUnion(fields, m, m2, i);
      } else {
        StoredIsSlot(fields[i], SlotAt(m, DataAddress(fields, i)), SlotAt(m2, DataAddress(fields, i)));
      }
    }
  }
}

/**
 When the arrays of a message are filled, told from the input alone: from the records in it, the records in
 their submessages, and so on.
 */
module Filling {
  import opened Wire
  import opened Descriptor
  import opened Decoding
  import opened Options
  import opened Records
  import RoundTrip
  import TypeSafety

  // ---------------------------------------------------------------------------------------
  // The records of an input
  // ---------------------------------------------------------------------------------------

  /** A record of a field of the descriptor. */
  datatype Rec = Rec(field: nat, wireType: nat, payload: seq<byte>)

  predicate IsDelimited(f: Field, wireType: nat) {
    f.ltype.TSubmessage? || (f.htype.Repeated? && wireType == WT_STRING && Packable(f))
  }

  /** The bytes that the payload of a record takes. It does not depend on what was decoded before. */
  function PayloadSize(f: Field, wireType: nat, s: seq<byte>): (r: Parsed<()>)
    ensures r.Ok? ==> r.used <= |s|
  {
    if IsDelimited(f, wireType) then
      (match Substream(s) case Fail => Fail case Ok(_, n) => Ok((), n))
    else
      (match DecodeScalar(f, s) case Fail => Fail case Ok(_, n) => Ok((), n))
  }

  /** The records of known fields, up to the end of the message. */
  function RecordsOf(fields: seq<Field>, s: seq<byte>): seq<Rec>
    decreases |s|
  {
    if |s| == 0 then []
    else match ReadHeader(s)
      case BadHeader => []
      case EndOfMessage(_) => []
      case Header(tag, wireType, n) =>
        match FindField(fields, tag)
        case None =>
          (match SkipField(s[n..], wireType) case Fail => [] case Ok(_, k) => RecordsOf(fields, s[n + k..]))
        case Some(i) =>
          (match PayloadSize(FieldAt(fields, i), wireType, s[n..])
           case Fail => []
           case Ok(_, k) => [Rec(i, wireType, s[n..n + k])] + RecordsOf(fields, s[n + k..]))
  }

  lemma StaticSize(f: Field, wireType: nat, s: seq<byte>, slot: Slot, count: nat)
    requires DecodeStatic(f, wireType, s, slot, count).Ok?
    ensures PayloadSize(f, wireType, s) == Ok((), DecodeStatic(f, wireType, s, slot, count).used)
  {
    hide DecodeScalar, DecodeNoInit, DecodePacked, Defaults, Varint32;
  }

  lemma UnknownFirst(fields: seq<Field>, s: seq<byte>, n: nat, k: nat)
    requires |s| > 0 && ReadHeader(s).Header? && HitField(fields, s).None? && n == ReadHeader(s).used
    requires SkipField(s[n..], ReadHeader(s).wireType).Ok? && SkipField(s[n..], ReadHeader(s).wireType).used == k
    ensures RecordsOf(fields, s) == RecordsOf(fields, s[n + k..])
  {
    hide ReadHeader, FindField, SkipField, PayloadSize;
  }

  lemma KnownFirst(fields: seq<Field>, s: seq<byte>, i: nat, n: nat, k: nat)
    requires |s| > 0 && ReadHeader(s).Header? && HitField(fields, s) == Some(i) && n == ReadHeader(s).used
    requires PayloadSize(FieldAt(fields, i), ReadHeader(s).wireType, s[n..]) == Ok((), k)
    ensures RecordsOf(fields, s) == [Rec(i, ReadHeader(s).wireType, s[n..n + k])] + RecordsOf(fields, s[n + k..])
  {
    hide ReadHeader, FindField, SkipField, PayloadSize;
  }

  /** The field loop takes the records one by one. */
  lemma RecordSplits(fields: seq<Field>, s: seq<byte>, st: Progress)
    requires DecodeRecord(fields, s, st).Next?
    ensures var t, i := DecodeRecord(fields, s, st), HitField(fields, s);
            && ReadHeader(s).Header? && ReadHeader(s).used <= t.used
            && RecordsOf(fields, s)
               == (if i.Some? then [Rec(i.value, ReadHeader(s).wireType, s[ReadHeader(s).used..t.used])] else [])
                  + RecordsOf(fields, s[t.used..])
  {
    hide DecodeStatic, PayloadSize, DataAddress, Wire.SkipField, RecordsOf, ReadHeader, FindField, RequiredIndex;
    var h, t := ReadHeader(s), DecodeRecord(fields, s, st);
    match FindField(fields, h.tag)
    case None =>
      UnknownFirst(fields, s, h.used, t.used - h.used);
      assert [] + RecordsOf(fields, s[t.used..]) == RecordsOf(fields, s[t.used..]);
    case Some(i) =>
      var st1 := EnterFixed(fields, i, st).value;
      StaticSize(FieldAt(fields, i), h.wireType, s[h.used..], SlotAt(st1.msg, DataAddress(fields, i)), st1.fixedCount);
      KnownFirst(fields, s, i, h.used, t.used - h.used);
  }

  // ---------------------------------------------------------------------------------------
  // What the records deliver
  // ---------------------------------------------------------------------------------------

  /** The records inside a record of a submessage. */
  function Content(f: Field, payload: seq<byte>): seq<Rec> {
    if f.ltype.TSubmessage? && Substream(payload).Ok? then RecordsOf(f.ltype.fields, Substream(payload).value) else []
  }

  predicate OtherMember(fields: seq<Field>, i: nat, j: nat) {
    i != j && j < |fields| && OneUnion(fields, i, j)
  }

  /** The contents of the records of field `i`, since another member of its union was last received. */
  function Deliveries(fields: seq<Field>, i: nat, rs: seq<Rec>): seq<seq<Rec>>
    requires i < |fields|
    decreases |rs|
  {
    if rs == [] then []
    else
      var before, r := Deliveries(fields, i, rs[..|rs| - 1]), rs[|rs| - 1];
      if r.field == i then before + [Content(fields[i], r.payload)]
      else if OtherMember(fields, i, r.field) then []
      else before
  }

  function Flat(ds: seq<seq<Rec>>): seq<Rec> {
    if ds == [] then [] else Flat(ds[..|ds| - 1]) + ds[|ds| - 1]
  }

  lemma FlatMore(ds: seq<seq<Rec>>, d: seq<Rec>)
    ensures Flat(ds + [d]) == Flat(ds) + d
  {
    assert (ds + [d])[..|ds|] == ds;
  }

  /**
   A fixed-count array was received, and its last entries are filled themselves; so is a submessage that is
   always present or was received, by all that it received.
   */
  predicate FieldFilled(f: Field, ds: seq<seq<Rec>>)
    decreases f, 0
  {
    if FixedCount(f) then
      ds != [] && (f.ltype.TSubmessage? ==> forall k :: 0 <= k < |ds| && |ds| - f.arraySize <= k ==> FilledBy(f.ltype.fields, ds[k]))
    else if !f.ltype.TSubmessage? then true
    else match f.htype
      case Repeated => forall k :: 0 <= k < |ds| ==> FilledBy(f.ltype.fields, ds[k])
      case Required => FilledBy(f.ltype.fields, Flat(ds))
      case Optional => (f.sizeOffset != 0 && ds == []) || FilledBy(f.ltype.fields, Flat(ds))
      case OneOf => ds == [] || FilledBy(f.ltype.fields, Flat(ds))
  }

  /** The records fill a struct: each of its fixed-count arrays is received, here and in its submessages. */
  predicate FilledBy(fields: seq<Field>, rs: seq<Rec>)
    decreases fields, 1
  {
    && (fields == [] ==> rs == [])
    && forall i :: 0 <= i < |fields| ==> FieldFilled(fields[i], Deliveries(fields, i, rs))
  }

  // ---------------------------------------------------------------------------------------
  // The same, told from the message
  // ---------------------------------------------------------------------------------------

  predicate CompleteValue(f: Field, v: Value)
    decreases f, 0
  {
    f.ltype.TSubmessage? && v.Msg? ==> Complete(f.ltype.fields, v.message)
  }

  predicate CompleteSlot(f: Field, slot: Slot)
    decreases f, 1
  {
    match slot
    case Single(v) => CompleteValue(f, v)
    case Opt(has, v) => has ==> CompleteValue(f, v)
    case Items(vs) => (FixedCount(f) ==> |vs| == f.arraySize) && forall k :: 0 <= k < |vs| ==> CompleteValue(f, vs[k])
    case Union(which, v) => which == f.tag ==> CompleteValue(f, v)
  }

  /**
   Every fixed-count array is full, and no byte was written into a struct without fields, here and in every
   submessage that is present. The C struct does not show it: a fixed-count array has no count.
   */
  predicate Complete(fields: seq<Field>, m: Message)
    decreases fields, 2
  {
    && (fields == [] ==> m == map[])
    && forall i :: 0 <= i < |fields| ==> CompleteSlot(fields[i], SlotAt(m, DataAddress(fields, i)))
  }

  // ---------------------------------------------------------------------------------------
  // What a message has to do with the records it came from
  // ---------------------------------------------------------------------------------------

  predicate ValueFrom(f: Field, rs: seq<Rec>, v: Value)
    decreases f, 0
  {
    f.ltype.TSubmessage? ==> v.Msg? && From(f.ltype.fields, rs, v.message)
  }

  /** The last `count` deliveries are the first `count` entries. */
  predicate EntriesFrom(f: Field, ds: seq<seq<Rec>>, items: seq<Value>, count: nat)
    decreases f, 1
  {
    f.ltype.TSubmessage? ==>
      count <= |ds| && count <= |items| && forall k :: 0 <= k < count ==> ValueFrom(f, ds[|ds| - count + k], items[k])
  }

  predicate SlotFrom(f: Field, ds: seq<seq<Rec>>, slot: Slot)
    decreases f, 2
  {
    match f.htype
    case Required => slot.Single? && ValueFrom(f, Flat(ds), slot.value)
    case Optional =>
      if f.sizeOffset != 0 then slot.Opt? && (slot.has <==> ds != []) && ValueFrom(f, Flat(ds), slot.value)
      else slot.Single? && ValueFrom(f, Flat(ds), slot.value)
    case Repeated =>
      slot.Items?
      && (if !FixedCount(f) then (f.ltype.TSubmessage? ==> |slot.items| == |ds|) && EntriesFrom(f, ds, slot.items, |slot.items|)
          else if ds == [] then slot.items == []
          else |slot.items| == f.arraySize && EntriesFrom(f, ds, slot.items, f.arraySize))
    case OneOf => slot.Union? && (slot.which == f.tag <==> ds != []) && (ds != [] ==> ValueFrom(f, Flat(ds), slot.value))
  }

  predicate From(fields: seq<Field>, rs: seq<Rec>, m: Message)
    decreases fields, 3
  {
    && (fields == [] ==> (rs == [] <==> m == map[]))
    && forall i :: 0 <= i < |fields| ==> SlotFrom(fields[i], Deliveries(fields, i, rs), SlotAt(m, DataAddress(fields, i)))
  }

  /** The fixed-count array that is being received: `count` new entries, perhaps over old ones. */
  predicate PartFrom(f: Field, ds: seq<seq<Rec>>, slot: Slot, count: nat) {
    && slot.Items? && count <= f.arraySize && (|slot.items| == count || |slot.items| == f.arraySize)
    && EntriesFrom(f, ds, slot.items, count)
  }

  predicate FieldFrom(fields: seq<Field>, i: nat, rs: seq<Rec>, st: Progress)
    requires i < |fields|
  {
    var ds, slot := Deliveries(fields, i, rs), SlotAt(st.msg, DataAddress(fields, i));
    if st.fixedField == Some(i) then ds != [] && PartFrom(fields[i], ds, slot, st.fixedCount)
    else SlotFrom(fields[i], ds, slot)
  }

  /** The state of the field loop after the records `rs`. */
  predicate StateFrom(fields: seq<Field>, rs: seq<Rec>, st: Progress) {
    && (st.fixedField.Some? ==> st.fixedField.value < |fields| && FixedCount(fields[st.fixedField.value]))
    && forall i :: 0 <= i < |fields| ==> FieldFrom(fields, i, rs, st)
  }

  lemma {:induction false} DefaultsFrom(fields: seq<Field>)
    requires WellFormed(fields)
    ensures From(fields, [], Defaults(fields))
    decreases fields, 1
  {
    hide DataAddress, Defaults, DefaultSlot, SlotFrom, WellFormedField;
    if fields == [] { assert Defaults(fields) == map[] by { NoDefaults(fields); } }
    forall i | 0 <= i < |fields| ensures SlotFrom(fields[i], Deliveries(fields, i, []), SlotAt(Defaults(fields), DataAddress(fields, i))) {
      DefaultsAt(fields, i);
      DefaultFrom(fields[i]);
    }
  }

  lemma NoDefaults(fields: seq<Field>)
    requires fields == []
    ensures Defaults(fields) == map[]
  {
  }

  lemma {:induction false} DefaultFrom(f: Field)
    requires WellFormedField(f)
    ensures SlotFrom(f, [], DefaultSlot(f)) && ValueFrom(f, [], DefaultValue(f))
    decreases f, 0
  {
    hide Defaults, From;
    if f.ltype.TSubmessage? { DefaultsFrom(f.ltype.fields); }
  }

  // ---------------------------------------------------------------------------------------
  // Decoding keeps the relation
  // ---------------------------------------------------------------------------------------

  lemma {:induction false} ElementFrom(f: Field, s: seq<byte>, prior: Value, rs: seq<Rec>)
    requires WellFormedField(f) && DecodeElement(f, s, prior).Ok?
    requires if f.htype.Repeated? then rs == [] else f.ltype.TSubmessage? ==> From(f.ltype.fields, rs, MessageIn(prior))
    ensures ValueFrom(f, rs + Content(f, s), DecodeElement(f, s, prior).value)
    decreases |s|, 0
  {
    hide DecodeScalar, Defaults, From, DecodeNoInit, RecordsOf, Varint32;
    match f.ltype
    case TSubmessage(sub) =>
      DefaultsFrom(sub);
      NoInitFrom(sub, Substream(s).value, if f.htype.Repeated? then Defaults(sub) else MessageIn(prior), rs);
    case _ =>
  }

  lemma StartFrom(f: Field, ds: seq<seq<Rec>>, slot: Slot)
    requires WellFormedField(f) && SlotFrom(f, ds, slot) && !f.htype.Repeated? && f.ltype.TSubmessage?
    ensures From(f.ltype.fields, Flat(ds), MessageIn(Prior(f, slot)))
  {
    hide From, Defaults;
    DefaultsFrom(f.ltype.fields);
  }

  function Prior(f: Field, slot: Slot): Value {
    if f.htype.OneOf? then MemberStart(f, slot) else ValueIn(slot)
  }

  /** Where there is no array, the value replaces what was there. */
  lemma SingularStatic(f: Field, wireType: nat, s: seq<byte>, slot: Slot, count: nat)
    requires !f.htype.Repeated? && DecodeStatic(f, wireType, s, slot, count).Ok?
    ensures DecodeElement(f, s, Prior(f, slot)).Ok?
    ensures var v := DecodeElement(f, s, Prior(f, slot)).value;
            DecodeStatic(f, wireType, s, slot, count).value.slot ==
              if f.htype.OneOf? then Union(f.tag, v) else if f.htype.Optional? && f.sizeOffset != 0 then Opt(true, v) else Single(v)
  {
    hide DecodeElement, MemberStart;
  }

  lemma SingularStored(f: Field, ds: seq<seq<Rec>>, v: Value)
    requires !f.htype.Repeated? && ds != [] && ValueFrom(f, Flat(ds), v)
    ensures SlotFrom(f, ds, if f.htype.OneOf? then Union(f.tag, v) else if f.htype.Optional? && f.sizeOffset != 0 then Opt(true, v) else Single(v))
  {
    hide ValueFrom, Flat;
  }

  lemma {:induction false} SingularFrom(f: Field, wireType: nat, s: seq<byte>, slot: Slot, count: nat, ds: seq<seq<Rec>>)
    requires WellFormedField(f) && SlotFrom(f, ds, slot) && !f.htype.Repeated? && DecodeStatic(f, wireType, s, slot, count).Ok?
    ensures SlotFrom(f, ds + [Content(f, s)], DecodeStatic(f, wireType, s, slot, count).value.slot)
    decreases |s|, 1
  {
    hide DecodeElement, DecodeStatic, SlotFrom, ValueFrom, From, Content, Prior;
    SingularStatic(f, wireType, s, slot, count);
    if f.ltype.TSubmessage? { StartFrom(f, ds, slot); }
    FlatMore(ds, Content(f, s));
    ElementFrom(f, s, Prior(f, slot), Flat(ds));
    SingularStored(f, ds + [Content(f, s)], DecodeElement(f, s, Prior(f, slot)).value);
  }

  /** Where an array has a count, one entry is appended, or several. */
  lemma CountedStatic(f: Field, wireType: nat, s: seq<byte>, slot: Slot, count: nat)
    requires f.htype.Repeated? && !FixedCount(f) && slot.Items? && DecodeStatic(f, wireType, s, slot, count).Ok?
    ensures DecodeStatic(f, wireType, s, slot, count).value.slot.Items?
    ensures f.ltype.TSubmessage? ==>
      DecodeElement(f, s, NoValue).Ok?
      && DecodeStatic(f, wireType, s, slot, count).value.slot.items == slot.items + [DecodeElement(f, s, NoValue).value]
  {
    hide DecodeElement, DecodePacked;
  }

  lemma {:induction false} CountedFrom(f: Field, wireType: nat, s: seq<byte>, slot: Slot, count: nat, ds: seq<seq<Rec>>)
    requires WellFormedField(f) && SlotFrom(f, ds, slot) && f.htype.Repeated? && !FixedCount(f)
    requires DecodeStatic(f, wireType, s, slot, count).Ok?
    ensures SlotFrom(f, ds + [Content(f, s)], DecodeStatic(f, wireType, s, slot, count).value.slot)
    decreases |s|, 1
  {
    hide DecodeElement, DecodeStatic, ValueFrom, Content;
    CountedStatic(f, wireType, s, slot, count);
    if f.ltype.TSubmessage? {
      ElementFrom(f, s, NoValue, []);
      assert [] + Content(f, s) == Content(f, s);
    }
  }

  lemma EntryFrom(f: Field, ds: seq<seq<Rec>>, items: seq<Value>, count: nat, d: seq<Rec>, v: Value)
    requires EntriesFrom(f, ds, items, count) && ValueFrom(f, d, v)
    requires count <= f.arraySize && (|items| == count || |items| == f.arraySize) && count < f.arraySize
    ensures var arr := Store(Array(items, count), v);
            arr.count == count + 1 && EntriesFrom(f, ds + [d], arr.items, count + 1) && (|arr.items| == count + 1 || |arr.items| == f.arraySize)
  {
    hide ValueFrom;
  }

  lemma {:induction false} PackedFrom(f: Field, s: seq<byte>, arr: Array)
    requires Packable(f) && arr.count <= f.arraySize && (|arr.items| == arr.count || |arr.items| == f.arraySize)
    requires DecodePacked(f, s, arr).Some?
    ensures var r := DecodePacked(f, s, arr).value; r.count <= f.arraySize && (|r.items| == r.count || |r.items| == f.arraySize)
    decreases |s|
  {
    hide DecodeScalar;
    if |s| > 0 {
      var r := DecodeScalar(f, s);
      PackedFrom(f, s[r.used..], Store(arr, r.value));
    }
  }

  lemma {:induction false} FixedFrom(f: Field, wireType: nat, s: seq<byte>, slot: Slot, count: nat, ds: seq<seq<Rec>>)
    requires WellFormedField(f) && FixedCount(f) && PartFrom(f, ds, slot, count) && DecodeStatic(f, wireType, s, slot, count).Ok?
    ensures var r := DecodeStatic(f, wireType, s, slot, count).value; PartFrom(f, ds + [Content(f, s)], r.slot, r.fixedCount)
    decreases |s|, 1
  {
    hide DecodeElement, DecodePacked, ValueFrom, Content, Store, EntriesFrom;
    var arr := ArrayOf(f, slot, count);
    if wireType == WT_STRING && Packable(f) {
      PackedFrom(f, Substream(s).value, arr);
      NoEntries(f, ds + [Content(f, s)], DecodeStatic(f, wireType, s, slot, count).value);
    } else {
      ElementFrom(f, s, NoValue, []);
      assert [] + Content(f, s) == Content(f, s);
      EntryFrom(f, ds, slot.items, count, Content(f, s), DecodeElement(f, s, NoValue).value);
    }
  }

  lemma NoEntries(f: Field, ds: seq<seq<Rec>>, r: Stored)
    requires Packable(f) && r.slot.Items?
    ensures EntriesFrom(f, ds, r.slot.items, r.fixedCount)
  {
  }

  /** A complete array that is entered anew has no new entries yet. */
  lemma Entered(f: Field, ds: seq<seq<Rec>>, slot: Slot)
    requires FixedCount(f) && SlotFrom(f, ds, slot)
    ensures PartFrom(f, ds, slot, 0)
  {
    hide ValueFrom;
  }

  /** An array that was being received and is full is a complete one. */
  lemma Filled(f: Field, ds: seq<seq<Rec>>, slot: Slot)
    requires FixedCount(f) && PartFrom(f, ds, slot, f.arraySize) && ds != []
    ensures SlotFrom(f, ds, slot)
  {
    hide EntriesFrom;
  }

  lemma DeliveriesMore(fields: seq<Field>, i: nat, rs: seq<Rec>, r: Rec)
    requires i < |fields|
    ensures Deliveries(fields, i, rs + [r])
         == if r.field == i then Deliveries(fields, i, rs) + [Content(fields[i], r.payload)]
            else if OtherMember(fields, i, r.field) then [] else Deliveries(fields, i, rs)
  {
    hide Content, OtherMember;
    assert (rs + [r])[..|rs|] == rs;
  }

  lemma ContentOf(f: Field, wireType: nat, s: seq<byte>, n: nat)
    requires PayloadSize(f, wireType, s) == Ok((), n)
    ensures n <= |s| && Content(f, s[..n]) == Content(f, s)
  {
    hide RecordsOf, DecodeScalar;
    if f.ltype.TSubmessage? {
      assert SameUpTo(s, s[..n], n) by { assert s[..n][..n] == s[..n]; }
      SubstreamDepends(s, s[..n]);
    }
  }

  /** The record's own field. */
  lemma {:induction false} OwnField(fields: seq<Field>, i: nat, wireType: nat, s: seq<byte>, st: Progress, rs: seq<Rec>)
    requires WellFormed(fields) && i < |fields| && StateFrom(fields, rs, st) && DecodeField(fields, i, wireType, s, st).Ok?
    ensures var t := DecodeField(fields, i, wireType, s, st);
            FieldFrom(fields, i, rs + [Rec(i, wireType, s[..t.used])], t.value)
    decreases |s|, 2
  {
    hide DecodeStatic, DataAddress, SlotFrom, PartFrom, RequiredIndex, Deliveries, Content, PayloadSize;
    var f, st1, a := fields[i], EnterFixed(fields, i, st).value, DataAddress(fields, i);
    var slot, ds := SlotAt(st1.msg, a), Deliveries(fields, i, rs);
    var r := DecodeStatic(f, wireType, s, slot, st1.fixedCount);
    assert WellFormedField(f) && FieldFrom(fields, i, rs, st);
    StaticSize(f, wireType, s, slot, st1.fixedCount);
    ContentOf(f, wireType, s, r.used);
    DeliveriesMore(fields, i, rs, Rec(i, wireType, s[..r.used]));
    if FixedCount(f) {
      if st.fixedField != Some(i) { Entered(f, ds, slot); }
      FixedFrom(f, wireType, s, slot, st1.fixedCount, ds);
    } else {
      if f.htype.Repeated? { CountedFrom(f, wireType, s, slot, st1.fixedCount, ds); } else { SingularFrom(f, wireType, s, slot, st1.fixedCount, ds); }
      TypeSafety.StaticMember(f, wireType, s, slot, st1.fixedCount);
    }
  }

  /** Another field. */
  lemma OtherField(fields: seq<Field>, i: nat, wireType: nat, s: seq<byte>, st: Progress, rs: seq<Rec>, j: nat)
    requires WellFormed(fields) && i < |fields| && j < |fields| && i != j
    requires StateFrom(fields, rs, st) && DecodeField(fields, i, wireType, s, st).Ok?
    ensures var t := DecodeField(fields, i, wireType, s, st);
            FieldFrom(fields, j, rs + [Rec(i, wireType, s[..t.used])], t.value)
  {
    hide DecodeStatic, DataAddress, SlotFrom, PartFrom, RequiredIndex, Deliveries, Content, OtherMember;
    var st1, a := EnterFixed(fields, i, st).value, DataAddress(fields, i);
    var slot, ds := SlotAt(st1.msg, a), Deliveries(fields, j, rs);
    var r := DecodeStatic(fields[i], wireType, s, slot, st1.fixedCount);
    assert FieldFrom(fields, j, rs, st);
    DeliveriesMore(fields, j, rs, Rec(i, wireType, s[..r.used]));
    TypeSafety.StaticMember(fields[i], wireType, s, slot, st1.fixedCount);
    if OtherMember(fields, j, i) {
      LeftUnion(fields, i, j, r.value.slot);
    } else {
      Elsewhere(fields, i, j);
      if FixedCount(fields[i]) && st.fixedField == Some(j) { Filled(fields[j], ds, SlotAt(st.msg, DataAddress(fields, j))); }
    }
  }

  lemma LeftUnion(fields: seq<Field>, i: nat, j: nat, slot: Slot)
    requires WellFormed(fields) && i < |fields| && j < |fields| && OtherMember(fields, j, i)
    requires fields[i].htype.OneOf? ==> slot.Union? && slot.which == fields[i].tag
    ensures DataAddress(fields, i) == DataAddress(fields, j) && SlotFrom(fields[j], [], slot)
    ensures !FixedCount(fields[j]) && !FixedCount(fields[i])
  {
    hide DataAddress, ValueFrom, WellFormedField;
    UnionMembers(fields, j, i);
    TypeSafety.TagsDiffer(fields, i, j);
  }

  lemma Elsewhere(fields: seq<Field>, i: nat, j: nat)
    requires WellFormed(fields) && i < |fields| && j < |fields| && i != j && !OtherMember(fields, j, i)
    ensures DataAddress(fields, i) != DataAddress(fields, j)
  {
    hide DataAddress, WellFormedField;
    if i < j { AddressOrder(fields, i, j); } else { AddressOrder(fields, j, i); }
  }

  lemma {:induction false} RecordFrom(fields: seq<Field>, s: seq<byte>, st: Progress, rs: seq<Rec>) returns (more: seq<Rec>)
    requires WellFormed(fields) && fields != [] && StateFrom(fields, rs, st) && DecodeRecord(fields, s, st).Next?
    ensures var t := DecodeRecord(fields, s, st);
            RecordsOf(fields, s) == more + RecordsOf(fields, s[t.used..]) && StateFrom(fields, rs + more, t.st)
    decreases |s|, 3
  {
    hide DecodeField, FieldFrom, WellFormed, RecordsOf;
    var h, t := ReadHeader(s), DecodeRecord(fields, s, st);
    RecordSplits(fields, s, st);
    match FindField(fields, h.tag)
    case None =>
      more := [];
      assert rs + [] == rs;
    case Some(i) =>
      var payload := s[h.used..];
      var d := DecodeField(fields, i, h.wireType, payload, st);
      var r := Rec(i, h.wireType, payload[..d.used]);
      assert s[h.used..t.used] == payload[..d.used];
      forall j | 0 <= j < |fields| ensures FieldFrom(fields, j, rs + [r], d.value) {
        if j == i { OwnField(fields, i, h.wireType, payload, st, rs); } else { OtherField(fields, i, h.wireType, payload, st, rs, j); }
      }
      FixedKept(fields, i, h.wireType, payload, st);
      more := [r];
  }

  lemma FixedKept(fields: seq<Field>, i: nat, wireType: nat, s: seq<byte>, st: Progress)
    requires i < |fields| && DecodeField(fields, i, wireType, s, st).Ok?
    requires st.fixedField.Some? ==> st.fixedField.value < |fields| && FixedCount(fields[st.fixedField.value])
    ensures var t := DecodeField(fields, i, wireType, s, st).value;
            t.fixedField.Some? ==> t.fixedField.value < |fields| && FixedCount(fields[t.fixedField.value])
  {
    hide DecodeStatic, DataAddress, RequiredIndex;
  }

  lemma {:induction false} LoopFrom(fields: seq<Field>, s: seq<byte>, st: Progress, rs: seq<Rec>)
    requires WellFormed(fields) && fields != [] && StateFrom(fields, rs, st) && DecodeLoop(fields, s, st).Ok?
    ensures StateFrom(fields, rs + RecordsOf(fields, s), DecodeLoop(fields, s, st).value)
    decreases |s|, 4
  {
    hide DecodeRecord, StateFrom, WellFormed, RecordsOf;
    if |s| == 0 {
      NoRecords(fields, s);
      assert rs + [] == rs;
    } else {
      var t := DecodeRecord(fields, s, st);
      if t.Next? {
        var more := RecordFrom(fields, s, st, rs);
        LoopFrom(fields, s[t.used..], t.st, rs + more);
        Regroup(rs, more, RecordsOf(fields, s[t.used..]));
      } else {
        StopsHere(fields, s, st);
        assert rs + [] == rs;
      }
    }
  }

  lemma Regroup(a: seq<Rec>, b: seq<Rec>, c: seq<Rec>)
    ensures a + b + c == a + (b + c)
  {
  }

  lemma StopsHere(fields: seq<Field>, s: seq<byte>, st: Progress)
    requires |s| > 0 && DecodeRecord(fields, s, st).Stop?
    ensures RecordsOf(fields, s) == []
  {
    hide DecodeField;
  }

  /** Into a struct without fields. */
  lemma {:induction false} EmptyLoopFrom(s: seq<byte>, st: Progress, rs: seq<Rec>)
    requires DecodeLoop([], s, st).Ok? && (rs == [] <==> st.msg == map[])
    ensures rs + RecordsOf([], s) == [] <==> DecodeLoop([], s, st).value.msg == map[]
    ensures FixedComplete([], st) ==> FixedComplete([], DecodeLoop([], s, st).value)
    decreases |s|
  {
    hide DecodeRecord, RecordsOf;
    if |s| > 0 {
      var t := DecodeRecord([], s, st);
      if t.Next? {
        RecordSplits([], s, st);
        EmptyRecord(s, st);
        var more := if HitField([], s).Some? then [Rec(HitField([], s).value, ReadHeader(s).wireType, s[ReadHeader(s).used..t.used])] else [];
        EmptyLoopFrom(s[t.used..], t.st, rs + more);
        assert rs + more + RecordsOf([], s[t.used..]) == rs + RecordsOf([], s);
      } else {
        StopsHere([], s, st);
      }
    } else {
      assert RecordsOf([], s) == [] by { NoRecords([], s); }
    }
  }

  lemma NoRecords(fields: seq<Field>, s: seq<byte>)
    requires |s| == 0
    ensures RecordsOf(fields, s) == []
  {
  }

  lemma EmptyRecord(s: seq<byte>, st: Progress)
    requires DecodeRecord([], s, st).Next?
    ensures var t := DecodeRecord([], s, st).st;
            && (if HitField([], s).Some? then t.msg != map[] else t.msg == st.msg)
            && t.fixedField == st.fixedField && t.fixedCount == st.fixedCount
  {
    hide DecodeStatic;
    if HitField([], s).Some? {
      var h := ReadHeader(s);
      TypeSafety.StaticMember(TERMINATOR, h.wireType, s[h.used..], SlotAt(st.msg, DataAddress([], 0)), st.fixedCount);
      assert DataAddress([], 0) in DecodeRecord([], s, st).st.msg;
    }
  }

  /** Merging an input into a struct adds its records to those the struct came from. */
  lemma {:induction false} NoInitFrom(fields: seq<Field>, s: seq<byte>, msg: Message, rs: seq<Rec>)
    requires WellFormed(fields) && From(fields, rs, msg) && DecodeNoInit(fields, s, msg).Ok?
    ensures From(fields, rs + RecordsOf(fields, s), DecodeNoInit(fields, s, msg).value)
    decreases |s|, 5
  {
    hide DecodeLoop, WellFormed, DataAddress, SlotFrom, PartFrom, RecordsOf, Deliveries;
    if fields == [] {
      EmptyLoopFrom(s, Start(msg), rs);
    } else {
      LoopFrom(fields, s, Start(msg), rs);
      var st, all := DecodeLoop(fields, s, Start(msg)).value, rs + RecordsOf(fields, s);
      forall i | 0 <= i < |fields| ensures SlotFrom(fields[i], Deliveries(fields, i, all), SlotAt(st.msg, DataAddress(fields, i))) {
        assert FieldFrom(fields, i, all, st);
        if st.fixedField == Some(i) { Filled(fields[i], Deliveries(fields, i, all), SlotAt(st.msg, DataAddress(fields, i))); }
      }
    }
  }

  // ---------------------------------------------------------------------------------------
  // Both say the same
  // ---------------------------------------------------------------------------------------

  lemma {:induction false} SlotFilled(f: Field, ds: seq<seq<Rec>>, slot: Slot)
    requires WellFormedField(f) && SlotFrom(f, ds, slot)
    ensures CompleteSlot(f, slot) <==> FieldFilled(f, ds)
    decreases f, 0
  {
    hide From, Complete, FilledBy;
    if !f.ltype.TSubmessage? {
    } else if slot.Items? {
      EntriesFilled(f, ds, slot.items);
    } else if !(slot.Opt? && !slot.has) && !(slot.Union? && slot.which != f.tag) {
      StructFilled(f.ltype.fields, Flat(ds), slot.value.message);
    }
  }

  lemma {:induction false} EntriesFilled(f: Field, ds: seq<seq<Rec>>, items: seq<Value>)
    requires WellFormedField(f) && f.ltype.TSubmessage? && EntriesFrom(f, ds, items, |items|)
    ensures (forall k :: 0 <= k < |items| ==> CompleteValue(f, items[k]))
       <==> forall k :: 0 <= k < |ds| && |ds| - |items| <= k ==> FilledBy(f.ltype.fields, ds[k])
    decreases f, 0, 0
  {
    hide From, Complete, FilledBy;
    var n := |ds| - |items|;
    forall k | 0 <= k < |items| ensures CompleteValue(f, items[k]) <==> FilledBy(f.ltype.fields, ds[n + k]) {
      assert ValueFrom(f, ds[n + k], items[k]);
      StructFilled(f.ltype.fields, ds[n + k], items[k].message);
    }
    if forall k :: 0 <= k < |items| ==> CompleteValue(f, items[k]) {
      forall k | 0 <= k < |ds| && n <= k ensures FilledBy(f.ltype.fields, ds[k]) {
        assert CompleteValue(f, items[k - n]) && ds[n + (k - n)] == ds[k];
      }
    }
  }

  /** A struct is complete if and only if the records it came from fill it. */
  lemma {:induction false} StructFilled(fields: seq<Field>, rs: seq<Rec>, m: Message)
    requires WellFormed(fields) && From(fields, rs, m)
    ensures Complete(fields, m) <==> FilledBy(fields, rs)
    decreases fields, 1
  {
    hide SlotFrom, CompleteSlot, FieldFilled, DataAddress, Deliveries, WellFormedField;
    forall i | 0 <= i < |fields|
      ensures CompleteSlot(fields[i], SlotAt(m, DataAddress(fields, i))) <==> FieldFilled(fields[i], Deliveries(fields, i, rs))
    {
      SlotFilled(fields[i], Deliveries(fields, i, rs), SlotAt(m, DataAddress(fields, i)));
    }
  }

  /** What an accepted input leaves comes from its records. */
  lemma AcceptedFrom(fields: seq<Field>, s: seq<byte>, struct: Message)
    requires WellFormed(fields) && struct.Keys <= Addresses(fields) && Decode(fields, s, struct).Ok?
    ensures From(fields, RecordsOf(fields, s), Decode(fields, s, struct).value)
  {
    hide From, Defaults, DecodeNoInit, RecordsOf;
    RoundTrip.DefaultsKeys(fields);
    assert struct + Defaults(fields) == Defaults(fields);
    DefaultsFrom(fields);
    NoInitFrom(fields, s, Defaults(fields), []);
    assert [] + RecordsOf(fields, s) == RecordsOf(fields, s);
  }

  /** It is complete if and only if its records fill the struct. */
  lemma AcceptedFilled(fields: seq<Field>, s: seq<byte>, struct: Message)
    requires WellFormed(fields) && struct.Keys <= Addresses(fields) && Decode(fields, s, struct).Ok?
    ensures Complete(fields, Decode(fields, s, struct).value) <==> FilledBy(fields, RecordsOf(fields, s))
  {
    hide From, Complete, FilledBy, Decode, RecordsOf;
    AcceptedFrom(fields, s, struct);
    StructFilled(fields, RecordsOf(fields, s), Decode(fields, s, struct).value);
  }

  // ---------------------------------------------------------------------------------------
  // Descriptors
  // ---------------------------------------------------------------------------------------

  predicate PlainField(f: Field)
    decreases f, 0
  {
    !FixedCount(f) && (f.ltype.TSubmessage? ==> Plain(f.ltype.fields))
  }

  /** No struct of the descriptor tree is empty or has a fixed-count array. */
  predicate Plain(fields: seq<Field>)
    decreases fields, 1
  {
    fields != [] && forall i :: 0 <= i < |fields| ==> PlainField(fields[i])
  }

  /** Then whatever the input is, its records fill the struct. */
  lemma {:induction false} PlainIsFilled(fields: seq<Field>, rs: seq<Rec>)
    requires Plain(fields)
    ensures FilledBy(fields, rs)
    decreases fields, 1
  {
    hide PlainField, FieldFilled, Deliveries;
    forall i | 0 <= i < |fields| ensures FieldFilled(fields[i], Deliveries(fields, i, rs)) {
      PlainFieldFilled(fields[i], Deliveries(fields, i, rs));
    }
  }

  lemma {:induction false} PlainFieldFilled(f: Field, ds: seq<seq<Rec>>)
    requires PlainField(f)
    ensures FieldFilled(f, ds)
    decreases f, 0
  {
    hide FilledBy, Plain;
    if f.ltype.TSubmessage? {
      PlainIsFilled(f.ltype.fields, Flat(ds));
      forall k | 0 <= k < |ds| ensures FilledBy(f.ltype.fields, ds[k]) { PlainIsFilled(f.ltype.fields, ds[k]); }
    }
  }

  /**
   A fixed-count array of the struct is full if a record of its field is in an accepted input, and has no
   entries otherwise.
   */
  lemma FixedArrayExact(fields: seq<Field>, s: seq<byte>, struct: Message, i: nat)
    requires WellFormed(fields) && struct.Keys <= Addresses(fields) && Decode(fields, s, struct).Ok?
    requires i < |fields| && FixedCount(fields[i])
    ensures var slot := SlotAt(Decode(fields, s, struct).value, DataAddress(fields, i));
            slot.Items? && |slot.items| == if exists k :: 0 <= k < |RecordsOf(fields, s)| && RecordsOf(fields, s)[k].field == i
                                           then fields[i].arraySize else 0
  {
    hide Decode, RecordsOf, SlotFrom, DataAddress, WellFormed, Deliveries;
    AcceptedFrom(fields, s, struct);
    var rs, slot := RecordsOf(fields, s), SlotAt(Decode(fields, s, struct).value, DataAddress(fields, i));
    FixedSlotFrom(fields[i], Deliveries(fields, i, rs), slot);
    DeliveredIff(fields, i, rs);
  }

  lemma FixedSlotFrom(f: Field, ds: seq<seq<Rec>>, slot: Slot)
    requires FixedCount(f) && SlotFrom(f, ds, slot)
    ensures slot.Items? && |slot.items| == if ds != [] then f.arraySize else 0
  {
    hide EntriesFrom;
  }

  lemma {:induction false} DeliveredIff(fields: seq<Field>, i: nat, rs: seq<Rec>)
    requires WellFormed(fields) && i < |fields| && FixedCount(fields[i])
    ensures Deliveries(fields, i, rs) != [] <==> exists k :: 0 <= k < |rs| && rs[k].field == i
    decreases |rs|
  {
    hide Content, OneUnion, WellFormed;
    if rs != [] {
      var before, r := rs[..|rs| - 1], rs[|rs| - 1];
      DeliveredIff(fields, i, before);
      if OtherMember(fields, i, r.field) { UnionMembers(fields, i, r.field); }
      if k :| 0 <= k < |before| && before[k].field == i { assert rs[k].field == i; }
      if k :| 0 <= k < |rs| && rs[k].field == i { assert k < |before| ==> before[k].field == i; }
    }
  }
}

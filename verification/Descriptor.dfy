/**
 Field descriptors (`pb_field_t` arrays without their terminator), the walk over them that the
 field iterator makes, and the messages they describe.

 A message is the content of a struct. It is kept as a map from the address of a field's data,
 relative to the struct, to a slot that also holds the field's has-flag, count or which-tag.
 The members of a union share an address and so share a slot.
 */
module Descriptor {
  import opened Wire
  import opened Options

  type SizeWidth = w: nat | w == 1 || w == 2 || w == 4 witness 1

  /** The width of `pb_size_t`, a build option. Nothing is known about it but its three values. */
  const PB_SIZE_WIDTH: SizeWidth

  /** `offsetof(pb_bytes_array_t, bytes)`. */
  const BYTES_HEADER := PB_SIZE_WIDTH

  const PB_SIZE_MAX :=
    if PB_SIZE_WIDTH == 1 then 0xFF else if PB_SIZE_WIDTH == 2 then 0xFFFF else 0xFFFF_FFFF

  const PB_MAX_REQUIRED_FIELDS := 64

  datatype LType =
    | TBool | TVarint | TUVarint | TSVarint | TFixed32 | TFixed64
    | TBytes | TString | TSubmessage(fields: seq<Field>) | TFixedLengthBytes

  datatype HType = Required | Optional | Repeated | OneOf

  /**
   One `pb_field_t` with static allocation. `default` is what `ptr` points to when the field is
   not a submessage.
   */
  datatype Field = Field(
    tag: nat, ltype: LType, htype: HType,
    dataOffset: nat, sizeOffset: int, dataSize: nat, arraySize: nat, default: Option<Value>)

  /** The all-zero entry that ends a descriptor. */
  const TERMINATOR := Field(0, TBool, Required, 0, 0, 0, 0, None)

  /** `Blob` is a bytes array, a fixed-length byte array, or a C string without its NUL. */
  datatype Value = Int(i: int) | Blob(bytes: seq<byte>) | Msg(message: Message) | NoValue

  datatype Slot =
    | Single(value: Value)
    | Opt(has: bool, value: Value)
    | Items(items: seq<Value>)
    | Union(which: nat, value: Value)

  type Message = map<int, Slot>

  predicate Packable(f: Field) {
    !f.ltype.TBytes? && !f.ltype.TString? && !f.ltype.TSubmessage? && !f.ltype.TFixedLengthBytes?
  }

  /** A repeated field without a count in the struct: all `arraySize` entries are always present. */
  predicate FixedCount(f: Field) {
    f.htype.Repeated? && f.sizeOffset == 0
  }

  // ---------------------------------------------------------------------------------------
  // The walk from the start of the descriptor
  // ---------------------------------------------------------------------------------------

  /** Two neighbours in one union: the second has no offset of its own. */
  predicate Linked(f: Field, g: Field) {
    f.htype.OneOf? && g.htype.OneOf? && g.dataOffset == PB_SIZE_MAX
  }

  /** The bytes a field occupies. */
  function Extent(f: Field): nat {
    if f.htype.Repeated? then f.dataSize * f.arraySize else f.dataSize
  }

  function FieldAt(fields: seq<Field>, i: nat): Field {
    if i < |fields| then fields[i] else TERMINATOR
  }

  /** The address of the data of field `i`. */
  function DataAddress(fields: seq<Field>, i: nat): int {
    if i == 0 then FieldAt(fields, 0).dataOffset
    else
      var f, g := FieldAt(fields, i - 1), FieldAt(fields, i);
      if Linked(f, g) then DataAddress(fields, i - 1)
      else DataAddress(fields, i - 1) + Extent(f) + g.dataOffset
  }

  /** The address of the flag, count or which-tag of field `i`. */
  function SizeAddress(fields: seq<Field>, i: nat): int {
    if i > 0 && Linked(FieldAt(fields, i - 1), FieldAt(fields, i)) then SizeAddress(fields, i - 1)
    else DataAddress(fields, i) + FieldAt(fields, i).sizeOffset
  }

  /** How many required fields come before field `i`. */
  function RequiredIndex(fields: seq<Field>, i: nat): nat {
    if i == 0 then 0
    else RequiredIndex(fields, i - 1) + (if FieldAt(fields, i - 1).htype.Required? then 1 else 0)
  }

  // ---------------------------------------------------------------------------------------
  // Well-formed descriptors
  // ---------------------------------------------------------------------------------------

  predicate WellFormedField(f: Field)
    decreases f, 0
  {
    && 0 < f.tag < 0x2000_0000 && f.tag <= PB_SIZE_MAX
    && 0 < f.dataSize <= PB_SIZE_MAX
    && (f.htype.Repeated? ==> 0 < f.arraySize <= PB_SIZE_MAX)
    && (f.htype.OneOf? ==> f.sizeOffset != 0)
    && (f.ltype.TBytes? ==> BYTES_HEADER <= f.dataSize)
    && (f.ltype.TSubmessage? ==> WellFormed(f.ltype.fields))
  }

  /** What the generator of descriptors promises: sizes that fit the C types and distinct tags. */
  predicate WellFormed(fields: seq<Field>)
    decreases fields, 1
  {
    && (forall i :: 0 <= i < |fields| ==> WellFormedField(fields[i]))
    && (forall i, j :: 0 <= i < j < |fields| ==> fields[i].tag != fields[j].tag)
  }

  // ---------------------------------------------------------------------------------------
  // Addresses identify fields
  // ---------------------------------------------------------------------------------------

  /** Fields `i` to `j` are members of one union. */
  predicate SameUnion(fields: seq<Field>, i: nat, j: nat)
    requires i <= j
  {
    forall k :: i < k <= j ==> Linked(FieldAt(fields, k - 1), FieldAt(fields, k))
  }

  /**
   Addresses never go down along a descriptor, and two fields have the same one if and only if
   they belong to one union.
   */
  lemma {:induction false} AddressOrder(fields: seq<Field>, i: nat, j: nat)
    requires WellFormed(fields) && i <= j < |fields|
    ensures DataAddress(fields, i) == DataAddress(fields, j) <==> SameUnion(fields, i, j)
    ensures !SameUnion(fields, i, j) ==> DataAddress(fields, i) < DataAddress(fields, j)
  {
    if i < j {
      AddressOrder(fields, i, j - 1);
      assert WellFormedField(fields[j - 1]);
      ExtentPositive(fields[j - 1]);
      assert SameUnion(fields, i, j) ==> Linked(FieldAt(fields, j - 1), FieldAt(fields, j));
    }
  }

  /** Every field behind a union starts past each of its members, as the offsets of the generator make it. */
  predicate ClearOfUnions(fields: seq<Field>) {
    forall i, j :: 0 <= i < j < |fields| && SameUnion(fields, i, j - 1) && !Linked(fields[j - 1], fields[j])
      ==> DataAddress(fields, i) + Extent(fields[i]) <= DataAddress(fields, j)
  }

  /** Then, and only then, fields that do not share a union do not overlap. */
  lemma NoOverlap(fields: seq<Field>)
    ensures ClearOfUnions(fields)
       <==> forall i, j :: 0 <= i < j < |fields| && !SameUnion(fields, i, j)
                           ==> DataAddress(fields, i) + Extent(fields[i]) <= DataAddress(fields, j)
  {
    hide *;
    if ClearOfUnions(fields) {
      forall i, j | 0 <= i < j < |fields| && !SameUnion(fields, i, j)
        ensures DataAddress(fields, i) + Extent(fields[i]) <= DataAddress(fields, j)
      {
        PairApart(fields, i, j);
      }
    }
    if forall i, j :: 0 <= i < j < |fields| && !SameUnion(fields, i, j) ==> DataAddress(fields, i) + Extent(fields[i]) <= DataAddress(fields, j) {
      ApartIsClear(fields);
    }
  }

  lemma ApartIsClear(fields: seq<Field>)
    requires forall i, j :: 0 <= i < j < |fields| && !SameUnion(fields, i, j) ==> DataAddress(fields, i) + Extent(fields[i]) <= DataAddress(fields, j)
    ensures ClearOfUnions(fields)
  {
    hide DataAddress, Extent, Linked, SameUnion;
    forall i, j | 0 <= i < j < |fields| && SameUnion(fields, i, j - 1) && !Linked(fields[j - 1], fields[j])
      ensures DataAddress(fields, i) + Extent(fields[i]) <= DataAddress(fields, j)
    {
      UnionGrows(fields, i, j);
    }
  }

  lemma {:induction false} PairApart(fields: seq<Field>, i: nat, j: nat)
    requires ClearOfUnions(fields) && i < j < |fields| && !SameUnion(fields, i, j)
    ensures DataAddress(fields, i) + Extent(fields[i]) <= DataAddress(fields, j)
  {
    hide Extent, DataAddress, Linked, SameUnion;
    StepUp(fields, j);
    UnionGrows(fields, i, j);
    if Linked(fields[j - 1], fields[j]) || !SameUnion(fields, i, j - 1) {
      PairApart(fields, i, j - 1);
    }
  }

  lemma StepUp(fields: seq<Field>, j: nat)
    requires 0 < j < |fields|
    ensures DataAddress(fields, j - 1) <= DataAddress(fields, j)
  {
    hide Extent;
  }

  lemma UnionGrows(fields: seq<Field>, i: nat, j: nat)
    requires i < j < |fields|
    ensures SameUnion(fields, i, j) <==> SameUnion(fields, i, j - 1) && Linked(fields[j - 1], fields[j])
    ensures !SameUnion(fields, i, j - 1) ==> i < j - 1
  {
    hide Linked;
    if SameUnion(fields, i, j) { assert Linked(FieldAt(fields, j - 1), FieldAt(fields, j)); }
  }

  lemma ExtentPositive(f: Field)
    requires WellFormedField(f)
    ensures Extent(f) >= f.dataSize > 0
  {
    if f.htype.Repeated? {
      var a, b := f.dataSize, f.arraySize;
      assert a * b == a * (b - 1) + a;
      assert a * (b - 1) >= 0;
    }
  }

  /** Different fields with one address are members of a union. */
  lemma SharedAddress(fields: seq<Field>, i: nat, j: nat)
    requires WellFormed(fields) && i < |fields| && j < |fields| && i != j
    requires DataAddress(fields, i) == DataAddress(fields, j)
    ensures fields[i].htype.OneOf? && fields[j].htype.OneOf?
  {
    if i < j {
      AddressOrder(fields, i, j);
      assert Linked(FieldAt(fields, i), FieldAt(fields, i + 1)) && Linked(FieldAt(fields, j - 1), FieldAt(fields, j));
    } else {
      AddressOrder(fields, j, i);
      assert Linked(FieldAt(fields, j), FieldAt(fields, j + 1)) && Linked(FieldAt(fields, i - 1), FieldAt(fields, i));
    }
  }

  lemma {:induction false} RequiredIndexOrder(fields: seq<Field>, i: nat, j: nat)
    requires i <= j
    ensures RequiredIndex(fields, i) <= RequiredIndex(fields, j)
    ensures i < j && FieldAt(fields, i).htype.Required? ==> RequiredIndex(fields, i) < RequiredIndex(fields, j)
  {
    if i < j { RequiredIndexOrder(fields, i, j - 1); }
  }

  // ---------------------------------------------------------------------------------------
  // Default values
  // ---------------------------------------------------------------------------------------

  function Zeros(n: nat): (s: seq<byte>)
    ensures |s| == n
  {
    seq(n, _ => 0)
  }

  function ZeroValue(f: Field): Value {
    match f.ltype
    case TBytes => Blob([])
    case TString => Blob([])
    case TFixedLengthBytes => Blob(Zeros(f.dataSize))
    case _ => Int(0)
  }

  function DefaultValue(f: Field): Value
    decreases f, 0
  {
    match f.ltype
    case TSubmessage(sub) => Msg(Defaults(sub))
    case _ => if f.default.Some? then f.default.value else ZeroValue(f)
  }

  /**
   The slot after `pb_field_set_to_default`. The content of a union without a member, and of a
   fixed-count array that has not been filled, is not represented.
   */
  function DefaultSlot(f: Field): Slot
    decreases f, 1
  {
    match f.htype
    case Required => Single(DefaultValue(f))
    case Optional => if f.sizeOffset != 0 then Opt(false, DefaultValue(f)) else Single(DefaultValue(f))
    case Repeated => Items([])
    case OneOf => Union(0, NoValue)
  }

  /**
   How many bytes, from its data on, setting a field to its default writes. For an array it is only the
   zero of its count, which lies at the data if the array has no count of its own.
   */
  function DefaultExtent(f: Field): nat {
    match f.htype
    case Repeated => if FixedCount(f) then PB_SIZE_WIDTH else 0
    case OneOf => 0
    case _ => f.dataSize
  }

  /** The defaults stay inside the fields, if and only if every fixed-count array has room for a count. */
  lemma DefaultsInside(fields: seq<Field>)
    ensures (forall i :: 0 <= i < |fields| ==> DefaultExtent(fields[i]) <= Extent(fields[i]))
       <==> forall i :: 0 <= i < |fields| && FixedCount(fields[i]) ==> PB_SIZE_WIDTH <= fields[i].dataSize * fields[i].arraySize
  {
    forall i | 0 <= i < |fields|
      ensures DefaultExtent(fields[i]) <= Extent(fields[i])
         <==> (FixedCount(fields[i]) ==> PB_SIZE_WIDTH <= fields[i].dataSize * fields[i].arraySize)
    {
      ExtentNat(fields[i]);
    }
  }

  lemma ExtentNat(f: Field)
    ensures f.dataSize * f.arraySize >= 0
  {
  }

  function DefaultsUpTo(fields: seq<Field>, n: nat): Message
    requires n <= |fields|
    decreases fields, n
  {
    if n == 0 then map[]
    else DefaultsUpTo(fields, n - 1)[DataAddress(fields, n - 1) := DefaultSlot(fields[n - 1])]
  }

  /** The message that `pb_message_set_to_defaults` leaves. */
  function Defaults(fields: seq<Field>): Message
    decreases fields, |fields| + 1
  {
    DefaultsUpTo(fields, |fields|)
  }

  function AddressesUpTo(fields: seq<Field>, n: nat): set<int> {
    set i | 0 <= i < n :: DataAddress(fields, i)
  }

  function Addresses(fields: seq<Field>): set<int> {
    AddressesUpTo(fields, |fields|)
  }

  lemma {:induction false} DefaultsUpToAt(fields: seq<Field>, n: nat, i: nat)
    requires WellFormed(fields) && i < n <= |fields|
    ensures DataAddress(fields, i) in DefaultsUpTo(fields, n)
    ensures DefaultsUpTo(fields, n)[DataAddress(fields, i)] == DefaultSlot(fields[i])
  {
    if i < n - 1 {
      DefaultsUpToAt(fields, n - 1, i);
      if DataAddress(fields, i) == DataAddress(fields, n - 1) { SharedAddress(fields, i, n - 1); }
    }
  }

  lemma {:induction false} DefaultsUpToKeys(fields: seq<Field>, n: nat)
    requires n <= |fields|
    ensures DefaultsUpTo(fields, n).Keys == AddressesUpTo(fields, n)
  {
    if n > 0 {
      DefaultsUpToKeys(fields, n - 1);
      forall a ensures a in AddressesUpTo(fields, n) <==> a in AddressesUpTo(fields, n - 1) || a == DataAddress(fields, n - 1) {
        if a in AddressesUpTo(fields, n) {
          var i :| 0 <= i < n && DataAddress(fields, i) == a;
          if i < n - 1 { assert DataAddress(fields, i) in AddressesUpTo(fields, n - 1); }
        }
        if a in AddressesUpTo(fields, n - 1) {
          var i :| 0 <= i < n - 1 && DataAddress(fields, i) == a;
        }
      }
    }
  }

  /** Every field is at its default afterwards, and nothing else is in the message. */
  lemma DefaultsAt(fields: seq<Field>, i: nat)
    requires WellFormed(fields) && i < |fields|
    ensures Defaults(fields).Keys == Addresses(fields)
    ensures DataAddress(fields, i) in Defaults(fields)
    ensures Defaults(fields)[DataAddress(fields, i)] == DefaultSlot(fields[i])
  {
    DefaultsUpToAt(fields, |fields|, i);
    DefaultsUpToKeys(fields, |fields|);
  }

  /**
   After setting to defaults, numbers are what the descriptor declares, or zero; bytes and strings what it
   declares, or empty; a fixed-length array what it declares, or that many zeros; optional fields are absent,
   arrays are empty, and no member of a union is stored.
   */
  lemma DefaultsAreDeclared(fields: seq<Field>, i: nat)
    requires WellFormed(fields) && i < |fields|
    ensures DataAddress(fields, i) in Defaults(fields)
    ensures var f, slot := fields[i], Defaults(fields)[DataAddress(fields, i)];
            if f.htype.Repeated? then slot == Items([])
            else if f.htype.OneOf? then slot.Union? && slot.which == 0
            else
              && !slot.Items? && !slot.Union? && (slot.Opt? <==> f.htype.Optional? && f.sizeOffset != 0) && (slot.Opt? ==> !slot.has)
              && (if f.ltype.TSubmessage? then slot.value == Msg(Defaults(f.ltype.fields))
                  else if f.default.Some? then slot.value == f.default.value
                  else if Packable(f) then slot.value == Int(0)
                  else slot.value.Blob? && |slot.value.bytes| == (if f.ltype.TFixedLengthBytes? then f.dataSize else 0)
                       && forall k :: 0 <= k < |slot.value.bytes| ==> slot.value.bytes[k] == 0)
  {
    hide Defaults, DataAddress, WellFormed;
    DefaultsAt(fields, i);
  }

  // ---------------------------------------------------------------------------------------
  // Looking into a message
  // ---------------------------------------------------------------------------------------

  function SlotAt(m: Message, a: int): Slot {
    if a in m then m[a] else Single(NoValue)
  }

  function ValueIn(slot: Slot): Value {
    if slot.Items? then NoValue else slot.value
  }

  function ItemsIn(slot: Slot): seq<Value> {
    if slot.Items? then slot.items else []
  }

  function MessageIn(v: Value): Message {
    if v.Msg? then v.message else map[]
  }

  // ---------------------------------------------------------------------------------------
  // Well-typed messages
  // ---------------------------------------------------------------------------------------

  predicate IntRange(i: int, width: nat, signed: bool) {
    || (width == 1 && (if signed then -0x80 <= i < 0x80 else 0 <= i < 0x100))
    || (width == 2 && (if signed then -0x8000 <= i < 0x8000 else 0 <= i < 0x1_0000))
    || (width == 4 && (if signed then -TWO31 <= i < TWO31 else 0 <= i < TWO32))
    || (width == 8 && (if signed then -TWO63 <= i < TWO63 else 0 <= i < TWO64))
  }

  /** The values the C type of the field can hold; a string has its NUL inside `data_size`. */
  predicate TypedValue(f: Field, v: Value)
    decreases f, 0
  {
    match f.ltype
    case TBool => v.Int? && 0 <= v.i <= 1
    case TVarint => v.Int? && IntRange(v.i, f.dataSize, true)
    case TUVarint => v.Int? && IntRange(v.i, f.dataSize, false)
    case TSVarint => v.Int? && IntRange(v.i, f.dataSize, true)
    case TFixed32 => v.Int? && IntRange(v.i, 4, false)
    case TFixed64 => v.Int? && IntRange(v.i, 8, false)
    case TBytes => v.Blob? && |v.bytes| + BYTES_HEADER <= f.dataSize
    case TString => v.Blob? && |v.bytes| < f.dataSize && 0 !in v.bytes
    case TFixedLengthBytes => v.Blob? && |v.bytes| == f.dataSize
    case TSubmessage(sub) => v.Msg? && Typed(sub, v.message)
  }

  /** What a field of the struct may hold: its default, which the descriptor chooses, or a typed value. */
  predicate Holds(f: Field, v: Value)
    decreases f, 1
  {
    v == DefaultValue(f) || TypedValue(f, v)
  }

  /** The slot has the shape of the field; counts stay within the array, strings within the buffer. */
  predicate TypedSlot(f: Field, slot: Slot)
    decreases f, 2
  {
    match f.htype
    case Required => slot.Single? && Holds(f, slot.value)
    case Optional => (if f.sizeOffset != 0 then slot.Opt? else slot.Single?) && Holds(f, slot.value)
    case Repeated => slot.Items? && |slot.items| <= f.arraySize && forall k :: 0 <= k < |slot.items| ==> TypedValue(f, slot.items[k])
    case OneOf => slot.Union? && (slot.which == f.tag ==> TypedValue(f, slot.value)) && (slot.which == 0 ==> slot.value == NoValue)
  }

  /** The which-tag of a union is zero or the tag of one of its members. */
  predicate KnownMember(fields: seq<Field>, a: int, which: nat) {
    which == 0 || exists j :: 0 <= j < |fields| && DataAddress(fields, j) == a && fields[j].tag == which
  }

  /**
   A struct of the described type, whatever its contents. A struct without fields has a byte that no
   field describes; the decoder may write it.
   */
  predicate Typed(fields: seq<Field>, m: Message)
    decreases fields, 3
  {
    && (m.Keys == Addresses(fields) || fields == [])
    && (forall i :: 0 <= i < |fields| ==>
          TypedSlot(fields[i], SlotAt(m, DataAddress(fields, i))))
    && (forall i :: 0 <= i < |fields| && fields[i].htype.OneOf? && SlotAt(m, DataAddress(fields, i)).Union? ==>
          KnownMember(fields, DataAddress(fields, i), SlotAt(m, DataAddress(fields, i)).which))
  }
}

/**
 What the decoder computes, as functions of the bytes left in the stream and of the state that
 the field loop keeps. The decoder itself, which works in place, is in `Decoder`.
 */
module Decoding {
  import opened Bits
  import opened Wire
  import opened Descriptor
  import opened Options

  // ---------------------------------------------------------------------------------------
  // Single values
  // ---------------------------------------------------------------------------------------

  predicate IntWidth(n: nat) {
    n == 1 || n == 2 || n == 4 || n == 8
  }

  /** The value after a cast to a signed type of `width` bytes. */
  function CastSigned(v: int, width: nat): int
    requires IntWidth(width)
  {
    SignedBits(Unsigned64(v), 8 * width)
  }

  /** Fields of at most 32 bits are cast to `int32_t` first; what then does not fit is refused. */
  function NarrowSigned(u: nat, width: nat): Option<int>
    requires u < TWO64
  {
    if !IntWidth(width) then None
    else
      var v := if width == 8 then SignedBits(u, 64) else SignedBits(u, 32);
      if CastSigned(v, width) == v then Some(v) else None
  }

  function NarrowUnsigned(u: nat, width: nat): Option<int> {
    if IntWidth(width) && Low(u, 8 * width) == u then Some(u) else None
  }

  function NarrowZigZag(u: nat, width: nat): Option<int>
    requires u < TWO64
  {
    if IntWidth(width) && CastSigned(UnZigZag(u), width) == UnZigZag(u) then Some(UnZigZag(u)) else None
  }

  /** The bytes up to the first NUL. */
  function CString(s: seq<byte>): (r: seq<byte>)
    ensures |r| <= |s| && 0 !in r
  {
    if s == [] || s[0] == 0 then [] else [s[0]] + CString(s[1..])
  }

  function IntResult(v: Option<int>, used: nat): Parsed<Value> {
    if v.Some? then Ok(Int(v.value), used) else Fail
  }

  lemma {:induction false} Varint64FromRange(s: seq<byte>, bitpos: nat, result: nat)
    requires Varint64From(s, bitpos, result).Ok? && bitpos % 7 == 0 && result < Shl(1, bitpos)
    ensures Varint64From(s, bitpos, result).value < TWO64
    decreases |s|
  {
    hide Or, Low, Shl;
    var g := s[0] % 128;
    assert GroupPosition(bitpos);
    Group64(bitpos, result, g);
    ShlConstants(1);
    if bitpos < 63 { ShlGrows(1, bitpos + 7, 63); } else { ShlConstants(g % 2); }
    if s[0] >= 128 { Varint64FromRange(s[1..], bitpos + 7, Or(result, Low(Shl(g, bitpos), 64))); }
  }

  /** The 64-bit decoder with its range: what it returns is a `uint64_t`. */
  function ReadVarint(s: seq<byte>): (r: Parsed<nat>)
    ensures r.Ok? ==> 1 <= r.used <= |s| && r.value < TWO64
  {
    if Varint64(s).Ok? then assert Varint64(s).value < TWO64 by { Varint64FromRange(s, 0, 0); } Varint64(s) else Fail
  }

  /** One value of a type that is not a submessage. */
  function DecodeScalar(f: Field, s: seq<byte>): (r: Parsed<Value>)
    ensures r.Ok? ==> r.used <= |s| && (Packable(f) ==> r.used > 0)
  {
    match f.ltype
    case TBool =>
      (match Varint32(s) case Fail => Fail case Ok(v, n) => Ok(Int(if v != 0 then 1 else 0), n))
    case TVarint =>
      (match ReadVarint(s) case Fail => Fail case Ok(v, n) => IntResult(NarrowSigned(v, f.dataSize), n))
    case TUVarint =>
      (match ReadVarint(s) case Fail => Fail case Ok(v, n) => IntResult(NarrowUnsigned(v, f.dataSize), n))
    case TSVarint =>
      (match ReadVarint(s) case Fail => Fail case Ok(v, n) => IntResult(NarrowZigZag(v, f.dataSize), n))
    case TFixed32 => if |s| < 4 then Fail else Ok(Int(FromLittleEndian(s[..4])), 4)
    case TFixed64 => if |s| < 8 then Fail else Ok(Int(FromLittleEndian(s[..8])), 8)
    case TBytes => DecodeBytes(f, s)
    case TString => DecodeString(f, s)
    case TFixedLengthBytes => DecodeFixedLengthBytes(f, s)
    case TSubmessage(_) => Fail
  }

  function DecodeBytes(f: Field, s: seq<byte>): (r: Parsed<Value>)
    ensures r.Ok? ==> r.used <= |s|
  {
    match Varint32(s)
    case Fail => Fail
    case Ok(size, n) =>
      if size > PB_SIZE_MAX || size + BYTES_HEADER > f.dataSize || |s| - n < size then Fail
      else Ok(Blob(s[n..n + size]), n + size)
  }

  /** There must be room for the NUL, which is written behind what was read. */
  function DecodeString(f: Field, s: seq<byte>): (r: Parsed<Value>)
    ensures r.Ok? ==> r.used <= |s|
  {
    match Varint32(s)
    case Fail => Fail
    case Ok(size, n) =>
      if size + 1 > f.dataSize || |s| - n < size then Fail
      else Ok(Blob(CString(s[n..n + size])), n + size)
  }

  /** No bytes at all stand for all zeros. */
  function DecodeFixedLengthBytes(f: Field, s: seq<byte>): (r: Parsed<Value>)
    ensures r.Ok? ==> r.used <= |s|
  {
    match Varint32(s)
    case Fail => Fail
    case Ok(size, n) =>
      if size > PB_SIZE_MAX then Fail
      else if size == 0 then Ok(Blob(Zeros(f.dataSize)), n)
      else if size != f.dataSize || |s| - n < size then Fail
      else Ok(Blob(s[n..n + size]), n + size)
  }

  /** The content of a length-delimited record: the substream that is opened on it. */
  function Substream(s: seq<byte>): (r: Parsed<seq<byte>>)
    ensures r.Ok? ==> |r.value| < r.used <= |s|
  {
    match Varint32(s)
    case Fail => Fail
    case Ok(size, n) => if |s| - n < size then Fail else Ok(s[n..n + size], n + size)
  }

  // ---------------------------------------------------------------------------------------
  // Arrays
  // ---------------------------------------------------------------------------------------

  /** An array and how many of its entries have been received. */
  datatype Array = Array(items: seq<Value>, count: nat)

  /** Writes the next entry. */
  function Store(arr: Array, v: Value): Array {
    Array(if arr.count < |arr.items| then arr.items[arr.count := v] else arr.items + [v], arr.count + 1)
  }

  /** All entries of a packed array, to the end of the substream. */
  function DecodePacked(f: Field, s: seq<byte>, arr: Array): Option<Array>
    requires Packable(f)
    decreases |s|
  {
    if |s| == 0 then Some(arr)
    else if arr.count >= f.arraySize then None
    else match DecodeScalar(f, s)
      case Fail => None
      case Ok(v, n) => DecodePacked(f, s[n..], Store(arr, v))
  }

  // ---------------------------------------------------------------------------------------
  // Records
  // ---------------------------------------------------------------------------------------

  /**
   What the field loop keeps: the struct, the indexes of the required fields that have been
   seen, and the fixed-count field that is being received with the number of its entries so far.
   */
  datatype Progress = Progress(msg: Message, seen: set<nat>, fixedField: Option<nat>, fixedCount: nat)

  function Start(msg: Message): Progress {
    Progress(msg, {}, None, 0)
  }

  /** The field with this tag. On an empty descriptor, tag 0 is found at the terminator. */
  function FindField(fields: seq<Field>, tag: nat): (r: Option<nat>)
    ensures r.Some? ==> FieldAt(fields, r.value).tag == tag && (r.value < |fields| || (fields == [] && r.value == 0))
    ensures r.None? ==> forall i :: 0 <= i < |fields| ==> fields[i].tag != tag
  {
    if fields == [] then (if tag == 0 then Some(0) else None)
    else FindFrom(fields, tag, 0)
  }

  function FindFrom(fields: seq<Field>, tag: nat, i: nat): (r: Option<nat>)
    requires i <= |fields|
    ensures r.Some? ==> i <= r.value < |fields| && fields[r.value].tag == tag
    ensures r.None? ==> forall j :: i <= j < |fields| ==> fields[j].tag != tag
    decreases |fields| - i
  {
    if i == |fields| then None
    else if fields[i].tag == tag then Some(i)
    else FindFrom(fields, tag, i + 1)
  }

  /** Whether the fixed-count field that is being received is complete. */
  predicate FixedComplete(fields: seq<Field>, st: Progress) {
    st.fixedField.None? || st.fixedCount == FieldAt(fields, st.fixedField.value).arraySize
  }

  /** A record of a fixed-count field starts at zero unless it continues the field before it. */
  function EnterFixed(fields: seq<Field>, i: nat, st: Progress): Option<Progress> {
    if FixedCount(FieldAt(fields, i)) && st.fixedField != Some(i) then
      if FixedComplete(fields, st) then Some(st.(fixedField := Some(i), fixedCount := 0)) else None
    else Some(st)
  }

  /** Only the first 64 required fields are tracked. */
  function MarkSeen(fields: seq<Field>, i: nat, st: Progress): Progress {
    if FieldAt(fields, i).htype.Required? && RequiredIndex(fields, i) < PB_MAX_REQUIRED_FIELDS
    then st.(seen := st.seen + {RequiredIndex(fields, i)})
    else st
  }

  /** The array of a repeated field and its count: in the struct, or in the loop for a fixed count. */
  function ArrayOf(f: Field, slot: Slot, fixedCount: nat): Array {
    Array(ItemsIn(slot), if FixedCount(f) then fixedCount else |ItemsIn(slot)|)
  }

  /** The value a field of a oneof starts from: its own, or defaults when another member was stored. */
  function MemberStart(f: Field, slot: Slot): Value {
    if slot.Union? && slot.which == f.tag then slot.value
    else if f.ltype.TSubmessage? then Msg(Defaults(f.ltype.fields))
    else NoValue
  }

  /** The new slot of a field and the fixed count after one record of that field. */
  datatype Stored = Stored(slot: Slot, fixedCount: nat)

  function StoredArray(f: Field, arr: Array, fixedCount: nat): Stored {
    Stored(Items(arr.items), if FixedCount(f) then arr.count else fixedCount)
  }

  function DecodeElement(f: Field, s: seq<byte>, prior: Value): (r: Parsed<Value>)
    ensures r.Ok? ==> r.used <= |s|
    decreases |s|, 0
  {
    match f.ltype
    case TSubmessage(sub) =>
      (match Substream(s)
       case Fail => Fail
       case Ok(content, n) =>
         match DecodeNoInit(sub, content, if f.htype.Repeated? then Defaults(sub) else MessageIn(prior))
         case Fail => Fail
         case Ok(m, _) => Ok(Msg(m), n))
    case _ => DecodeScalar(f, s)
  }

  /** `decode_static_field`: the payload of one record, by the repetition rule of the field. */
  function DecodeStatic(f: Field, wireType: nat, s: seq<byte>, slot: Slot, fixedCount: nat): (r: Parsed<Stored>)
    ensures r.Ok? ==> r.used <= |s|
    decreases |s|, 1
  {
    match f.htype
    case Required =>
      (match DecodeElement(f, s, ValueIn(slot))
       case Fail => Fail
       case Ok(v, n) => Ok(Stored(Single(v), fixedCount), n))
    case Optional =>
      (match DecodeElement(f, s, ValueIn(slot))
       case Fail => Fail
       case Ok(v, n) => Ok(Stored(if f.sizeOffset != 0 then Opt(true, v) else Single(v), fixedCount), n))
    case Repeated =>
      var arr := ArrayOf(f, slot, fixedCount);
      if wireType == WT_STRING && Packable(f) then
        (match Substream(s)
         case Fail => Fail
         case Ok(content, n) =>
           match DecodePacked(f, content, arr)
           case None => Fail
           case Some(arr') => Ok(StoredArray(f, arr', fixedCount), n))
      else if arr.count >= f.arraySize then Fail
      else
        (match DecodeElement(f, s, NoValue)
         case Fail => Fail
         case Ok(v, n) => Ok(StoredArray(f, Store(arr, v), fixedCount), n))
    case OneOf =>
      (match DecodeElement(f, s, MemberStart(f, slot))
       case Fail => Fail
       case Ok(v, n) => Ok(Stored(Union(f.tag, v), fixedCount), n))
  }

  /** The payload of a record of field `i`. */
  function DecodeField(fields: seq<Field>, i: nat, wireType: nat, s: seq<byte>, st: Progress): (r: Parsed<Progress>)
    ensures r.Ok? ==> r.used <= |s|
    decreases |s|, 2
  {
    match EnterFixed(fields, i, st)
    case None => Fail
    case Some(st1) =>
      var a := DataAddress(fields, i);
      match DecodeStatic(FieldAt(fields, i), wireType, s, SlotAt(st1.msg, a), st1.fixedCount)
      case Fail => Fail
      case Ok(stored, n) =>
        Ok(MarkSeen(fields, i, st1).(msg := st1.msg[a := stored.slot], fixedCount := stored.fixedCount), n)
  }

  /** One turn of the field loop: the end of the message, an error, or a record of `used` bytes. */
  datatype Turn = Stop(used: nat) | Error | Next(st: Progress, used: nat)

  function DecodeRecord(fields: seq<Field>, s: seq<byte>, st: Progress): (t: Turn)
    ensures !t.Error? ==> 1 <= t.used <= |s|
    decreases |s|, 3
  {
    match ReadHeader(s)
    case BadHeader => Error
    case EndOfMessage(n) => Stop(n)
    case Header(tag, wireType, n) =>
      match FindField(fields, tag)
      case None =>
        (match SkipField(s[n..], wireType)
         case Fail => Error
         case Ok(_, k) => Next(st, n + k))
      case Some(i) =>
        (match DecodeField(fields, i, wireType, s[n..], st)
         case Fail => Error
         case Ok(st', k) => Next(st', n + k))
  }

  function DecodeLoop(fields: seq<Field>, s: seq<byte>, st: Progress): (r: Parsed<Progress>)
    ensures r.Ok? ==> r.used <= |s|
    decreases |s|, 4
  {
    if |s| == 0 then Ok(st, 0)
    else match DecodeRecord(fields, s, st)
      case Stop(n) => Ok(st, n)
      case Error => Fail
      case Next(st', n) =>
        match DecodeLoop(fields, s[n..], st')
        case Fail => Fail
        case Ok(st'', k) => Ok(st'', n + k)
  }

  /** Every required field that is tracked has been seen. */
  predicate RequiredSeen(fields: seq<Field>, seen: set<nat>) {
    forall i :: 0 <= i < |fields| && fields[i].htype.Required? && RequiredIndex(fields, i) < PB_MAX_REQUIRED_FIELDS
      ==> RequiredIndex(fields, i) in seen
  }

  /** `pb_decode_noinit`: merges the message in `s` into `msg`. */
  function DecodeNoInit(fields: seq<Field>, s: seq<byte>, msg: Message): (r: Parsed<Message>)
    ensures r.Ok? ==> r.used <= |s|
    decreases |s|, 5
  {
    match DecodeLoop(fields, s, Start(msg))
    case Fail => Fail
    case Ok(st, n) =>
      if FixedComplete(fields, st) && RequiredSeen(fields, st.seen) then Ok(st.msg, n) else Fail
  }

  /** `pb_decode`: the struct is set to defaults first. */
  function Decode(fields: seq<Field>, s: seq<byte>, msg: Message): (r: Parsed<Message>)
    ensures r.Ok? ==> r.used <= |s|
  {
    DecodeNoInit(fields, s, msg + Defaults(fields))
  }
}

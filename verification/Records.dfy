/**
 A message is a sequence of records, and decoding it is a fold over them. From that follow the
 laws of the wire format: concatenation merges, unknown records are transparent, records of
 different fields commute, and a packed array is the same as its elements one by one.
 */
module Records {
  import opened Wire
  import opened Descriptor
  import opened Decoding
  import opened Options

  // ---------------------------------------------------------------------------------------
  // What a decoder does depends only on the bytes it uses
  // ---------------------------------------------------------------------------------------

  lemma SliceSame(s: seq<byte>, s2: seq<byte>, n: nat, i: nat, j: nat)
    requires SameUpTo(s, s2, n) && i <= j <= n
    ensures s[i..j] == s2[i..j]
  {
    assert s[i..j] == s[..n][i..j];
    assert s2[i..j] == s2[..n][i..j];
  }

  lemma SubstreamDepends(s: seq<byte>, s2: seq<byte>)
    requires Substream(s).Ok? && SameUpTo(s, s2, Substream(s).used)
    ensures Substream(s2) == Substream(s)
  {
    var n := Varint32(s).used;
    PrefixSame(s, s2, Substream(s).used, n);
    Varint32Depends(s, s2);
    SliceSame(s, s2, Substream(s).used, n, Substream(s).used);
  }

  lemma PrefixSame(s: seq<byte>, s2: seq<byte>, n: nat, k: nat)
    requires SameUpTo(s, s2, n) && k <= n
    ensures SameUpTo(s, s2, k)
  {
    SliceSame(s, s2, n, 0, k);
  }

  lemma ReadVarintDepends(s: seq<byte>, s2: seq<byte>)
    requires ReadVarint(s).Ok? && SameUpTo(s, s2, ReadVarint(s).used)
    ensures ReadVarint(s2) == ReadVarint(s)
  {
    Varint64FromDepends(s, s2, 0, 0);
  }

  /** `f` has a length prefix: its scalar decoder reads a length and then that many bytes. */
  lemma BlobDepends(f: Field, s: seq<byte>, s2: seq<byte>)
    requires f.ltype.TBytes? || f.ltype.TString? || f.ltype.TFixedLengthBytes?
    requires DecodeScalar(f, s).Ok? && SameUpTo(s, s2, DecodeScalar(f, s).used)
    ensures DecodeScalar(f, s2) == DecodeScalar(f, s)
  {
    var n := Varint32(s).used;
    var used := DecodeScalar(f, s).used;
    PrefixSame(s, s2, used, n);
    Varint32Depends(s, s2);
    SliceSame(s, s2, used, n, used);
  }

  lemma ScalarDepends(f: Field, s: seq<byte>, s2: seq<byte>)
    requires DecodeScalar(f, s).Ok? && SameUpTo(s, s2, DecodeScalar(f, s).used)
    ensures DecodeScalar(f, s2) == DecodeScalar(f, s)
  {
    match f.ltype
    case TBool => Varint32Depends(s, s2);
    case TVarint => ReadVarintDepends(s, s2);
    case TUVarint => ReadVarintDepends(s, s2);
    case TSVarint => ReadVarintDepends(s, s2);
    case TFixed32 =>
    case TFixed64 =>
    case TBytes => BlobDepends(f, s, s2);
    case TString => BlobDepends(f, s, s2);
    case TFixedLengthBytes => BlobDepends(f, s, s2);
  }

  lemma ElementDepends(f: Field, s: seq<byte>, s2: seq<byte>, prior: Value)
    requires DecodeElement(f, s, prior).Ok? && SameUpTo(s, s2, DecodeElement(f, s, prior).used)
    ensures DecodeElement(f, s2, prior) == DecodeElement(f, s, prior)
  {
    if f.ltype.TSubmessage? { SubstreamDepends(s, s2); } else { ScalarDepends(f, s, s2); }
  }

  lemma StaticDepends(f: Field, wireType: nat, s: seq<byte>, s2: seq<byte>, slot: Slot, count: nat)
    requires DecodeStatic(f, wireType, s, slot, count).Ok?
    requires SameUpTo(s, s2, DecodeStatic(f, wireType, s, slot, count).used)
    ensures DecodeStatic(f, wireType, s2, slot, count) == DecodeStatic(f, wireType, s, slot, count)
  {
    match f.htype
    case Required => ElementDepends(f, s, s2, ValueIn(slot));
    case Optional => ElementDepends(f, s, s2, ValueIn(slot));
    case Repeated =>
      if wireType == WT_STRING && Packable(f) { SubstreamDepends(s, s2); } else { ElementDepends(f, s, s2, NoValue); }
    case OneOf => ElementDepends(f, s, s2, MemberStart(f, slot));
  }

  lemma FieldDepends(fields: seq<Field>, i: nat, wireType: nat, s: seq<byte>, s2: seq<byte>, st: Progress)
    requires DecodeField(fields, i, wireType, s, st).Ok?
    requires SameUpTo(s, s2, DecodeField(fields, i, wireType, s, st).used)
    ensures DecodeField(fields, i, wireType, s2, st) == DecodeField(fields, i, wireType, s, st)
  {
    var st1 := EnterFixed(fields, i, st).value;
    StaticDepends(FieldAt(fields, i), wireType, s, s2, SlotAt(st1.msg, DataAddress(fields, i)), st1.fixedCount);
  }

  lemma RecordDepends(fields: seq<Field>, s: seq<byte>, s2: seq<byte>, st: Progress)
    requires !DecodeRecord(fields, s, st).Error? && SameUpTo(s, s2, DecodeRecord(fields, s, st).used)
    ensures DecodeRecord(fields, s2, st) == DecodeRecord(fields, s, st)
  {
    var used := DecodeRecord(fields, s, st).used;
    var h := ReadHeader(s);
    PrefixSame(s, s2, used, h.used);
    ReadHeaderDepends(s, s2);
    if h.Header? {
      TailSame(s, s2, used, h.used);
      match FindField(fields, h.tag)
      case None => SkipFieldDepends(s[h.used..], s2[h.used..], h.wireType);
      case Some(i) => FieldDepends(fields, i, h.wireType, s[h.used..], s2[h.used..], st);
    }
  }

  // ---------------------------------------------------------------------------------------
  // The fold
  // ---------------------------------------------------------------------------------------

  /** Decodes all of `s` as records; `None` if one fails or an end-of-message header is met. */
  function Through(fields: seq<Field>, s: seq<byte>, st: Progress): Option<Progress>
    decreases |s|
  {
    if |s| == 0 then Some(st)
    else match DecodeRecord(fields, s, st)
      case Next(st', n) => Through(fields, s[n..], st')
      case _ => None
  }

  function Shift(r: Parsed<Progress>, n: nat): Parsed<Progress> {
    match r
    case Fail => Fail
    case Ok(st, k) => Ok(st, n + k)
  }

  lemma {:induction false} ThroughConcat(fields: seq<Field>, a: seq<byte>, b: seq<byte>, st: Progress)
    requires Through(fields, a, st).Some?
    ensures Through(fields, a + b, st) == Through(fields, b, Through(fields, a, st).value)
    ensures DecodeLoop(fields, a + b, st) == Shift(DecodeLoop(fields, b, Through(fields, a, st).value), |a|)
    decreases |a|
  {
    hide DecodeRecord;
    if |a| == 0 {
      assert a + b == b;
    } else {
      var t := DecodeRecord(fields, a, st);
      RecordDepends(fields, a, a + b, st);
      assert (a + b)[t.used..] == a[t.used..] + b;
      ThroughConcat(fields, a[t.used..], b, t.st);
    }
  }

  /** A run through all of `a` is a run of the loop that does not stop early. */
  lemma {:induction false} ThroughIsLoop(fields: seq<Field>, a: seq<byte>, st: Progress)
    requires Through(fields, a, st).Some?
    ensures DecodeLoop(fields, a, st) == Ok(Through(fields, a, st).value, |a|)
  {
    ThroughConcat(fields, a, [], st);
    assert a + [] == a;
  }

  lemma OneRecord(fields: seq<Field>, r: seq<byte>, st: Progress)
    requires DecodeRecord(fields, r, st).Next? && DecodeRecord(fields, r, st).used == |r|
    ensures Through(fields, r, st) == Some(DecodeRecord(fields, r, st).st)
  {
    assert r[|r|..] == [];
  }

  /** A header of zero ends a message, as the end of the input does; what follows is left in the stream. */
  lemma ZeroEndsMessage(fields: seq<Field>, a: seq<byte>, rest: seq<byte>, msg: Message)
    requires Through(fields, a, Start(msg)).Some?
    ensures DecodeNoInit(fields, a + ([0] + rest), msg)
         == if DecodeNoInit(fields, a, msg).Ok? then Ok(DecodeNoInit(fields, a, msg).value, |a| + 1) else Fail
  {
    hide Through, FixedComplete, RequiredSeen, DecodeLoop;
    ThroughIsLoop(fields, a, Start(msg));
    ThroughConcat(fields, a, [0] + rest, Start(msg));
    ZeroStops(fields, rest, Through(fields, a, Start(msg)).value);
  }

  lemma ZeroStops(fields: seq<Field>, rest: seq<byte>, st: Progress)
    ensures DecodeLoop(fields, [0] + rest, st) == Ok(st, 1)
  {
    ReadHeaderOfZero(rest);
  }

  lemma ReadHeaderOfZero(rest: seq<byte>)
    ensures ReadHeader([0] + rest) == EndOfMessage(1)
  {
    assert ([0] + rest)[0] == 0;
  }

  // ---------------------------------------------------------------------------------------
  // Unknown records are transparent
  // ---------------------------------------------------------------------------------------

  /**
   A record whose non-zero tag is not in the descriptor, with a payload of its wire type, can be
   put between two records: neither the message nor the result changes.
   */
  lemma UnknownTransparent(fields: seq<Field>, a: seq<byte>, header: seq<byte>, payload: seq<byte>, b: seq<byte>, msg: Message)
    requires Through(fields, a, Start(msg)).Some?
    requires ReadHeader(header).Header? && ReadHeader(header).used == |header|
    requires FindField(fields, ReadHeader(header).tag).None?
    requires Payload(payload, ReadHeader(header).wireType)
    ensures match DecodeNoInit(fields, a + b, msg)
            case Fail => DecodeNoInit(fields, a + (header + payload + b), msg).Fail?
            case Ok(m, n) =>
              DecodeNoInit(fields, a + (header + payload + b), msg) == Ok(m, n + |header + payload|)
  {
    var st := Through(fields, a, Start(msg)).value;
    var u := header + payload;
    UnknownRecord(fields, header, payload, st);
    OneRecord(fields, u, st);
    ThroughConcat(fields, a, b, Start(msg));
    ThroughConcat(fields, a, u + b, Start(msg));
    ThroughConcat(fields, u, b, st);
  }

  lemma UnknownRecord(fields: seq<Field>, header: seq<byte>, payload: seq<byte>, st: Progress)
    requires ReadHeader(header).Header? && ReadHeader(header).used == |header|
    requires FindField(fields, ReadHeader(header).tag).None?
    requires Payload(payload, ReadHeader(header).wireType)
    ensures DecodeRecord(fields, header + payload, st) == Next(st, |header + payload|)
  {
    var u := header + payload;
    assert SameUpTo(header, u, |header|) by { assert u[..|header|] == header == header[..|header|]; }
    ReadHeaderDepends(header, u);
    assert u[|header|..] == payload;
    assert payload[..|payload|] == payload;
    SkipFieldExact(payload, ReadHeader(header).wireType, |payload|);
  }

  // ---------------------------------------------------------------------------------------
  // Concatenation is merge
  // ---------------------------------------------------------------------------------------

  /** The field that the first record of `s` belongs to. */
  function HitField(fields: seq<Field>, s: seq<byte>): Option<nat> {
    match ReadHeader(s)
    case Header(tag, _, _) => FindField(fields, tag)
    case _ => None
  }

  predicate HitsFixed(fields: seq<Field>, s: seq<byte>) {
    HitField(fields, s).Some? && FixedCount(FieldAt(fields, HitField(fields, s).value))
  }

  /** The fixed-count field that a run meets first. */
  function FirstFixed(fields: seq<Field>, s: seq<byte>, st: Progress): Option<nat>
    decreases |s|
  {
    if |s| == 0 then None
    else if HitsFixed(fields, s) then HitField(fields, s)
    else match DecodeRecord(fields, s, st)
      case Next(st', n) => FirstFixed(fields, s[n..], st')
      case _ => None
  }

  function SeenMore(st: Progress, more: set<nat>): Progress {
    st.(seen := st.seen + more)
  }

  function TurnSeenMore(t: Turn, more: set<nat>): Turn {
    if t.Next? then Next(SeenMore(t.st, more), t.used) else t
  }

  /** What was seen before does not influence the decoding of a record. */
  lemma RecordSeenMore(fields: seq<Field>, s: seq<byte>, st: Progress, more: set<nat>)
    ensures DecodeRecord(fields, s, SeenMore(st, more)) == TurnSeenMore(DecodeRecord(fields, s, st), more)
  {
    if HitField(fields, s).Some? {
      var i := HitField(fields, s).value;
      if EnterFixed(fields, i, st).Some? {
        var st1 := EnterFixed(fields, i, st).value;
        assert EnterFixed(fields, i, SeenMore(st, more)) == Some(SeenMore(st1, more));
        var r := RequiredIndex(fields, i);
        assert st1.seen + more + {r} == st1.seen + {r} + more;
      }
    }
  }

  lemma {:induction false} LoopSeenMore(fields: seq<Field>, s: seq<byte>, st: Progress, more: set<nat>)
    ensures match DecodeLoop(fields, s, st)
            case Fail => DecodeLoop(fields, s, SeenMore(st, more)).Fail?
            case Ok(st', n) => DecodeLoop(fields, s, SeenMore(st, more)) == Ok(SeenMore(st', more), n)
    decreases |s|
  {
    if |s| > 0 {
      RecordSeenMore(fields, s, st, more);
      var t := DecodeRecord(fields, s, st);
      if t.Next? { LoopSeenMore(fields, s[t.used..], t.st, more); }
    }
  }

  function WithFixed(st: Progress, field: Option<nat>, count: nat): Progress {
    st.(fixedField := field, fixedCount := count)
  }

  lemma StaticOffFixed(f: Field, wireType: nat, s: seq<byte>, slot: Slot, count: nat, count2: nat)
    requires !FixedCount(f)
    ensures var r, r2 := DecodeStatic(f, wireType, s, slot, count), DecodeStatic(f, wireType, s, slot, count2);
            r.Fail? == r2.Fail? && (r.Ok? ==>
              r.value.fixedCount == count && r2 == Ok(Stored(r.value.slot, count2), r.used))
  {
    assert ArrayOf(f, slot, count) == ArrayOf(f, slot, count2);
  }

  /** A record of a field without a fixed count leaves the fixed count alone. */
  lemma RecordOffFixed(fields: seq<Field>, s: seq<byte>, st: Progress, field: Option<nat>, count: nat)
    requires !HitsFixed(fields, s)
    ensures var t := DecodeRecord(fields, s, st);
            var t2 := DecodeRecord(fields, s, WithFixed(st, field, count));
            && (t.Next? ==> t2 == Next(WithFixed(t.st, field, count), t.used)
                            && t.st.fixedField == st.fixedField && t.st.fixedCount == st.fixedCount)
            && (!t.Next? ==> t2 == t)
  {
    if HitField(fields, s).Some? {
      var i := HitField(fields, s).value;
      var h := ReadHeader(s);
      StaticOffFixed(FieldAt(fields, i), h.wireType, s[h.used..], SlotAt(st.msg, DataAddress(fields, i)), st.fixedCount, count);
    }
  }

  /** Where the fixed count starts afresh, the previous fixed-count field does not matter. */
  lemma RecordOtherFixed(fields: seq<Field>, s: seq<byte>, st: Progress, field: Option<nat>, count: nat)
    requires HitsFixed(fields, s) && field != HitField(fields, s)
    requires st.fixedField.None? && FixedComplete(fields, WithFixed(st, field, count))
    ensures DecodeRecord(fields, s, WithFixed(st, field, count)) == DecodeRecord(fields, s, st)
  {
    var i := HitField(fields, s).value;
    assert EnterFixed(fields, i, WithFixed(st, field, count)) == EnterFixed(fields, i, st);
  }

  /** A run that does not meet `field` first goes as if no fixed-count field had been received before. */
  lemma {:induction false} LoopOtherFixed(fields: seq<Field>, s: seq<byte>, st: Progress, field: Option<nat>, count: nat)
    requires st.fixedField.None? && FixedComplete(fields, WithFixed(st, field, count))
    requires field.None? || FirstFixed(fields, s, st) != field
    ensures var r, r2 := DecodeLoop(fields, s, st), DecodeLoop(fields, s, WithFixed(st, field, count));
            r.Fail? == r2.Fail? && (r.Ok? ==>
              r.used == r2.used && r.value.msg == r2.value.msg && r.value.seen == r2.value.seen
              && FixedComplete(fields, r.value) == FixedComplete(fields, r2.value))
    decreases |s|
  {
    if |s| > 0 {
      var t := DecodeRecord(fields, s, st);
      if HitsFixed(fields, s) {
        RecordOtherFixed(fields, s, st, field, count);
      } else {
        RecordOffFixed(fields, s, st, field, count);
        if t.Next? { LoopOtherFixed(fields, s[t.used..], t.st, field, count); }
      }
    }
  }

  lemma StaticFullFixed(f: Field, wireType: nat, s: seq<byte>, slot: Slot)
    requires FixedCount(f) && f.arraySize > 0
    ensures var r, r2 := DecodeStatic(f, wireType, s, slot, 0), DecodeStatic(f, wireType, s, slot, f.arraySize);
            r2.Ok? ==> r.Ok? && r.value.fixedCount == 0 && r2 == Ok(Stored(r.value.slot, f.arraySize), r.used)
  {
    if DecodeStatic(f, wireType, s, slot, f.arraySize).Ok? {
      var content := Substream(s).value;
      assert |content| == 0;
      assert DecodePacked(f, content, ArrayOf(f, slot, 0)) == Some(ArrayOf(f, slot, 0));
    }
  }

  /** On a full fixed-count field a record of that field fails or is empty. */
  lemma RecordFullFixed(fields: seq<Field>, s: seq<byte>, st: Progress, i: nat)
    requires HitField(fields, s) == Some(i) && FixedCount(FieldAt(fields, i))
    requires st.fixedField == Some(i) && st.fixedCount == 0 && FieldAt(fields, i).arraySize > 0
    ensures var t := DecodeRecord(fields, s, st);
            var t2 := DecodeRecord(fields, s, st.(fixedCount := FieldAt(fields, i).arraySize));
            t2.Error? || (t.Next? && t.st.fixedField == Some(i) && t.st.fixedCount == 0
                          && t2 == Next(t.st.(fixedCount := FieldAt(fields, i).arraySize), t.used))
  {
    var h := ReadHeader(s);
    StaticFullFixed(FieldAt(fields, i), h.wireType, s[h.used..], SlotAt(st.msg, DataAddress(fields, i)));
  }

  /** A fixed-count field that is full cannot be received again, whatever comes in between. */
  lemma {:induction false} LoopFullFixed(fields: seq<Field>, s: seq<byte>, st: Progress, i: nat)
    requires FixedCount(FieldAt(fields, i)) && FieldAt(fields, i).arraySize > 0
    requires st.fixedField == Some(i) && st.fixedCount == 0
    requires DecodeLoop(fields, s, st).Ok? && FixedComplete(fields, DecodeLoop(fields, s, st).value)
    ensures DecodeLoop(fields, s, st.(fixedCount := FieldAt(fields, i).arraySize)).Fail?
    decreases |s|
  {
    var full := FieldAt(fields, i).arraySize;
    var t := DecodeRecord(fields, s, st);
    assert t.Next?;
    if !HitsFixed(fields, s) {
      RecordOffFixed(fields, s, st, Some(i), full);
      LoopFullFixed(fields, s[t.used..], t.st, i);
    } else {
      assert HitField(fields, s) == Some(i);
      RecordFullFixed(fields, s, st, i);
      if DecodeRecord(fields, s, st.(fixedCount := full)).Next? { LoopFullFixed(fields, s[t.used..], t.st, i); }
    }
  }

  /** A run that meets the fixed-count field that is already full first, fails. */
  lemma {:induction false} LoopSameFixed(fields: seq<Field>, s: seq<byte>, st: Progress, i: nat)
    requires WellFormed(fields) && st.fixedField.None?
    requires FirstFixed(fields, s, st) == Some(i)
    requires DecodeLoop(fields, s, st).Ok? && FixedComplete(fields, DecodeLoop(fields, s, st).value)
    ensures DecodeLoop(fields, s, WithFixed(st, Some(i), FieldAt(fields, i).arraySize)).Fail?
    decreases |s|
  {
    var full := FieldAt(fields, i).arraySize;
    if HitsFixed(fields, s) {
      assert WellFormedField(fields[i]);
      var st0 := WithFixed(st, Some(i), 0);
      assert DecodeRecord(fields, s, st) == DecodeRecord(fields, s, st0) by {
        assert EnterFixed(fields, i, st) == Some(st0) == EnterFixed(fields, i, st0);
      }
      assert DecodeLoop(fields, s, st0) == DecodeLoop(fields, s, st);
      LoopFullFixed(fields, s, st0, i);
    } else {
      RecordOffFixed(fields, s, st, Some(i), full);
      var t := DecodeRecord(fields, s, st);
      LoopSameFixed(fields, s[t.used..], t.st, i);
    }
  }

  /** The fixed-count field that a successful decoding of `a` ends with. */
  function LastFixed(fields: seq<Field>, a: seq<byte>, msg: Message): Option<nat> {
    match Through(fields, a, Start(msg))
    case None => None
    case Some(st) => st.fixedField
  }

  /**
   Concatenation is merge. When `a` decodes without an end marker and then `b` decodes into the
   result, their concatenation decodes to the same message, unless `b` starts the fixed-count
   field that `a` has just completed. Then, and only then, the concatenation is refused.
   */
  lemma ConcatenationMerges(fields: seq<Field>, a: seq<byte>, b: seq<byte>, msg: Message)
    requires WellFormed(fields) && Through(fields, a, Start(msg)).Some?
    requires DecodeNoInit(fields, a, msg).Ok?
    requires DecodeNoInit(fields, b, DecodeNoInit(fields, a, msg).value).Ok?
    ensures var first := DecodeNoInit(fields, a, msg);
            var second := DecodeNoInit(fields, b, first.value);
            var last := LastFixed(fields, a, msg);
            DecodeNoInit(fields, a + b, msg) ==
              if last.Some? && FirstFixed(fields, b, Start(first.value)) == last then Fail
              else Ok(second.value, |a| + second.used)
  {
    var st := Through(fields, a, Start(msg)).value;
    ThroughIsLoop(fields, a, Start(msg));
    ThroughConcat(fields, a, b, Start(msg));
    var anew := Start(st.msg);
    var seen := SeenMore(anew, st.seen);
    assert WithFixed(seen, st.fixedField, st.fixedCount) == st;
    FirstFixedSeenMore(fields, b, anew, st.seen);
    LoopSeenMore(fields, b, anew, st.seen);
    if st.fixedField.Some? && FirstFixed(fields, b, anew) == st.fixedField {
      LoopSameFixed(fields, b, seen, st.fixedField.value);
    } else {
      LoopOtherFixed(fields, b, seen, st.fixedField, st.fixedCount);
    }
  }

  lemma {:induction false} FirstFixedSeenMore(fields: seq<Field>, s: seq<byte>, st: Progress, more: set<nat>)
    ensures FirstFixed(fields, s, SeenMore(st, more)) == FirstFixed(fields, s, st)
    decreases |s|
  {
    if |s| > 0 && !HitsFixed(fields, s) {
      RecordSeenMore(fields, s, st, more);
      var t := DecodeRecord(fields, s, st);
      if t.Next? { FirstFixedSeenMore(fields, s[t.used..], t.st, more); }
    }
  }

  // ---------------------------------------------------------------------------------------
  // Records of different fields commute
  // ---------------------------------------------------------------------------------------

  function Marks(fields: seq<Field>, i: nat): set<nat> {
    if FieldAt(fields, i).htype.Required? && RequiredIndex(fields, i) < PB_MAX_REQUIRED_FIELDS
    then {RequiredIndex(fields, i)} else {}
  }

  /** What `st` becomes when slot `a` is set to `slot`, `marks` are seen and the fixed count is updated. */
  function Effect(st: Progress, a: int, slot: Slot, marks: set<nat>, field: Option<nat>, count: nat): Progress {
    Progress(st.msg[a := slot], st.seen + marks, field, count)
  }

  /** A record reads and writes the slot of its field, and the fixed count if the field has one. */
  lemma FieldFrame(fields: seq<Field>, i: nat, wireType: nat, s: seq<byte>, st: Progress, st2: Progress)
    requires SlotAt(st.msg, DataAddress(fields, i)) == SlotAt(st2.msg, DataAddress(fields, i))
    requires FixedCount(FieldAt(fields, i)) ==> st.fixedField == st2.fixedField && st.fixedCount == st2.fixedCount
    ensures var r, r2 := DecodeField(fields, i, wireType, s, st), DecodeField(fields, i, wireType, s, st2);
            var a := DataAddress(fields, i);
            r.Fail? == r2.Fail? && (r.Ok? ==>
              && r.used == r2.used
              && a in r.value.msg
              && r.value == Effect(st, a, r.value.msg[a], Marks(fields, i), r.value.fixedField, r.value.fixedCount)
              && (if FixedCount(FieldAt(fields, i))
                  then r2.value == Effect(st2, a, r.value.msg[a], Marks(fields, i), r.value.fixedField, r.value.fixedCount)
                  else r2.value == Effect(st2, a, r.value.msg[a], Marks(fields, i), st2.fixedField, st2.fixedCount)
                       && r.value.fixedField == st.fixedField && r.value.fixedCount == st.fixedCount))
  {
    if !FixedCount(FieldAt(fields, i)) {
      StaticOffFixed(FieldAt(fields, i), wireType, s, SlotAt(st.msg, DataAddress(fields, i)), st.fixedCount, st2.fixedCount);
    }
    assert st.seen + {} == st.seen && st2.seen + {} == st2.seen;
  }

  lemma EffectsCommute(st: Progress, a: int, x: Slot, ma: set<nat>, b: int, y: Slot, mb: set<nat>, field: Option<nat>, count: nat)
    requires a != b
    ensures Effect(Effect(st, a, x, ma, field, count), b, y, mb, field, count)
         == Effect(Effect(st, b, y, mb, field, count), a, x, ma, field, count)
  {
    assert st.msg[a := x][b := y] == st.msg[b := y][a := x];
    assert st.seen + ma + mb == st.seen + mb + ma;
  }

  /** The two records belong to different slots and not both to fixed-count fields. */
  predicate Independent(fields: seq<Field>, r1: seq<byte>, r2: seq<byte>) {
    var i, j := HitField(fields, r1), HitField(fields, r2);
    i.Some? && j.Some? ==>
      DataAddress(fields, i.value) != DataAddress(fields, j.value)
      && !(FixedCount(FieldAt(fields, i.value)) && FixedCount(FieldAt(fields, j.value)))
  }

  predicate OneUnion(fields: seq<Field>, i: nat, j: nat) {
    if i <= j then SameUnion(fields, i, j) else SameUnion(fields, j, i)
  }

  /** Records of two fields that are not members of one oneof are independent, unless both have a fixed count. */
  lemma DifferentFieldsIndependent(fields: seq<Field>, r1: seq<byte>, r2: seq<byte>)
    requires WellFormed(fields) && fields != []
    requires ReadHeader(r1).Header? && ReadHeader(r2).Header? && ReadHeader(r1).tag != ReadHeader(r2).tag
    requires var i, j := HitField(fields, r1), HitField(fields, r2);
             (i.Some? && j.Some?) ==>
               !OneUnion(fields, i.value, j.value) && !(FixedCount(fields[i.value]) && FixedCount(fields[j.value]))
    ensures Independent(fields, r1, r2)
  {
    var i, j := HitField(fields, r1), HitField(fields, r2);
    if i.Some? && j.Some? {
      if i.value < j.value { AddressOrder(fields, i.value, j.value); } else { AddressOrder(fields, j.value, i.value); }
    }
  }

  lemma RecordsCommute(fields: seq<Field>, r1: seq<byte>, r2: seq<byte>, st: Progress)
    requires Independent(fields, r1, r2)
    requires var t := DecodeRecord(fields, r1, st);
             t.Next? && t.used == |r1| && DecodeRecord(fields, r2, t.st).Next? && DecodeRecord(fields, r2, t.st).used == |r2|
    ensures var t := DecodeRecord(fields, r2, st);
            t.Next? && t.used == |r2| && DecodeRecord(fields, r1, t.st).Next? && DecodeRecord(fields, r1, t.st).used == |r1|
            && DecodeRecord(fields, r1, t.st).st == DecodeRecord(fields, r2, DecodeRecord(fields, r1, st).st).st
  {
    var i, j := HitField(fields, r1), HitField(fields, r2);
    if i.Some? && j.Some? {
      var st1 := DecodeRecord(fields, r1, st).st;
      var h1, h2 := ReadHeader(r1), ReadHeader(r2);
      var a, b := DataAddress(fields, i.value), DataAddress(fields, j.value);
      FieldFrame(fields, i.value, h1.wireType, r1[h1.used..], st, st);
      FieldFrame(fields, j.value, h2.wireType, r2[h2.used..], st1, st);
      var st2 := DecodeRecord(fields, r2, st).st;
      FieldFrame(fields, i.value, h1.wireType, r1[h1.used..], st, st2);
      var end := DecodeRecord(fields, r2, st1).st;
      EffectsCommute(st, a, st1.msg[a], Marks(fields, i.value), b, end.msg[b], Marks(fields, j.value), end.fixedField, end.fixedCount);
    }
  }

  /** Two adjacent independent records that decode can be swapped: neither message nor result changes. */
  lemma OrderIndependent(fields: seq<Field>, a: seq<byte>, r1: seq<byte>, r2: seq<byte>, b: seq<byte>, msg: Message)
    requires Through(fields, a, Start(msg)).Some? && Independent(fields, r1, r2)
    requires var t := DecodeRecord(fields, r1, Through(fields, a, Start(msg)).value);
             t.Next? && t.used == |r1| && DecodeRecord(fields, r2, t.st).Next? && DecodeRecord(fields, r2, t.st).used == |r2|
    ensures DecodeNoInit(fields, a + (r1 + r2 + b), msg) == DecodeNoInit(fields, a + (r2 + r1 + b), msg)
  {
    var st := Through(fields, a, Start(msg)).value;
    RecordsCommute(fields, r1, r2, st);
    ThroughConcat(fields, a, r1 + r2 + b, Start(msg));
    ThroughConcat(fields, a, r2 + r1 + b, Start(msg));
    TwoRecords(fields, r1, r2, b, st);
    TwoRecords(fields, r2, r1, b, st);
  }

  lemma TwoRecords(fields: seq<Field>, r1: seq<byte>, r2: seq<byte>, b: seq<byte>, st: Progress)
    requires var t := DecodeRecord(fields, r1, st);
             t.Next? && t.used == |r1| && DecodeRecord(fields, r2, t.st).Next? && DecodeRecord(fields, r2, t.st).used == |r2|
    ensures DecodeLoop(fields, r1 + r2 + b, st)
         == Shift(DecodeLoop(fields, b, DecodeRecord(fields, r2, DecodeRecord(fields, r1, st).st).st), |r1| + |r2|)
  {
    var st1 := DecodeRecord(fields, r1, st).st;
    OneRecord(fields, r1, st);
    OneRecord(fields, r2, st1);
    assert r1 + r2 + b == r1 + (r2 + b);
    ThroughConcat(fields, r1, r2 + b, st);
    ThroughConcat(fields, r2, b, st1);
  }

  // ---------------------------------------------------------------------------------------
  // Exactly when two records commute
  // ---------------------------------------------------------------------------------------

  /** Each of the two byte strings is decoded as one record. */
  predicate InOrder(fields: seq<Field>, r1: seq<byte>, r2: seq<byte>, st: Progress) {
    var t := DecodeRecord(fields, r1, st);
    t.Next? && t.used == |r1| && DecodeRecord(fields, r2, t.st).Next? && DecodeRecord(fields, r2, t.st).used == |r2|
  }

  function Both(fields: seq<Field>, r1: seq<byte>, r2: seq<byte>, st: Progress): Progress
    requires InOrder(fields, r1, r2, st)
  {
    DecodeRecord(fields, r2, DecodeRecord(fields, r1, st).st).st
  }

  predicate InOneUnion(fields: seq<Field>, r1: seq<byte>, r2: seq<byte>) {
    var i, j := HitField(fields, r1), HitField(fields, r2);
    i.Some? && j.Some? && OneUnion(fields, i.value, j.value)
  }

  /** A record of a union member stores its tag. */
  lemma MemberStored(fields: seq<Field>, r: seq<byte>, st: Progress, i: nat)
    requires HitField(fields, r) == Some(i) && FieldAt(fields, i).htype.OneOf? && DecodeRecord(fields, r, st).Next?
    ensures var slot := SlotAt(DecodeRecord(fields, r, st).st.msg, DataAddress(fields, i));
            slot.Union? && slot.which == FieldAt(fields, i).tag
  {
    hide DecodeStatic, DataAddress;
    var h := ReadHeader(r);
    StaticStoresTag(FieldAt(fields, i), h.wireType, r[h.used..], SlotAt(st.msg, DataAddress(fields, i)), st.fixedCount);
  }

  lemma StaticStoresTag(f: Field, wireType: nat, s: seq<byte>, slot: Slot, count: nat)
    requires f.htype.OneOf? && DecodeStatic(f, wireType, s, slot, count).Ok?
    ensures DecodeStatic(f, wireType, s, slot, count).value.slot.Union?
    ensures DecodeStatic(f, wireType, s, slot, count).value.slot.which == f.tag
  {
  }

  /** Members of one union are oneof fields at one address. */
  lemma UnionMembers(fields: seq<Field>, i: nat, j: nat)
    requires WellFormed(fields) && i < |fields| && j < |fields| && i != j && OneUnion(fields, i, j)
    ensures DataAddress(fields, i) == DataAddress(fields, j) && fields[i].htype.OneOf? && fields[j].htype.OneOf?
  {
    if i < j { AddressOrder(fields, i, j); } else { AddressOrder(fields, j, i); }
    SharedAddress(fields, i, j);
  }

  /**
   Two records with different tags, not both of fixed-count fields, that decode in one order lead to the same
   state in the other, if and only if they do not belong to members of one union.
   */
  lemma RecordsCommuteExactly(fields: seq<Field>, r1: seq<byte>, r2: seq<byte>, st: Progress)
    requires WellFormed(fields) && fields != [] && InOrder(fields, r1, r2, st)
    requires ReadHeader(r1).Header? && ReadHeader(r2).Header? && ReadHeader(r1).tag != ReadHeader(r2).tag
    requires !(HitsFixed(fields, r1) && HitsFixed(fields, r2))
    ensures InOrder(fields, r2, r1, st) && Both(fields, r2, r1, st) == Both(fields, r1, r2, st) <==> !InOneUnion(fields, r1, r2)
  {
    hide DecodeRecord, OneUnion, Independent, DataAddress;
    var i, j := HitField(fields, r1), HitField(fields, r2);
    if InOneUnion(fields, r1, r2) {
      UnionMembers(fields, i.value, j.value);
      MemberStored(fields, r2, DecodeRecord(fields, r1, st).st, j.value);
      if InOrder(fields, r2, r1, st) {
        MemberStored(fields, r1, DecodeRecord(fields, r2, st).st, i.value);
      }
    } else {
      DifferentFieldsIndependent(fields, r1, r2);
      RecordsCommute(fields, r1, r2, st);
    }
  }

  /** The payload of a record of field `i`, for a fixed count that has reached `count`. */
  function FixedStatic(fields: seq<Field>, r: seq<byte>, i: nat, slot: Slot, count: nat): Parsed<Stored>
    requires ReadHeader(r).Header?
  {
    DecodeStatic(FieldAt(fields, i), ReadHeader(r).wireType, r[ReadHeader(r).used..], slot, count)
  }

  /** What a record of a fixed-count field does when its count starts or continues at `count`. */
  lemma FixedRecord(fields: seq<Field>, r: seq<byte>, i: nat, st: Progress, count: nat)
    requires HitField(fields, r) == Some(i) && FixedCount(FieldAt(fields, i))
    requires EnterFixed(fields, i, st) == Some(WithFixed(st, Some(i), count))
    ensures var a := DataAddress(fields, i);
            var p := FixedStatic(fields, r, i, SlotAt(st.msg, a), count);
            DecodeRecord(fields, r, st) ==
              if p.Fail? then Error
              else Next(Progress(st.msg[a := p.value.slot], st.seen, Some(i), p.value.fixedCount), ReadHeader(r).used + p.used)
  {
    hide DecodeStatic, DataAddress;
  }

  lemma FixedRefused(fields: seq<Field>, r: seq<byte>, i: nat, st: Progress)
    requires HitField(fields, r) == Some(i) && EnterFixed(fields, i, st).None?
    ensures DecodeRecord(fields, r, st).Error?
  {
  }

  /** The same struct and the same required fields, and equally ready for the end of the message. */
  predicate SameOutcome(fields: seq<Field>, t: Progress, u: Progress) {
    t.msg == u.msg && t.seen == u.seen && (FixedComplete(fields, t) <==> FixedComplete(fields, u))
  }

  lemma FixedApart(fields: seq<Field>, i: nat, j: nat)
    requires WellFormed(fields) && i < |fields| && j < |fields| && i != j && FixedCount(fields[i]) && FixedCount(fields[j])
    ensures DataAddress(fields, i) != DataAddress(fields, j) && fields[i].arraySize > 0 && fields[j].arraySize > 0
  {
    if DataAddress(fields, i) == DataAddress(fields, j) { SharedAddress(fields, i, j); }
    assert WellFormedField(fields[i]) && WellFormedField(fields[j]);
  }

  /** How many elements are packed in `s`. */
  function PackedEntries(f: Field, s: seq<byte>): nat
    requires Packable(f)
    decreases |s|
  {
    if |s| == 0 then 0
    else match DecodeScalar(f, s)
      case Fail => 0
      case Ok(_, n) => 1 + PackedEntries(f, s[n..])
  }

  /** How many entries a record of the array `f` carries: one, or those that are packed in it. */
  function RecordEntries(f: Field, r: seq<byte>): nat
    requires ReadHeader(r).Header?
  {
    var payload := r[ReadHeader(r).used..];
    if ReadHeader(r).wireType == WT_STRING && Packable(f)
    then if Substream(payload).Ok? then PackedEntries(f, Substream(payload).value) else 0
    else 1
  }

  lemma {:induction false} PackedCounted(f: Field, s: seq<byte>, arr: Array)
    requires Packable(f) && DecodePacked(f, s, arr).Some?
    ensures DecodePacked(f, s, arr).value.count == arr.count + PackedEntries(f, s)
    decreases |s|
  {
    hide DecodeScalar;
    if |s| > 0 {
      var r := DecodeScalar(f, s);
      PackedCounted(f, s[r.used..], Store(arr, r.value));
    }
  }

  /** A record that is accepted moves the count of its array by its entries. */
  lemma EntriesCounted(fields: seq<Field>, r: seq<byte>, i: nat, slot: Slot, count: nat)
    requires ReadHeader(r).Header? && FixedCount(FieldAt(fields, i)) && FixedStatic(fields, r, i, slot, count).Ok?
    ensures FixedStatic(fields, r, i, slot, count).value.fixedCount == count + RecordEntries(FieldAt(fields, i), r)
  {
    hide DecodeElement, DecodePacked, PackedEntries;
    var f, h := FieldAt(fields, i), ReadHeader(r);
    if h.wireType == WT_STRING && Packable(f) {
      PackedCounted(f, Substream(r[h.used..]).value, ArrayOf(f, slot, count));
    }
  }

  /** Neither field was being received: the first record completes its array; the other order needs the second to do so. */
  lemma FixedAnew(fields: seq<Field>, r1: seq<byte>, r2: seq<byte>, st: Progress, i: nat, j: nat)
    requires WellFormed(fields) && i < |fields| && j < |fields| && i != j && FixedCount(fields[i]) && FixedCount(fields[j])
    requires HitField(fields, r1) == Some(i) && HitField(fields, r2) == Some(j) && InOrder(fields, r1, r2, st)
    requires st.fixedField != Some(i) && st.fixedField != Some(j)
    ensures InOrder(fields, r2, r1, st) && SameOutcome(fields, Both(fields, r1, r2, st), Both(fields, r2, r1, st))
       <==> FixedComplete(fields, Both(fields, r1, r2, st))
    ensures FixedComplete(fields, Both(fields, r1, r2, st)) <==> RecordEntries(fields[j], r2) == fields[j].arraySize
  {
    hide DecodeRecord, DataAddress, WellFormed, FixedStatic, RecordEntries;
    FixedApart(fields, i, j);
    if !FixedComplete(fields, st) { FixedRefused(fields, r1, i, st); }
    var a, b := DataAddress(fields, i), DataAddress(fields, j);
    FixedRecord(fields, r1, i, st, 0);
    var st1 := DecodeRecord(fields, r1, st).st;
    if !FixedComplete(fields, st1) { FixedRefused(fields, r2, j, st1); }
    FixedRecord(fields, r2, j, st1, 0);
    EntriesCounted(fields, r2, j, SlotAt(st1.msg, b), 0);
    FixedRecord(fields, r2, j, st, 0);
    var st2 := DecodeRecord(fields, r2, st).st;
    if FixedComplete(fields, st2) {
      FixedRecord(fields, r1, i, st2, 0);
      var x, y := st1.msg[a], st2.msg[b];
      assert st.msg[a := x][b := y] == st.msg[b := y][a := x];
    } else {
      FixedRefused(fields, r1, i, st2);
    }
  }

  /** The first field was being received: it is full, so its record is empty, and after the other field it is missing. */
  lemma FirstWasReceived(fields: seq<Field>, r1: seq<byte>, r2: seq<byte>, st: Progress, i: nat, j: nat)
    requires WellFormed(fields) && i < |fields| && j < |fields| && i != j && FixedCount(fields[i]) && FixedCount(fields[j])
    requires HitField(fields, r1) == Some(i) && HitField(fields, r2) == Some(j) && InOrder(fields, r1, r2, st)
    requires st.fixedField == Some(i) && InOrder(fields, r2, r1, st)
    ensures !FixedComplete(fields, Both(fields, r2, r1, st)) && FixedComplete(fields, Both(fields, r1, r2, st))
  {
    hide DecodeRecord, DataAddress, WellFormed, DecodeStatic;
    FixedApart(fields, i, j);
    if !FixedComplete(fields, st) { FixedRefused(fields, r2, j, st); }
    FixedRecord(fields, r1, i, st, st.fixedCount);
    var st1 := DecodeRecord(fields, r1, st).st;
    var h := ReadHeader(r1);
    StaticFullFixed(fields[i], h.wireType, r1[h.used..], SlotAt(st.msg, DataAddress(fields, i)));
    FixedRecord(fields, r2, j, st, 0);
    var st2 := DecodeRecord(fields, r2, st).st;
    if !FixedComplete(fields, st2) { FixedRefused(fields, r1, i, st2); }
    FixedRecord(fields, r1, i, st2, 0);
    FixedRecord(fields, r2, j, st1, 0);
  }

  /** The second field was being received: it is full, so its record is empty, and in the given order it is missing. */
  lemma SecondWasReceived(fields: seq<Field>, r1: seq<byte>, r2: seq<byte>, st: Progress, i: nat, j: nat)
    requires WellFormed(fields) && i < |fields| && j < |fields| && i != j && FixedCount(fields[i]) && FixedCount(fields[j])
    requires HitField(fields, r1) == Some(i) && HitField(fields, r2) == Some(j) && InOrder(fields, r1, r2, st)
    requires st.fixedField == Some(j) && InOrder(fields, r2, r1, st)
    ensures FixedComplete(fields, Both(fields, r2, r1, st)) && !FixedComplete(fields, Both(fields, r1, r2, st))
  {
    FirstWasReceived(fields, r2, r1, st, j, i);
  }

  /**
   Two records of different fixed-count fields that decode in one order have the same outcome in the other, if
   and only if they are whole arrays: the field received before them is neither of the two, and the second
   record carries as many entries as its array has. That the first does follows, since the second is accepted.
   */
  lemma FixedRecordsCommuteExactly(fields: seq<Field>, r1: seq<byte>, r2: seq<byte>, st: Progress, i: nat, j: nat)
    requires WellFormed(fields) && i < |fields| && j < |fields| && i != j && FixedCount(fields[i]) && FixedCount(fields[j])
    requires HitField(fields, r1) == Some(i) && HitField(fields, r2) == Some(j) && InOrder(fields, r1, r2, st)
    ensures InOrder(fields, r2, r1, st) && SameOutcome(fields, Both(fields, r1, r2, st), Both(fields, r2, r1, st))
       <==> RecordEntries(fields[j], r2) == fields[j].arraySize && st.fixedField != Some(i) && st.fixedField != Some(j)
  {
    hide InOrder, Both, WellFormed, FixedComplete, RecordEntries;
    if st.fixedField != Some(i) && st.fixedField != Some(j) {
      FixedAnew(fields, r1, r2, st, i, j);
    } else if InOrder(fields, r2, r1, st) {
      if st.fixedField == Some(i) {
        FirstWasReceived(fields, r1, r2, st, i, j);
      } else {
        SecondWasReceived(fields, r1, r2, st, i, j);
      }
    }
  }

  // ---------------------------------------------------------------------------------------
  // Packed and unpacked arrays
  // ---------------------------------------------------------------------------------------

  /** Elements of an array as they arrive: one in a record of its own, or several in a packed record. */
  datatype Piece = Alone(wireType: nat, element: seq<byte>) | Packed(elements: seq<seq<byte>>)

  /** The record that carries a piece of field `tag`. */
  function PieceBytes(tag: nat, p: Piece): (s: seq<byte>)
    ensures |s| >= 1
  {
    TagBytes(PieceWireType(p), tag) + PiecePayload(p)
  }

  function PieceWireType(p: Piece): nat {
    if p.Alone? then p.wireType else WT_STRING
  }

  function PiecePayload(p: Piece): seq<byte> {
    match p
    case Alone(_, element) => element
    case Packed(elements) => Varint(|Concat(elements)|) + Concat(elements)
  }

  function PiecesBytes(tag: nat, pieces: seq<Piece>): seq<byte> {
    if pieces == [] then [] else PieceBytes(tag, pieces[0]) + PiecesBytes(tag, pieces[1..])
  }

  function PieceElements(p: Piece): seq<seq<byte>> {
    match p
    case Alone(_, element) => [element]
    case Packed(elements) => elements
  }

  function Elements(pieces: seq<Piece>): seq<seq<byte>> {
    if pieces == [] then [] else PieceElements(pieces[0]) + Elements(pieces[1..])
  }

  /** Each element decodes as a value of the field's type, and no more than that. */
  predicate DecodableElements(f: Field, elements: seq<seq<byte>>) {
    forall k :: 0 <= k < |elements| ==> DecodeScalar(f, elements[k]).Ok? && DecodeScalar(f, elements[k]).used == |elements[k]|
  }

  function ElementValues(f: Field, elements: seq<seq<byte>>): (vs: seq<Value>)
    requires DecodableElements(f, elements)
    ensures |vs| == |elements|
  {
    seq(|elements|, k requires 0 <= k < |elements| => DecodeScalar(f, elements[k]).value)
  }

  predicate GoodPiece(f: Field, p: Piece) {
    && DecodableElements(f, PieceElements(p))
    && (p.Alone? ==> p.wireType < 8 && p.wireType != WT_STRING)
    && (p.Packed? ==> |Concat(p.elements)| < TWO32)
  }

  function StoreAll(arr: Array, vs: seq<Value>): Array
    decreases |vs|
  {
    if vs == [] then arr else StoreAll(Store(arr, vs[0]), vs[1..])
  }

  /** In an array that grows, storing appends. */
  lemma {:induction false} StoreAllAppends(items: seq<Value>, vs: seq<Value>)
    ensures StoreAll(Array(items, |items|), vs) == Array(items + vs, |items| + |vs|)
    decreases |vs|
  {
    if vs == [] {
      assert items + vs == items;
    } else {
      StoreAllAppends(items + [vs[0]], vs[1..]);
      assert items + [vs[0]] + vs[1..] == items + vs;
    }
  }

  /** In an array that is received again, what arrives takes the place of what was there. */
  lemma {:induction false} StoreAllOverwrites(items: seq<Value>, k: nat, vs: seq<Value>)
    requires k <= |items|
    ensures StoreAll(Array(items, k), vs)
         == Array(items[..k] + vs + (if k + |vs| < |items| then items[k + |vs|..] else []), k + |vs|)
    decreases |vs|
  {
    if vs == [] {
      assert items[..k] + vs + (if k < |items| then items[k..] else []) == items;
    } else {
      var next := Store(Array(items, k), vs[0]);
      StoreAllOverwrites(next.items, k + 1, vs[1..]);
      assert next.items[..k + 1] == items[..k] + [vs[0]];
      assert items[..k] + [vs[0]] + vs[1..] == items[..k] + vs;
      assert k + |vs| < |items| ==> next.items[k + 1 + |vs[1..]|..] == items[k + |vs|..];
    }
  }

  lemma {:induction false} StoreAllConcat(arr: Array, vs: seq<Value>, ws: seq<Value>)
    ensures StoreAll(arr, vs + ws) == StoreAll(StoreAll(arr, vs), ws)
    ensures StoreAll(arr, vs).count == arr.count + |vs|
    decreases |vs|
  {
    if vs == [] {
      assert vs + ws == ws;
    } else {
      assert (vs + ws)[1..] == vs[1..] + ws;
      StoreAllConcat(Store(arr, vs[0]), vs[1..], ws);
    }
  }

  lemma {:induction false} PackedElements(f: Field, elements: seq<seq<byte>>, arr: Array)
    requires Packable(f) && DecodableElements(f, elements) && arr.count <= f.arraySize
    ensures DecodePacked(f, Concat(elements), arr) ==
            (if arr.count + |elements| <= f.arraySize then Some(StoreAll(arr, ElementValues(f, elements))) else None)
    decreases |elements|
  {
    if elements != [] {
      var e, s := elements[0], Concat(elements);
      assert SameUpTo(e, s, |e|) by { assert s[..|e|] == e == e[..|e|]; }
      ScalarDepends(f, e, s);
      assert s[|e|..] == Concat(elements[1..]);
      var v := DecodeScalar(f, e).value;
      assert ElementValues(f, elements)[1..] == ElementValues(f, elements[1..]);
      if arr.count < f.arraySize { PackedElements(f, elements[1..], Store(arr, v)); }
    }
  }

  lemma {:induction false} FindFromUnique(fields: seq<Field>, i: nat, k: nat)
    requires WellFormed(fields) && k <= i < |fields|
    ensures FindFrom(fields, fields[i].tag, k) == Some(i)
    decreases i - k
  {
    if k < i { FindFromUnique(fields, i, k + 1); }
  }

  /** A repeated field whose array is in place and whose fixed count, if it has one, is being received. */
  predicate Receiving(fields: seq<Field>, i: nat, st: Progress) {
    && i < |fields| && fields[i].htype.Repeated?
    && EnterFixed(fields, i, st) == Some(st)
    && SlotAt(st.msg, DataAddress(fields, i)).Items?
    && Current(fields, i, st).count <= fields[i].arraySize
  }

  function Current(fields: seq<Field>, i: nat, st: Progress): Array {
    ArrayOf(FieldAt(fields, i), SlotAt(st.msg, DataAddress(fields, i)), st.fixedCount)
  }

  function Received(fields: seq<Field>, i: nat, st: Progress, arr: Array): Progress {
    st.(msg := st.msg[DataAddress(fields, i) := Items(arr.items)],
        fixedCount := if FixedCount(FieldAt(fields, i)) then arr.count else st.fixedCount)
  }

  lemma PieceHeader(wireType: nat, tag: nat, payload: seq<byte>)
    requires wireType < 8 && 0 < tag < 0x2000_0000
    ensures var s := TagBytes(wireType, tag) + payload;
            ReadHeader(s) == Header(tag, wireType, |TagBytes(wireType, tag)|) && s[|TagBytes(wireType, tag)|..] == payload
  {
    ReadHeaderInverts(wireType, tag, payload);
  }

  lemma SubstreamOf(content: seq<byte>, tail: seq<byte>)
    requires |content| < TWO32
    ensures Substream(Varint(|content|) + content + tail) == Ok(content, |Varint(|content|) + content|)
  {
    var n := |Varint(|content|)|;
    var s := Varint(|content|) + content + tail;
    assert s == Varint(|content|) + (content + tail);
    Varint32Inverts(|content|, content + tail);
    assert s[n..n + |content|] == content;
  }

  lemma ScalarThenTail(f: Field, e: seq<byte>, tail: seq<byte>)
    requires DecodeScalar(f, e).Ok? && DecodeScalar(f, e).used == |e|
    ensures DecodeScalar(f, e + tail) == DecodeScalar(f, e)
  {
    assert SameUpTo(e, e + tail, |e|) by { assert (e + tail)[..|e|] == e == e[..|e|]; }
    ScalarDepends(f, e, e + tail);
  }

  /** The turn of the loop for a record of field `i` that is being received. */
  lemma RecordOfField(fields: seq<Field>, i: nat, wireType: nat, payload: seq<byte>, st: Progress)
    requires WellFormed(fields) && i < |fields| && EnterFixed(fields, i, st).Some? && wireType < 8
    ensures var st1, header := EnterFixed(fields, i, st).value, TagBytes(wireType, fields[i].tag);
            var slot := SlotAt(st1.msg, DataAddress(fields, i));
            var r := DecodeStatic(fields[i], wireType, payload, slot, st1.fixedCount);
            DecodeRecord(fields, header + payload, st) ==
              if r.Fail? then Error
              else Next(MarkSeen(fields, i, st1).(msg := st1.msg[DataAddress(fields, i) := r.value.slot], fixedCount := r.value.fixedCount),
                        |header| + r.used)
  {
    hide Varint, Varint32, DataAddress;
    assert WellFormedField(fields[i]);
    FindFromUnique(fields, i, 0);
    PieceHeader(wireType, fields[i].tag, payload);
  }

  /** The payload of one piece stores its elements, or is refused when they do not fit. */
  lemma PieceStatic(f: Field, p: Piece, tail: seq<byte>, slot: Slot, count: nat)
    requires f.htype.Repeated? && Packable(f) && GoodPiece(f, p)
    requires slot.Items? && ArrayOf(f, slot, count).count <= f.arraySize
    ensures var r := DecodeStatic(f, PieceWireType(p), PiecePayload(p) + tail, slot, count);
            var arr, elements := ArrayOf(f, slot, count), PieceElements(p);
            r == if arr.count + |elements| <= f.arraySize
                 then Ok(StoredArray(f, StoreAll(arr, ElementValues(f, elements)), count), |PiecePayload(p)|) else Fail
  {
    match p
    case Alone(wireType, element) =>
      assert PieceElements(p)[0] == element;
      ScalarThenTail(f, element, tail);
      assert ElementValues(f, [element]) == [DecodeScalar(f, element).value];
    case Packed(elements) =>
      SubstreamOf(Concat(elements), tail);
      PackedElements(f, elements, ArrayOf(f, slot, count));
  }

  /** One piece, packed or not, stores its elements, or is refused when they do not fit. */
  lemma PieceDecodes(fields: seq<Field>, i: nat, p: Piece, tail: seq<byte>, st: Progress)
    requires WellFormed(fields) && Receiving(fields, i, st) && Packable(fields[i]) && GoodPiece(fields[i], p)
    ensures var s, arr, elements := PieceBytes(fields[i].tag, p), Current(fields, i, st), PieceElements(p);
            DecodeRecord(fields, s + tail, st) ==
              if arr.count + |elements| <= fields[i].arraySize
              then Next(Received(fields, i, st, StoreAll(arr, ElementValues(fields[i], elements))), |s|) else Error
  {
    hide DecodeStatic, DecodeRecord, DataAddress, StoreAll, Concat;
    var f := fields[i];
    assert PieceBytes(f.tag, p) + tail == TagBytes(PieceWireType(p), f.tag) + (PiecePayload(p) + tail);
    RecordOfField(fields, i, PieceWireType(p), PiecePayload(p) + tail, st);
    PieceStatic(f, p, tail, SlotAt(st.msg, DataAddress(fields, i)), st.fixedCount);
  }

  predicate GoodPieces(f: Field, pieces: seq<Piece>) {
    forall k :: 0 <= k < |pieces| ==> GoodPiece(f, pieces[k])
  }

  lemma {:induction false} ElementsDecodable(f: Field, pieces: seq<Piece>)
    requires GoodPieces(f, pieces)
    ensures DecodableElements(f, Elements(pieces))
  {
    if pieces != [] {
      assert GoodPiece(f, pieces[0]);
      ElementsDecodable(f, pieces[1..]);
    }
  }

  lemma ElementValuesSplit(f: Field, a: seq<seq<byte>>, b: seq<seq<byte>>)
    requires DecodableElements(f, a) && DecodableElements(f, b)
    ensures DecodableElements(f, a + b) && ElementValues(f, a + b) == ElementValues(f, a) + ElementValues(f, b)
  {
  }

  lemma ReceivedTwice(fields: seq<Field>, i: nat, st: Progress, arr: Array, arr2: Array)
    requires Receiving(fields, i, st) && arr.count <= fields[i].arraySize
    requires FixedCount(fields[i]) || arr.count == |arr.items|
    ensures var st' := Received(fields, i, st, arr);
            Receiving(fields, i, st') && Current(fields, i, st') == arr
            && Received(fields, i, st', arr2) == Received(fields, i, st, arr2)
  {
    var a := DataAddress(fields, i);
    assert st.msg[a := Items(arr.items)][a := Items(arr2.items)] == st.msg[a := Items(arr2.items)];
  }

  lemma {:induction false} StoreAllGrows(f: Field, arr: Array, vs: seq<Value>)
    requires FixedCount(f) || arr.count == |arr.items|
    ensures FixedCount(f) || StoreAll(arr, vs).count == |StoreAll(arr, vs).items|
    decreases |vs|
  {
    if vs != [] { StoreAllGrows(f, Store(arr, vs[0]), vs[1..]); }
  }

  lemma StoreAllNothing(arr: Array)
    ensures StoreAll(arr, []) == arr
  {
  }

  lemma LoopTurn(fields: seq<Field>, s: seq<byte>, tail: seq<byte>, st: Progress)
    requires |s| > 0
    ensures var t := DecodeRecord(fields, s + tail, st);
            && (t.Next? && t.used == |s| ==> DecodeLoop(fields, s + tail, st) == Shift(DecodeLoop(fields, tail, t.st), |s|))
            && (t.Error? ==> DecodeLoop(fields, s + tail, st).Fail?)
  {
    assert (s + tail)[|s|..] == tail;
  }

  lemma NoPieces(fields: seq<Field>, i: nat, tail: seq<byte>, st: Progress)
    requires WellFormed(fields) && Receiving(fields, i, st)
    ensures DecodeLoop(fields, [] + tail, st)
         == Shift(DecodeLoop(fields, tail, Received(fields, i, st, StoreAll(Current(fields, i, st), []))), 0)
  {
    hide DecodeRecord, DataAddress, DecodeLoop;
    var a := DataAddress(fields, i);
    var arr := Current(fields, i, st);
    StoreAllNothing(arr);
    assert a in st.msg && st.msg[a := Items(arr.items)] == st.msg;
    assert [] + tail == tail;
  }

  /** After a first piece that fits, the others store behind it. */
  lemma PieceThenOthers(fields: seq<Field>, i: nat, p: Piece, rest: seq<byte>, tail: seq<byte>, vs: seq<Value>, st: Progress)
    requires WellFormed(fields) && Receiving(fields, i, st) && Packable(fields[i]) && GoodPiece(fields[i], p)
    requires Current(fields, i, st).count + |PieceElements(p)| <= fields[i].arraySize
    ensures var arr := StoreAll(Current(fields, i, st), ElementValues(fields[i], PieceElements(p)));
            var st1 := Received(fields, i, st, arr);
            && Receiving(fields, i, st1) && Current(fields, i, st1) == arr
            && arr.count == Current(fields, i, st).count + |PieceElements(p)|
            && DecodeLoop(fields, PieceBytes(fields[i].tag, p) + rest, st)
                 == Shift(DecodeLoop(fields, rest, st1), |PieceBytes(fields[i].tag, p)|)
            && Received(fields, i, st1, StoreAll(arr, vs))
                 == Received(fields, i, st, StoreAll(Current(fields, i, st), ElementValues(fields[i], PieceElements(p)) + vs))
  {
    hide DecodeRecord, DecodeLoop, StoreAll, PieceBytes, DataAddress;
    var f, arr := fields[i], Current(fields, i, st);
    var us := ElementValues(f, PieceElements(p));
    PieceDecodes(fields, i, p, rest, st);
    LoopTurn(fields, PieceBytes(f.tag, p), rest, st);
    StoreAllConcat(arr, us, vs);
    StoreAllGrows(f, arr, us);
    ReceivedTwice(fields, i, st, StoreAll(arr, us), StoreAll(StoreAll(arr, us), vs));
  }

  /** Any sequence of pieces stores all their elements in order, or is refused when they do not all fit. */
  lemma {:induction false} PiecesDecode(fields: seq<Field>, i: nat, pieces: seq<Piece>, tail: seq<byte>, st: Progress)
    requires WellFormed(fields) && Receiving(fields, i, st) && Packable(fields[i]) && GoodPieces(fields[i], pieces)
    ensures DecodableElements(fields[i], Elements(pieces))
    ensures var arr, vs := Current(fields, i, st), ElementValues(fields[i], Elements(pieces));
            var s := PiecesBytes(fields[i].tag, pieces);
            DecodeLoop(fields, s + tail, st) ==
              if arr.count + |vs| <= fields[i].arraySize
              then Shift(DecodeLoop(fields, tail, Received(fields, i, st, StoreAll(arr, vs))), |s|) else Fail
    decreases |pieces|
  {
    hide DecodeRecord, DecodeLoop, StoreAll, Current, Received, PieceBytes, WellFormed, EnterFixed, DecodableElements;
    var f, arr := fields[i], Current(fields, i, st);
    ElementsDecodable(f, pieces);
    if pieces == [] {
      NoPieces(fields, i, tail, st);
      assert ElementValues(f, Elements(pieces)) == [];
    } else {
      var p, others := pieces[0], pieces[1..];
      var es := PieceElements(p);
      assert GoodPiece(f, p);
      ElementsDecodable(f, others);
      ElementValuesSplit(f, es, Elements(others));
      var s, rest := PieceBytes(f.tag, p), PiecesBytes(f.tag, others) + tail;
      assert PiecesBytes(f.tag, pieces) + tail == s + rest;
      if arr.count + |es| <= f.arraySize {
        var vs := ElementValues(f, Elements(others));
        PieceThenOthers(fields, i, p, rest, tail, vs, st);
        PiecesDecode(fields, i, others, tail, Received(fields, i, st, StoreAll(arr, ElementValues(f, es))));
      } else {
        PieceDecodes(fields, i, p, rest, st);
        LoopTurn(fields, s, rest, st);
      }
    }
  }

  lemma FirstPiece(tag: nat, pieces: seq<Piece>, tail: seq<byte>)
    requires pieces != []
    ensures PiecesBytes(tag, pieces) + tail
         == TagBytes(PieceWireType(pieces[0]), tag) + (PiecePayload(pieces[0]) + (PiecesBytes(tag, pieces[1..]) + tail))
  {
  }

  lemma SameTurn(fields: seq<Field>, s: seq<byte>, st: Progress, st2: Progress)
    requires |s| > 0 && !DecodeRecord(fields, s, st).Stop? && DecodeRecord(fields, s, st) == DecodeRecord(fields, s, st2)
    ensures DecodeLoop(fields, s, st) == DecodeLoop(fields, s, st2)
  {
  }

  /** The first piece enters a fixed-count field; entering is done once. */
  lemma EnterPieces(fields: seq<Field>, i: nat, pieces: seq<Piece>, tail: seq<byte>, st: Progress)
    requires WellFormed(fields) && i < |fields| && EnterFixed(fields, i, st).Some? && GoodPieces(fields[i], pieces)
    requires FixedCount(fields[i]) ==> pieces != []
    ensures var s := PiecesBytes(fields[i].tag, pieces);
            DecodeLoop(fields, s + tail, st) == DecodeLoop(fields, s + tail, EnterFixed(fields, i, st).value)
  {
    hide DecodeStatic, DecodeRecord, DecodeLoop, DataAddress, PieceBytes;
    if FixedCount(fields[i]) {
      var st1 := EnterFixed(fields, i, st).value;
      assert EnterFixed(fields, i, st1) == Some(st1);
      var p := pieces[0];
      assert GoodPiece(fields[i], p);
      var payload := PiecePayload(p) + (PiecesBytes(fields[i].tag, pieces[1..]) + tail);
      FirstPiece(fields[i].tag, pieces, tail);
      RecordOfField(fields, i, PieceWireType(p), payload, st);
      RecordOfField(fields, i, PieceWireType(p), payload, st1);
      SameTurn(fields, TagBytes(PieceWireType(p), fields[i].tag) + payload, st, st1);
    }
  }

  /** The same result but for the number of bytes used. */
  predicate SameMessage(r: Parsed<Message>, used: int, r2: Parsed<Message>, used2: int) {
    r.Fail? == r2.Fail? && (r.Ok? ==> r.value == r2.value && r.used - used == r2.used - used2)
  }

  /** Field `i` can be received next: its array is in place and a fixed-count field before it is complete. */
  predicate CanReceive(fields: seq<Field>, i: nat, st: Progress) {
    EnterFixed(fields, i, st).Some? && Receiving(fields, i, EnterFixed(fields, i, st).value)
  }

  /**
   Packed, split into several packed records, or one record for each element: pieces that carry the
   same elements give the same message, whatever comes before and after. If the elements do not fit
   the array, every one of these forms is refused.
   */
  lemma PackedIsUnpacked(
      fields: seq<Field>, i: nat, a: seq<byte>, pieces: seq<Piece>, pieces2: seq<Piece>, b: seq<byte>, msg: Message)
    requires WellFormed(fields) && Through(fields, a, Start(msg)).Some?
    requires CanReceive(fields, i, Through(fields, a, Start(msg)).value) && Packable(fields[i])
    requires GoodPieces(fields[i], pieces) && GoodPieces(fields[i], pieces2)
    requires Elements(pieces) == Elements(pieces2) && (FixedCount(fields[i]) ==> pieces != [] && pieces2 != [])
    ensures var s, s2 := PiecesBytes(fields[i].tag, pieces), PiecesBytes(fields[i].tag, pieces2);
            SameMessage(DecodeNoInit(fields, a + (s + b), msg), |s|, DecodeNoInit(fields, a + (s2 + b), msg), |s2|)
    ensures var st := EnterFixed(fields, i, Through(fields, a, Start(msg)).value).value;
            Current(fields, i, st).count + |Elements(pieces)| > fields[i].arraySize
            ==> DecodeNoInit(fields, a + (PiecesBytes(fields[i].tag, pieces) + b), msg).Fail?
  {
    hide Current, Received, StoreAll, PiecesBytes, Through;
    var st := Through(fields, a, Start(msg)).value;
    var st1 := EnterFixed(fields, i, st).value;
    var s, s2 := PiecesBytes(fields[i].tag, pieces), PiecesBytes(fields[i].tag, pieces2);
    EnterPieces(fields, i, pieces, b, st);
    EnterPieces(fields, i, pieces2, b, st);
    PiecesDecode(fields, i, pieces, b, st1);
    PiecesDecode(fields, i, pieces2, b, st1);
    ThroughConcat(fields, a, s + b, Start(msg));
    ThroughConcat(fields, a, s2 + b, Start(msg));
  }

  /** What the elements become: appended to an array with a count. */
  lemma PiecesAppend(fields: seq<Field>, i: nat, pieces: seq<Piece>, tail: seq<byte>, st: Progress, items: seq<Value>)
    requires WellFormed(fields) && i < |fields| && fields[i].htype.Repeated? && Packable(fields[i]) && !FixedCount(fields[i])
    requires SlotAt(st.msg, DataAddress(fields, i)) == Items(items) && GoodPieces(fields[i], pieces)
    requires DecodableElements(fields[i], Elements(pieces)) && |items| + |Elements(pieces)| <= fields[i].arraySize
    ensures var s, vs := PiecesBytes(fields[i].tag, pieces), ElementValues(fields[i], Elements(pieces));
            DecodeLoop(fields, s + tail, st)
              == Shift(DecodeLoop(fields, tail, st.(msg := st.msg[DataAddress(fields, i) := Items(items + vs)])), |s|)
  {
    hide DecodeLoop, PiecesBytes;
    PiecesDecode(fields, i, pieces, tail, st);
    StoreAllAppends(items, ElementValues(fields[i], Elements(pieces)));
  }

  /**
   What the elements become in an array with a fixed count: received anew they take the place of its first
   entries, whatever was there; when the record goes on with the array, of those behind the entries received.
   */
  lemma PiecesOverwrite(fields: seq<Field>, i: nat, pieces: seq<Piece>, tail: seq<byte>, st: Progress, items: seq<Value>)
    requires WellFormed(fields) && i < |fields| && Packable(fields[i]) && FixedCount(fields[i])
    requires SlotAt(st.msg, DataAddress(fields, i)) == Items(items) && |items| <= fields[i].arraySize
    requires if st.fixedField == Some(i) then st.fixedCount <= |items| else FixedComplete(fields, st)
    requires GoodPieces(fields[i], pieces) && pieces != [] && DecodableElements(fields[i], Elements(pieces))
    ensures var s, vs := PiecesBytes(fields[i].tag, pieces), ElementValues(fields[i], Elements(pieces));
            var k := if st.fixedField == Some(i) then st.fixedCount else 0;
            var after := items[..k] + vs + (if k + |vs| < |items| then items[k + |vs|..] else []);
            DecodeLoop(fields, s + tail, st) ==
              if k + |vs| > fields[i].arraySize then Fail
              else Shift(DecodeLoop(fields, tail, Progress(st.msg[DataAddress(fields, i) := Items(after)], st.seen, Some(i), k + |vs|)), |s|)
  {
    hide DecodeLoop, PiecesBytes, StoreAll, DataAddress, GoodPieces, DecodableElements, Elements, ElementValues, WellFormed, Shift;
    var st1 := EnterFixed(fields, i, st).value;
    EnterPieces(fields, i, pieces, tail, st);
    PiecesDecode(fields, i, pieces, tail, st1);
    StoreAllOverwrites(items, st1.fixedCount, ElementValues(fields[i], Elements(pieces)));
  }

  /** Of two records for one scalar that is not repeated, the last wins. */
  lemma LastOneWins(fields: seq<Field>, i: nat, w1: nat, p1: seq<byte>, w2: nat, p2: seq<byte>, st: Progress)
    requires WellFormed(fields) && i < |fields| && !fields[i].htype.Repeated? && !fields[i].ltype.TSubmessage?
    requires w1 < 8 && w2 < 8
    requires DecodeScalar(fields[i], p1).Ok? && DecodeScalar(fields[i], p1).used == |p1|
    requires DecodeScalar(fields[i], p2).Ok? && DecodeScalar(fields[i], p2).used == |p2|
    ensures var r1, r2 := TagBytes(w1, fields[i].tag) + p1, TagBytes(w2, fields[i].tag) + p2;
            Through(fields, r1 + r2, st) == Through(fields, r2, st) && Through(fields, r2, st).Some?
  {
    hide DataAddress, DecodeRecord;
    var r1, r2 := TagBytes(w1, fields[i].tag) + p1, TagBytes(w2, fields[i].tag) + p2;
    RecordOfField(fields, i, w1, p1, st);
    OneRecord(fields, r1, st);
    var st1 := DecodeRecord(fields, r1, st).st;
    ThroughConcat(fields, r1, r2, st);
    RecordOfField(fields, i, w2, p2, st);
    RecordOfField(fields, i, w2, p2, st1);
    OneRecord(fields, r2, st);
    OneRecord(fields, r2, st1);
    var a := DataAddress(fields, i);
    var end := DecodeRecord(fields, r2, st).st;
    assert st1.msg[a := end.msg[a]] == st.msg[a := end.msg[a]];
  }

  /** A record for an entry of an array with a count appends the entry, or is refused when the array is full. */
  lemma EntryAppends(fields: seq<Field>, i: nat, wireType: nat, payload: seq<byte>, st: Progress, items: seq<Value>)
    requires WellFormed(fields) && i < |fields| && fields[i].htype.Repeated? && !FixedCount(fields[i]) && wireType < 8
    requires !(wireType == WT_STRING && Packable(fields[i])) && SlotAt(st.msg, DataAddress(fields, i)) == Items(items)
    requires DecodeElement(fields[i], payload, NoValue).Ok? && DecodeElement(fields[i], payload, NoValue).used == |payload|
    ensures var r, v := TagBytes(wireType, fields[i].tag) + payload, DecodeElement(fields[i], payload, NoValue).value;
            DecodeRecord(fields, r, st) ==
              if |items| < fields[i].arraySize then Next(st.(msg := st.msg[DataAddress(fields, i) := Items(items + [v])]), |r|) else Error
  {
    hide DataAddress, DecodeElement, DecodeRecord;
    RecordOfField(fields, i, wireType, payload, st);
  }

  /** The message that a submessage field starts from when its next record arrives. */
  function MergeBase(f: Field, slot: Slot): Message {
    MessageIn(if f.htype.OneOf? then MemberStart(f, slot) else ValueIn(slot))
  }

  function SubmessageRecord(f: Field, content: seq<byte>): seq<byte> {
    TagBytes(WT_STRING, f.tag) + (Varint(|content|) + content)
  }

  function WithSubmessage(f: Field, m: Message): Slot {
    match f.htype
    case OneOf => Union(f.tag, Msg(m))
    case Optional => if f.sizeOffset != 0 then Opt(true, Msg(m)) else Single(Msg(m))
    case _ => Single(Msg(m))
  }

  /** A record of a submessage that is not repeated merges its content into what is there. */
  lemma SubmessageMerges(fields: seq<Field>, i: nat, sub: seq<Field>, content: seq<byte>, st: Progress)
    requires WellFormed(fields) && i < |fields| && fields[i].ltype == TSubmessage(sub) && !fields[i].htype.Repeated?
    requires |content| < TWO32
    requires DecodeNoInit(sub, content, MergeBase(fields[i], SlotAt(st.msg, DataAddress(fields, i)))).Ok?
    ensures var m := DecodeNoInit(sub, content, MergeBase(fields[i], SlotAt(st.msg, DataAddress(fields, i)))).value;
            Through(fields, SubmessageRecord(fields[i], content), st)
              == Some(MarkSeen(fields, i, st).(msg := st.msg[DataAddress(fields, i) := WithSubmessage(fields[i], m)]))
  {
    hide DataAddress, DecodeNoInit, DecodeRecord, Defaults, Through, Varint;
    var f, payload := fields[i], Varint(|content|) + content;
    SubstreamOf(content, []);
    assert payload + [] == payload;
    RecordOfField(fields, i, WT_STRING, payload, st);
    OneRecord(fields, SubmessageRecord(f, content), st);
  }

  /**
   Two records of one submessage are worth one record with both contents, unless the second starts the
   fixed-count field that the first has just completed.
   */
  lemma SubmessagesMerge(fields: seq<Field>, i: nat, sub: seq<Field>, a: seq<byte>, b: seq<byte>, st: Progress)
    requires WellFormed(fields) && i < |fields| && fields[i].ltype == TSubmessage(sub) && !fields[i].htype.Repeated?
    requires |a + b| < TWO32
    requires var base := MergeBase(fields[i], SlotAt(st.msg, DataAddress(fields, i)));
             && Through(sub, a, Start(base)).Some? && DecodeNoInit(sub, a, base).Ok?
             && DecodeNoInit(sub, b, DecodeNoInit(sub, a, base).value).Ok?
             && (LastFixed(sub, a, base).Some?
                 ==> FirstFixed(sub, b, Start(DecodeNoInit(sub, a, base).value)) != LastFixed(sub, a, base))
    ensures Through(fields, SubmessageRecord(fields[i], a) + SubmessageRecord(fields[i], b), st)
         == Through(fields, SubmessageRecord(fields[i], a + b), st)
    ensures Through(fields, SubmessageRecord(fields[i], a + b), st).Some?
  {
    hide DataAddress, DecodeNoInit, Through, LastFixed, FirstFixed, SubmessageRecord, MergeBase, WithSubmessage, MarkSeen, WellFormed, Start;
    var f, at := fields[i], DataAddress(fields, i);
    var base := MergeBase(f, SlotAt(st.msg, at));
    SubWellFormed(fields, i, sub);
    ConcatenationMerges(sub, a, b, base);
    SubmessageMerges(fields, i, sub, a, st);
    var m1 := DecodeNoInit(sub, a, base).value;
    BaseAfter(f, m1);
    var st1 := MarkSeen(fields, i, st).(msg := st.msg[at := WithSubmessage(f, m1)]);
    SubmessageMerges(fields, i, sub, b, st1);
    SubmessageMerges(fields, i, sub, a + b, st);
    ThroughConcat(fields, SubmessageRecord(f, a), SubmessageRecord(f, b), st);
    MarkedTwice(fields, i, st, at, WithSubmessage(f, m1), WithSubmessage(f, DecodeNoInit(sub, a + b, base).value));
  }

  lemma SubWellFormed(fields: seq<Field>, i: nat, sub: seq<Field>)
    requires WellFormed(fields) && i < |fields| && fields[i].ltype == TSubmessage(sub)
    ensures WellFormed(sub)
  {
    assert WellFormedField(fields[i]);
  }

  lemma BaseAfter(f: Field, m: Message)
    requires !f.htype.Repeated?
    ensures MergeBase(f, WithSubmessage(f, m)) == m
  {
  }

  lemma MarkedTwice(fields: seq<Field>, i: nat, st: Progress, at: int, first: Slot, last: Slot)
    ensures var st1 := MarkSeen(fields, i, st).(msg := st.msg[at := first]);
            MarkSeen(fields, i, st1).(msg := st1.msg[at := last]) == MarkSeen(fields, i, st).(msg := st.msg[at := last])
  {
    assert st.msg[at := first][at := last] == st.msg[at := last];
  }
}

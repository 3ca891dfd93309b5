/**
 Inputs for which a law does not hold that a reader might expect. Where the law holds is proved with the
 law itself, as an exact condition.
 */
module Counterexamples {
  import opened Wire
  import opened Descriptor
  import opened Decoding
  import opened Encoding
  import opened Records
  import opened RoundTrip
  import Encoder
  import Multipart
  import Filling
  import NormalForm
  import Framing
  import Layout
  import Receiving
  import opened Options

  // ---------------------------------------------------------------------------------------
  // Order of records
  // ---------------------------------------------------------------------------------------

  const ZERO: seq<byte> := [0, 0, 0, 0]

  /** A record that carries a fixed32 zero. */
  function ZeroRecord(tag: nat): seq<byte> {
    TagBytes(WT_32BIT, tag) + ZERO
  }

  /** An array of `size` fixed32 values that are always all present. */
  function FixedArray(tag: nat, size: nat): Field {
    Field(tag, TFixed32, Repeated, 0, 0, 4, size, None)
  }

  lemma ZeroDecodes(f: Field)
    requires f.ltype.TFixed32?
    ensures DecodeElement(f, ZERO, NoValue) == Ok(Int(0), 4) == DecodeScalar(f, ZERO)
  {
    assert ZERO[..4] == ZERO && ZERO[1..] == [0, 0, 0] && ZERO[1..][1..] == [0, 0] && ZERO[1..][1..][1..] == [0] && ZERO[1..][1..][1..][1..] == [];
    assert FromLittleEndian([]) == 0;
    var one: seq<byte> := [0];
    assert one[1..] == [];
    assert FromLittleEndian(one) == 0;
    assert FromLittleEndian(ZERO[1..][1..]) == 0;
    assert FromLittleEndian(ZERO[1..]) == 0;
  }

  /** One more entry of a fixed-count array, or an error when it is full. */
  lemma ZeroStored(fields: seq<Field>, i: nat, st: Progress)
    requires WellFormed(fields) && i < |fields| && fields[i].ltype.TFixed32? && FixedCount(fields[i])
    requires EnterFixed(fields, i, st).Some?
    ensures var st1, a := EnterFixed(fields, i, st).value, DataAddress(fields, i);
            var arr := Array(ItemsIn(SlotAt(st1.msg, a)), st1.fixedCount);
            DecodeRecord(fields, ZeroRecord(fields[i].tag), st) ==
              if st1.fixedCount >= fields[i].arraySize then Error
              else Next(st1.(msg := st1.msg[a := Items(Store(arr, Int(0)).items)], fixedCount := st1.fixedCount + 1),
                        |ZeroRecord(fields[i].tag)|)
  {
    hide DataAddress, DecodeRecord, DecodeElement, WellFormed;
    ZeroDecodes(fields[i]);
    RecordOfField(fields, i, WT_32BIT, ZERO, st);
  }

  lemma ZeroHits(fields: seq<Field>, i: nat)
    requires WellFormed(fields) && i < |fields|
    ensures HitField(fields, ZeroRecord(fields[i].tag)) == Some(i)
  {
    assert WellFormedField(fields[i]);
    PieceHeader(WT_32BIT, fields[i].tag, ZERO);
    FindFromUnique(fields, i, 0);
  }

  /** Two members of one union: the message that results is the last one's. */
  lemma UnionOrderMatters()
    ensures exists fields: seq<Field>, r1: seq<byte>, r2: seq<byte>, st: Progress ::
              WellFormed(fields) && InOrder(fields, r1, r2, st) && InOrder(fields, r2, r1, st)
              && Both(fields, r1, r2, st).msg != Both(fields, r2, r1, st).msg
  {
    hide DecodeRecord, DecodeElement, DataAddress;
    var f := Field(1, TFixed32, OneOf, 4, -4, 4, 0, None);
    var g := Field(2, TFixed32, OneOf, PB_SIZE_MAX, -4, 4, 0, None);
    var fields := [f, g];
    var st := Start(map[]);
    var a, b := ZeroRecord(1), ZeroRecord(2);
    assert WellFormed(fields);
    ZeroHits(fields, 0);
    ZeroHits(fields, 1);
    assert SameUnion(fields, 0, 1);
    AddressOrder(fields, 0, 1);
    ZeroMember(fields, 0, st);
    ZeroMember(fields, 1, st);
    ZeroMember(fields, 1, DecodeRecord(fields, a, st).st);
    ZeroMember(fields, 0, DecodeRecord(fields, b, st).st);
    assert InOrder(fields, a, b, st) && InOrder(fields, b, a, st);
    assert SlotAt(Both(fields, a, b, st).msg, DataAddress(fields, 1)) == Union(2, Int(0));
    assert SlotAt(Both(fields, b, a, st).msg, DataAddress(fields, 0)) == Union(1, Int(0));
  }

  lemma ZeroMember(fields: seq<Field>, i: nat, st: Progress)
    requires WellFormed(fields) && i < |fields| && fields[i].ltype.TFixed32? && fields[i].htype.OneOf?
    ensures DecodeRecord(fields, ZeroRecord(fields[i].tag), st)
         == Next(st.(msg := st.msg[DataAddress(fields, i) := Union(fields[i].tag, Int(0))]), |ZeroRecord(fields[i].tag)|)
  {
    hide DataAddress, DecodeRecord, DecodeScalar, WellFormed;
    ZeroDecodes(fields[i]);
    RecordOfField(fields, i, WT_32BIT, ZERO, st);
  }

  /** One entry of an array of two, and an array of one: the incomplete array must come last. */
  lemma SplitArrayOrderMatters()
    ensures exists fields: seq<Field>, r1: seq<byte>, r2: seq<byte>, st: Progress ::
              WellFormed(fields) && InOrder(fields, r1, r2, st) && !InOrder(fields, r2, r1, st)
              && HitField(fields, r1) == Some(0) && HitField(fields, r2) == Some(1)
  {
    hide DecodeRecord, DataAddress;
    var fields := [FixedArray(1, 1), FixedArray(2, 2)];
    var st := Start(map[]);
    var a, b := ZeroRecord(1), ZeroRecord(2);
    assert WellFormed(fields);
    ZeroHits(fields, 0);
    ZeroHits(fields, 1);
    ZeroStored(fields, 0, st);
    ZeroStored(fields, 1, DecodeRecord(fields, a, st).st);
    ZeroStored(fields, 1, st);
    FixedRefused(fields, a, 0, DecodeRecord(fields, b, st).st);
    assert InOrder(fields, a, b, st) && !InOrder(fields, b, a, st);
  }

  /** The first half of one array was received before: its second half and another array must come in this order. */
  lemma ReceivedBeforeOrderMatters()
    ensures exists fields: seq<Field>, r1: seq<byte>, r2: seq<byte>, st: Progress ::
              WellFormed(fields) && InOrder(fields, r1, r2, st) && !InOrder(fields, r2, r1, st)
              && HitField(fields, r1) == Some(0) && HitField(fields, r2) == Some(1)
              && st.fixedField == Some(0) && FixedComplete(fields, Both(fields, r1, r2, st))
  {
    hide DecodeRecord, DataAddress;
    var fields := [FixedArray(1, 2), FixedArray(2, 1)];
    var a, b := ZeroRecord(1), ZeroRecord(2);
    assert WellFormed(fields);
    ZeroHits(fields, 0);
    ZeroHits(fields, 1);
    ZeroStored(fields, 0, Start(map[]));
    var st := DecodeRecord(fields, a, Start(map[])).st;
    ZeroStored(fields, 0, st);
    ZeroStored(fields, 1, DecodeRecord(fields, a, st).st);
    FixedRefused(fields, b, 1, st);
    assert InOrder(fields, a, b, st) && !InOrder(fields, b, a, st);
  }

  // ---------------------------------------------------------------------------------------
  // Concatenation
  // ---------------------------------------------------------------------------------------

  /** A fixed-count array of one entry, received whole twice: each alone is accepted, both together are not. */
  lemma ConcatenationRefused()
    ensures exists fields: seq<Field>, a: seq<byte>, msg: Message ::
              WellFormed(fields) && Through(fields, a, Start(msg)).Some? && DecodeNoInit(fields, a, msg).Ok?
              && DecodeNoInit(fields, a, DecodeNoInit(fields, a, msg).value).Ok? && DecodeNoInit(fields, a + a, msg).Fail?
  {
    hide DecodeRecord, DataAddress, DecodeLoop, Through;
    var fields := [FixedArray(1, 1)];
    var a := ZeroRecord(1);
    var st := Start(map[]);
    assert WellFormed(fields);
    ZeroStored(fields, 0, st);
    OneRecord(fields, a, st);
    ThroughIsLoop(fields, a, st);
    var st1 := DecodeRecord(fields, a, st).st;
    assert DecodeNoInit(fields, a, map[]) == Ok(st1.msg, |a|);
    ZeroStored(fields, 0, Start(st1.msg));
    OneRecord(fields, a, Start(st1.msg));
    ThroughIsLoop(fields, a, Start(st1.msg));
    ZeroStored(fields, 0, st1);
    ThroughConcat(fields, a, a, st);
    LoopTurn(fields, a, [], st1);
    assert a + [] == a;
    assert DecodeNoInit(fields, a + a, map[]).Fail?;
  }

  // ---------------------------------------------------------------------------------------
  // Lengths
  // ---------------------------------------------------------------------------------------

  function Repeat(v: Value, n: nat): (vs: seq<Value>)
    ensures |vs| == n && forall k :: 0 <= k < n ==> vs[k] == v
  {
    seq(n, _ => v)
  }

  /** With counts of 32 bits there is a normal message that is encoded but cannot be decoded: 2^29 eight-byte zeros. */
  lemma LongArrayIsLost()
    requires PB_SIZE_WIDTH == 4
    ensures exists fields: seq<Field>, m: Message ::
              WellFormed(fields) && Normal(fields, m) && EncodeMessage(fields, m).Some?
              && Decode(fields, EncodeMessage(fields, m).value, map[]).Fail?
  {
    hide EncodeScalars, Decode, EncodeMessage, LengthsFit;
    var n := 0x2000_0000;
    var f := Field(1, TFixed64, Repeated, 4, -4, 8, n, None);
    var fields := [f];
    var vs := Repeat(Int(0), n);
    var m := map[4 := Items(vs)];
    assert DataAddress(fields, 0) == 4;
    assert WellFormed(fields);
    assert Addresses(fields) == {4} by {
      forall a ensures a in Addresses(fields) <==> a == 4 {
        if a == 4 { assert DataAddress(fields, 0) in Addresses(fields); }
      }
    }
    assert NormalSlot(f, Items(vs));
    assert Normal(fields, m);
    Encoder.FixedSize(f, vs, 8);
    assert !SlotFits(f, Items(vs));
    assert !LengthsFit(fields, m) by { OneSlot(f, m); }
    LongEncoding(f, vs, m);
    RoundTrip.RoundTrip(fields, m, map[]);
  }

  lemma OneSlot(f: Field, m: Message)
    ensures LengthsFit([f], m) <==> SlotFits(f, SlotAt(m, DataAddress([f], 0)))
  {
    hide SlotFits, DataAddress;
    assert FitsFrom([f], m, 1);
    assert FitsFrom([f], m, 0) <==> SlotFits(f, SlotAt(m, DataAddress([f], 0)));
  }

  lemma LongEncoding(f: Field, vs: seq<Value>, m: Message)
    requires f.htype.Repeated? && f.sizeOffset != 0 && Packable(f) && 0 < |vs| <= f.arraySize && f.tag < 0x1000_0000
    requires EncodeScalars(f, vs).Some? && |EncodeScalars(f, vs).value| == TWO32
    requires DataAddress([f], 0) in m && m[DataAddress([f], 0)] == Items(vs)
    ensures EncodeMessage([f], m).Some? && |EncodeMessage([f], m).value| < TWO63
  {
    hide Varint, EncodeScalars, DataAddress;
    VarintAtMost(TWO32);
    VarintAtMost(8 * f.tag + WT_STRING);
    assert EncodeFrom([f], m, 1) == Some([]);
    assert EncodeField(f, Items(vs)) == EncodeArray(f, vs);
  }

  // ---------------------------------------------------------------------------------------
  // Structs
  // ---------------------------------------------------------------------------------------

  /** No input at all is accepted for a fixed-count array, which then is not filled. */
  lemma UnfilledArray()
    ensures exists fields: seq<Field> ::
              WellFormed(fields) && NormalForm.GoodDefaults(fields) && Decode(fields, [], map[]).Ok?
              && !Normal(fields, Decode(fields, [], map[]).value)
  {
    hide DataAddress, Defaults, Normal;
    var fields := [FixedArray(1, 1)];
    assert WellFormed(fields);
    assert NormalForm.GoodDefault(fields[0]);
    assert map[] + Defaults(fields) == Defaults(fields);
    assert DecodeLoop(fields, [], Start(Defaults(fields))) == Ok(Start(Defaults(fields)), 0);
    assert Decode(fields, [], map[]) == Ok(Defaults(fields), 0);
    assert !Filling.FieldFilled(fields[0], Filling.Deliveries(fields, 0, Filling.RecordsOf(fields, [])));
    NormalForm.AcceptedIsNormal(fields, [], map[]);
  }

  /** A record with tag 0 is accepted for a struct without fields, and leaves a byte in it. */
  lemma EmptyStructWritten()
    ensures Decode([], [1, 0], map[]).Ok? && !Normal([], Decode([], [1, 0], map[]).value)
  {
    hide Normal, DecodeRecord, DecodeLoop, RequiredIndex;
    var s: seq<byte> := [1, 0];
    var st := Start(map[]);
    assert Defaults([]) == map[];
    assert s[1..] == [0] && s[2..] == [];
    assert ReadHeader(s) == Header(0, 1, 1) && FindField([], 0) == Some(0);
    var t := DecodeRecord([], s, st);
    assert t == Next(t.st, 2) && t.st.fixedField == None by { TagZero(s, st); }
    assert DecodeLoop([], [], t.st) == Ok(t.st, 0) by { LoopDone([], t.st); }
    LoopTurn([], s, [], st);
    assert s + [] == s;
    assert Decode([], s, map[]) == Ok(t.st.msg, 2);
    Filling.RecordSplits([], s, st);
    NormalForm.AcceptedIsNormal([], s, map[]);
  }

  lemma TagZero(s: seq<byte>, st: Progress)
    requires s == [1, 0] && ReadHeader(s) == Header(0, 1, 1)
    ensures var t := DecodeRecord([], s, st); t.Next? && t.used == 2 && t.st.fixedField == st.fixedField && HitField([], s) == Some(0)
  {
    hide RequiredIndex, ReadHeader, DecodeStatic;
    assert s[1..] == [0];
    assert EnterFixed([], 0, st) == Some(st) && DataAddress([], 0) == 0;
    ZeroBool(SlotAt(st.msg, 0), st.fixedCount);
  }

  lemma ZeroBool(slot: Slot, count: nat)
    ensures DecodeStatic(TERMINATOR, 1, [0], slot, count) == Ok(Stored(Single(Int(0)), count), 1)
  {
    var s: seq<byte> := [0];
    assert DecodeScalar(TERMINATOR, s) == Ok(Int(0), 1);
    assert DecodeElement(TERMINATOR, s, ValueIn(slot)) == Ok(Int(0), 1);
  }

  lemma LoopDone(fields: seq<Field>, st: Progress)
    ensures DecodeLoop(fields, [], st) == Ok(st, 0)
  {
  }

  /** With counts of 32 bits, the default of a fixed-count array of one byte is written past its end. */
  lemma ShortArrayOverrun()
    requires PB_SIZE_WIDTH == 4
    ensures exists fields: seq<Field> ::
              WellFormed(fields) && |fields| == 1 && FixedCount(fields[0]) && DefaultExtent(fields[0]) > Extent(fields[0])
  {
    var f := Field(1, TBool, Repeated, 0, 0, 1, 1, None);
    assert WellFormed([f]) && FixedCount([f][0]);
    OneEntry(f);
  }

  lemma OneEntry(f: Field)
    requires f.dataSize == 1 && f.arraySize == 1
    ensures Extent(f) == 1
  {
    var a, b := f.dataSize, f.arraySize;
    assert a * b == a * 1 == 1;
  }

  /** A field behind a union whose last member is not its largest, with an offset of zero. */
  lemma UnionOverlap()
    ensures exists fields: seq<Field> ::
              WellFormed(fields) && |fields| == 3 && !SameUnion(fields, 0, 2)
              && DataAddress(fields, 2) < DataAddress(fields, 0) + Extent(fields[0])
  {
    var f := Field(1, TFixed64, OneOf, 4, -4, 8, 0, None);
    var g := Field(2, TFixed32, OneOf, PB_SIZE_MAX, -4, 4, 0, None);
    var h := Field(3, TFixed32, Required, 0, 0, 4, 0, None);
    var fields := [f, g, h];
    assert DataAddress(fields, 0) == 4 && DataAddress(fields, 1) == 4 && DataAddress(fields, 2) == 8;
    assert !SameUnion(fields, 0, 2) by { assert !Linked(FieldAt(fields, 2 - 1), FieldAt(fields, 2)); }
    assert WellFormedField(f) && WellFormedField(g) && WellFormedField(h);
    assert Extent(fields[0]) == 8 && |fields| == 3;
  }

  /** Two unions that are as far apart as the number that marks members of one union. */
  lemma DistantUnions()
    ensures exists fields: seq<Field>, members: seq<Layout.Member> ::
              Layout.BuiltFor(fields, members) && |fields| == 2 && DataAddress(fields, 1) != members[1].offset
  {
    var f, g := Field(1, TBool, OneOf, 4, -4, 1, 0, None), Field(2, TBool, OneOf, PB_SIZE_MAX, -1 - PB_SIZE_MAX, 1, 0, None);
    var c, d := Layout.Member(4, 1, 0, Layout.First), Layout.Member(5 + PB_SIZE_MAX, 1, 4, Layout.Other);
    var fields, members := [f, g], [c, d];
    assert Layout.Entry(fields[0], members[0], members[0]) && Layout.Entry(fields[1], members[1], members[0]);
    assert Layout.BuiltFor(fields, members) && |fields| == 2;
    assert DataAddress(fields, 0) == 4 && DataAddress(fields, 1) == 4 && members[1].offset != 4;
  }

  // ---------------------------------------------------------------------------------------
  // Forms
  // ---------------------------------------------------------------------------------------

  /** What is left of a form of one part that was written, appended to and written again: the second part is lost. */
  lemma StaleFinalBoundary(boundary: seq<byte>)
    requires Multipart.CR !in boundary
    ensures var part := Multipart.Part([], [], 0, false, false);
            var again := Multipart.Marked(Multipart.Marked([part]) + [part]);
            && Framing.OnlyFirstInitial(again) && again[1].final
            && Framing.Split(boundary, Multipart.EncodedParts(boundary, again)) != Some(Framing.AllOctets(again))
  {
    hide Framing.Split, Multipart.EncodedParts, Framing.AllOctets, Framing.Clean;
    var part := Multipart.Part([], [], 0, false, false);
    var again := Multipart.Marked(Multipart.Marked([part]) + [part]);
    assert again[0].final && !Framing.Recoverable(boundary, again);
    Framing.SplitRecovers(boundary, again);
  }

  /** A body that is itself a delimiter. */
  lemma DelimiterInBody(boundary: seq<byte>)
    requires Multipart.CR !in boundary
    ensures var parts := [Multipart.Part([], [Framing.Delimiter(boundary)], 0, false, false)];
            Framing.Split(boundary, Multipart.EncodedParts(boundary, Multipart.Marked(parts))) != Some(Framing.AllOctets(parts))
  {
    hide Framing.Split, Multipart.EncodedParts, Framing.AllOctets, Framing.Delimiter;
    var d := Framing.Delimiter(boundary);
    var part := Multipart.Part([], [d], 0, false, false);
    assert Multipart.Body(part) == d by { Multipart.OfferOne(Multipart.Answers(_ => true, _ => 0), d, Multipart.SinkState(0, 0, [])); }
    var text := Multipart.CRLF + Multipart.Octets(part);
    var k := |text| - |d|;
    assert text == Multipart.CRLF + Multipart.HeaderBlock([]) + d;
    assert text[k..k + |d|] == d;
    assert Framing.At(d, text, k) && k <= |text|;
    var parts := [part];
    assert !Framing.Clean(boundary, parts[0]);
    Framing.FreshSplitRecovers(boundary, parts);
  }

  /** The value of a header that holds a line break: what stands behind it is read as a header of its own. */
  lemma BreakInHeader(boundary: seq<byte>)
    requires Multipart.CR !in boundary
    ensures var parts := [Multipart.Part([Multipart.Header([65], [13, 10])], [], 0, false, false)];
            Receiving.Receive(boundary, Multipart.EncodedParts(boundary, Multipart.Marked(parts))) != Some(Receiving.Contents(parts))
  {
    hide Receiving.Receive, Multipart.EncodedParts, Receiving.Contents, Framing.Clean;
    var h := Multipart.Header([65], [13, 10]);
    var parts := [Multipart.Part([h], [], 0, false, false)];
    assert Framing.At([13, 10], h.value, 0);
    assert !Receiving.Readable(h) && parts[0].headers[0] == h;
    Receiving.FreshFormReceived(boundary, parts);
  }
}

/**
 Alamofire's `MultipartFormData`: one encoding with two implementations, in memory and streaming in
 chunks, and the framing of section 5.1.1 of RFC 2046 that a receiver undoes.
 */
module Multipart {
  import opened Wire
  import opened Options

  const CR: byte := 13
  const LF: byte := 10
  const DASH: byte := 45
  const COLON: byte := 58
  const SPACE: byte := 32
  const TAB: byte := 9

  const CRLF: seq<byte> := [CR, LF]
  const DASHES: seq<byte> := [DASH, DASH]

  const STREAM_BUFFER_SIZE := 1024

  datatype Header = Header(name: seq<byte>, value: seq<byte>)

  datatype Error =
    | BodyPartInvalid(reason: int)
    | InputStreamReadFailed
    | UnexpectedInputStreamLength(bytesExpected: nat, bytesRead: nat)
    | OutputStreamWriteFailed

  datatype Result<+T> = Success(value: T) | Failure(error: Error)

  // ---------------------------------------------------------------------------------------
  // The encoding
  // ---------------------------------------------------------------------------------------

  datatype BoundaryType = InitialBoundary | EncapsulatedBoundary | FinalBoundary

  /** `boundaryData` */
  function BoundaryData(t: BoundaryType, boundary: seq<byte>): seq<byte> {
    match t
    case InitialBoundary => DASHES + boundary + CRLF
    case EncapsulatedBoundary => CRLF + DASHES + boundary + CRLF
    case FinalBoundary => CRLF + DASHES + boundary + DASHES + CRLF
  }

  function HeaderLines(headers: seq<Header>): seq<byte> {
    if headers == [] then []
    else headers[0].name + [COLON, SPACE] + headers[0].value + CRLF + HeaderLines(headers[1..])
  }

  /** `encodeHeaders` */
  function HeaderBlock(headers: seq<Header>): seq<byte> {
    HeaderLines(headers) + CRLF
  }

  /**
   A part of the form, with the pieces in which its stream is going to hand out the body. `initial` and
   `final` are its boundary flags.
   */
  datatype Part = Part(headers: seq<Header>, pieces: seq<seq<byte>>, length: nat, initial: bool, final: bool)

  function Body(p: Part): seq<byte> {
    Concat(p.pieces)
  }

  /** What a receiver is to get back. */
  function Octets(p: Part): seq<byte> {
    HeaderBlock(p.headers) + Body(p)
  }

  function OpeningBoundary(boundary: seq<byte>, p: Part): seq<byte> {
    BoundaryData(if p.initial then InitialBoundary else EncapsulatedBoundary, boundary)
  }

  function EncodedPart(boundary: seq<byte>, p: Part): seq<byte> {
    OpeningBoundary(boundary, p) + Octets(p) + (if p.final then BoundaryData(FinalBoundary, boundary) else [])
  }

  function EncodedParts(boundary: seq<byte>, parts: seq<Part>): seq<byte> {
    if |parts| == 0 then []
    else EncodedParts(boundary, parts[..|parts| - 1]) + EncodedPart(boundary, parts[|parts| - 1])
  }

  /** The flags that both `encode` and `writeEncodedData` set on the first and the last part. */
  function Marked(parts: seq<Part>): (r: seq<Part>)
    ensures |r| == |parts|
  {
    seq(|parts|, i requires 0 <= i < |parts| =>
      parts[i].(initial := parts[i].initial || i == 0, final := parts[i].final || i == |parts| - 1))
  }

  // ---------------------------------------------------------------------------------------
  // Input
  // ---------------------------------------------------------------------------------------

  /** A number of bytes from one up to a limit, near a wish. */
  function Clamp(wish: nat, limit: nat): (n: nat)
    requires limit > 0
    ensures 0 < n <= limit
  {
    if wish == 0 then 1 else if wish > limit then limit else wish
  }

  /** How a stream hands out `remaining` from its read number `readCount` on, a buffer at most at a time. */
  function Pieces(sizes: nat -> nat, readCount: nat, remaining: seq<byte>): (pieces: seq<seq<byte>>)
    ensures Concat(pieces) == remaining
    ensures forall k :: 0 <= k < |pieces| ==> 0 < |pieces[k]| <= 1024
    decreases |remaining|
  {
    if remaining == [] then []
    else
      var n := NextPiece(sizes, readCount, remaining, STREAM_BUFFER_SIZE);
      assert remaining == remaining[..n] + remaining[n..];
      [remaining[..n]] + Pieces(sizes, readCount + 1, remaining[n..])
  }

  function NextPiece(sizes: nat -> nat, readCount: nat, remaining: seq<byte>, maxLength: nat): (n: nat)
    requires remaining != [] && maxLength > 0
    ensures 0 < n <= |remaining| && n <= maxLength
  {
    Clamp(sizes(readCount), if |remaining| < maxLength then |remaining| else maxLength)
  }

  /** An input stream. `sizes` says how much each read hands out; an unreliable stream may fail at any read. */
  class SourceStream {
    const reliable: bool
    const sizes: nat -> nat
    var readCount: nat
    var remaining: seq<byte>
    var streamError: bool

    constructor (content: seq<byte>, reliable: bool, sizes: nat -> nat)
      ensures remaining == content && readCount == 0 && !streamError && this.reliable == reliable && this.sizes == sizes
    {
      this.reliable := reliable;
      this.sizes := sizes;
      readCount := 0;
      remaining := content;
      streamError := false;
    }

    function ToCome(): seq<seq<byte>>
      reads this
    {
      Pieces(sizes, readCount, remaining)
    }

    /** May also be true at the end, where only a read can tell. */
    method HasBytesAvailable() returns (available: bool)
      ensures remaining != [] ==> available
    {
      available := *;
      if remaining != [] { available := true; }
    }

    method Read(maxLength: nat) returns (bytes: seq<byte>)
      requires maxLength > 0
      modifies this
      ensures reliable ==> streamError == old(streamError)
      ensures old(streamError) ==> streamError
      ensures readCount == old(readCount) + 1
      ensures !streamError && old(remaining) == [] ==> bytes == remaining == []
      ensures !streamError && old(remaining) != [] ==>
        var n := NextPiece(sizes, old(readCount), old(remaining), maxLength);
        bytes == old(remaining)[..n] && remaining == old(remaining)[n..]
    {
      readCount := readCount + 1;
      var fails := *;
      if !reliable && fails { streamError := true; }
      if streamError || remaining == [] {
        return [];
      }
      var n := NextPiece(sizes, readCount - 1, remaining, maxLength);
      bytes := remaining[..n];
      remaining := remaining[n..];
    }
  }

  // ---------------------------------------------------------------------------------------
  // Output
  // ---------------------------------------------------------------------------------------

  /** What an output stream answers: whether there is space, query by query, and how much each write takes. */
  datatype Answers = Answers(space: nat -> bool, takes: nat -> nat)

  datatype SinkState = SinkState(queries: nat, writes: nat, written: seq<byte>)

  /** What happens to a buffer: it is offered until everything is taken or a query for space is refused. */
  function Offer(a: Answers, bytes: seq<byte>, s: SinkState): SinkState
    decreases |bytes|
  {
    if bytes == [] then s
    else if !a.space(s.queries) then s.(queries := s.queries + 1)
    else
      var n := Clamp(a.takes(s.writes), |bytes|);
      Offer(a, bytes[n..], SinkState(s.queries + 1, s.writes + 1, s.written + bytes[..n]))
  }

  lemma OfferStep(a: Answers, bytes: seq<byte>, s: SinkState)
    ensures Offer(a, [], s) == s
    ensures bytes != [] ==>
      Offer(a, bytes, s) ==
        if !a.space(s.queries) then s.(queries := s.queries + 1)
        else
          var n := Clamp(a.takes(s.writes), |bytes|);
          Offer(a, bytes[n..], SinkState(s.queries + 1, s.writes + 1, s.written + bytes[..n]))
  {
    hide Clamp;
  }

  /** One buffer after the other; a buffer that was refused does not stop the next. */
  function OfferAll(a: Answers, buffers: seq<seq<byte>>, s: SinkState): SinkState {
    if buffers == [] then s else OfferAll(a, buffers[1..], Offer(a, buffers[0], s))
  }

  /** No query from one point to another was refused. */
  predicate Granted(a: Answers, from: nat, to: nat) {
    forall q :: from <= q < to ==> a.space(q)
  }

  /** A buffer is written whole if and only if no query was refused; otherwise a proper prefix of it is. */
  lemma {:induction false} OfferExact(a: Answers, bytes: seq<byte>, s: SinkState)
    ensures var t := Offer(a, bytes, s);
            && s.queries <= t.queries && s.written <= t.written <= s.written + bytes
            && (t.written == s.written + bytes <==> Granted(a, s.queries, t.queries))
    decreases |bytes|
  {
    if bytes != [] {
      if a.space(s.queries) {
        var n := Clamp(a.takes(s.writes), |bytes|);
        var next := SinkState(s.queries + 1, s.writes + 1, s.written + bytes[..n]);
        OfferExact(a, bytes[n..], next);
        assert next.written + bytes[n..] == s.written + bytes;
        var t := Offer(a, bytes, s);
        assert Granted(a, s.queries, t.queries) <==> Granted(a, next.queries, t.queries);
      } else {
        assert !Granted(a, s.queries, s.queries + 1);
      }
    }
  }

  /**
   Everything offered is written if and only if no query was refused. Otherwise less is written, and what is
   missing need not be at the end.
   */
  lemma {:induction false} OfferAllExact(a: Answers, buffers: seq<seq<byte>>, s: SinkState)
    ensures var t := OfferAll(a, buffers, s);
            && s.queries <= t.queries && s.written <= t.written && |t.written| <= |s.written| + |Concat(buffers)|
            && (t.written == s.written + Concat(buffers) <==> Granted(a, s.queries, t.queries))
            && (!Granted(a, s.queries, t.queries) ==> |t.written| < |s.written| + |Concat(buffers)|)
  {
    hide Offer;
    if buffers != [] {
      var next := Offer(a, buffers[0], s);
      OfferExact(a, buffers[0], s);
      OfferAllExact(a, buffers[1..], next);
      var t := OfferAll(a, buffers, s);
      GrantedSplits(a, s.queries, next.queries, t.queries);
      if Granted(a, s.queries, t.queries) {
        assert s.written + buffers[0] + Concat(buffers[1..]) == s.written + Concat(buffers);
      }
    }
  }

  lemma GrantedSplits(a: Answers, from: nat, mid: nat, to: nat)
    requires from <= mid <= to
    ensures Granted(a, from, to) <==> Granted(a, from, mid) && Granted(a, mid, to)
  {
  }

  lemma {:induction false} OfferAllAppend(a: Answers, first: seq<seq<byte>>, second: seq<seq<byte>>, s: SinkState)
    ensures OfferAll(a, first + second, s) == OfferAll(a, second, OfferAll(a, first, s))
    ensures Concat(first + second) == Concat(first) + Concat(second)
  {
    if first == [] {
      assert first + second == second;
      assert Concat(first) + Concat(second) == Concat(second);
    } else {
      assert (first + second)[1..] == first[1..] + second;
      OfferAllAppend(a, first[1..], second, Offer(a, first[0], s));
      assert first[0] + (Concat(first[1..]) + Concat(second)) == first[0] + Concat(first[1..]) + Concat(second);
    }
  }

  lemma OfferOne(a: Answers, bytes: seq<byte>, s: SinkState)
    ensures OfferAll(a, [bytes], s) == Offer(a, bytes, s) && Concat([bytes]) == bytes
  {
    assert [bytes][1..] == [] && bytes + [] == bytes;
  }

  /** An output stream; it never takes nothing of what it is offered, but an unreliable one may fail at any write. */
  class SinkStream {
    const reliable: bool
    const answers: Answers
    var queries: nat
    var writes: nat
    var written: seq<byte>
    var streamError: bool

    constructor (reliable: bool, answers: Answers)
      ensures State() == SinkState(0, 0, []) && !streamError && this.reliable == reliable && this.answers == answers
    {
      this.reliable := reliable;
      this.answers := answers;
      queries, writes, written := 0, 0, [];
      streamError := false;
    }

    function State(): SinkState
      reads this
    {
      SinkState(queries, writes, written)
    }

    method HasSpaceAvailable() returns (available: bool)
      modifies `queries
      ensures queries == old(queries) + 1 && available == answers.space(old(queries))
    {
      available := answers.space(queries);
      queries := queries + 1;
    }

    method Write(bytes: seq<byte>) returns (count: int)
      requires bytes != []
      modifies this
      ensures reliable ==> streamError == old(streamError)
      ensures old(streamError) ==> streamError
      ensures queries == old(queries) && writes == old(writes) + 1
      ensures !streamError ==> count == Clamp(answers.takes(old(writes)), |bytes|) && written == old(written) + bytes[..count]
      ensures streamError ==> written == old(written)
    {
      writes := writes + 1;
      var fails := *;
      if !reliable && fails { streamError := true; }
      if streamError {
        return -1;
      }
      count := Clamp(answers.takes(writes - 1), |bytes|);
      written := written + bytes[..count];
    }
  }

  class BodyPart {
    const headers: seq<Header>
    const bodyStream: SourceStream
    const bodyContentLength: nat
    var hasInitialBoundary: bool
    var hasFinalBoundary: bool

    constructor (headers: seq<Header>, bodyStream: SourceStream, bodyContentLength: nat)
      ensures this.headers == headers && this.bodyStream == bodyStream && this.bodyContentLength == bodyContentLength
      ensures !hasInitialBoundary && !hasFinalBoundary
    {
      this.headers, this.bodyStream, this.bodyContentLength := headers, bodyStream, bodyContentLength;
      hasInitialBoundary, hasFinalBoundary := false, false;
    }

    function Value(): (p: Part)
      reads this, bodyStream
      ensures Body(p) == bodyStream.remaining
    {
      Part(headers, bodyStream.ToCome(), bodyContentLength, hasInitialBoundary, hasFinalBoundary)
    }
  }

  // ---------------------------------------------------------------------------------------
  // The two implementations
  // ---------------------------------------------------------------------------------------

  /** `encodeBodyStream`: everything the stream delivers, if that is as long as declared. */
  method EncodeBodyStream(part: BodyPart) returns (r: Result<seq<byte>>)
    requires !part.bodyStream.streamError
    modifies part.bodyStream
    ensures r.Success? ==> r.value == old(part.bodyStream.remaining) && |r.value| == part.bodyContentLength
    ensures r.Success? ==> !part.bodyStream.streamError && part.bodyStream.remaining == []
    ensures part.bodyStream.reliable ==> (r.Success? <==> |old(part.bodyStream.remaining)| == part.bodyContentLength)
    ensures part.bodyStream.reliable ==> !part.bodyStream.streamError
    ensures r.Failure? ==> r.error == if part.bodyStream.streamError then InputStreamReadFailed
                                      else UnexpectedInputStreamLength(part.bodyContentLength, |old(part.bodyStream.remaining)|)
    ensures r.Failure? && |old(part.bodyStream.remaining)| == part.bodyContentLength ==> part.bodyStream.streamError
  {
    hide NextPiece;
    var stream := part.bodyStream;
    var encoded: seq<byte> := [];
    var available := stream.HasBytesAvailable();
    while available
      invariant !stream.streamError
      invariant encoded + stream.remaining == old(stream.remaining)
      invariant !available ==> stream.remaining == []
      decreases |stream.remaining|, available
    {
      var bytes := stream.Read(STREAM_BUFFER_SIZE);
      if stream.streamError {
        return Failure(InputStreamReadFailed);
      }
      if |bytes| > 0 {
        encoded := encoded + bytes;
      } else {
        break;
      }
      available := stream.HasBytesAvailable();
    }
    assert stream.remaining == [];
    if |encoded| != part.bodyContentLength {
      return Failure(UnexpectedInputStreamLength(part.bodyContentLength, |encoded|));
    }
    return Success(encoded);
  }

  /** `encode(_ bodyPart:)` */
  method EncodePart(boundary: seq<byte>, part: BodyPart) returns (r: Result<seq<byte>>)
    requires !part.bodyStream.streamError
    modifies part.bodyStream
    ensures r.Success? ==> r.value == EncodedPart(boundary, old(part.Value())) && |Body(old(part.Value()))| == part.bodyContentLength
    ensures r.Success? ==> !part.bodyStream.streamError && part.bodyStream.remaining == []
    ensures part.bodyStream.reliable ==> (r.Success? <==> |Body(old(part.Value()))| == part.bodyContentLength)
    ensures part.bodyStream.reliable ==> !part.bodyStream.streamError
    ensures r.Failure? ==> r.error == if part.bodyStream.streamError then InputStreamReadFailed
                                      else UnexpectedInputStreamLength(part.bodyContentLength, |Body(old(part.Value()))|)
    ensures r.Failure? && |Body(old(part.Value()))| == part.bodyContentLength ==> part.bodyStream.streamError
  {
    hide HeaderBlock, BoundaryData;
    var encoded := BoundaryData(if part.hasInitialBoundary then InitialBoundary else EncapsulatedBoundary, boundary);
    encoded := encoded + HeaderBlock(part.headers);
    var body := EncodeBodyStream(part);
    if body.Failure? {
      return body;
    }
    encoded := encoded + body.value;
    if part.hasFinalBoundary {
      encoded := encoded + BoundaryData(FinalBoundary, boundary);
    }
    return Success(encoded);
  }

  /** The loop of `write(_ buffer:)`. When space is refused it ends without an error. */
  method WriteBuffer(bytes: seq<byte>, sink: SinkStream) returns (r: Result<()>)
    requires !sink.streamError
    modifies sink
    ensures r.Success? ==> !sink.streamError && sink.State() == Offer(sink.answers, bytes, old(sink.State()))
    ensures r.Success? ==> (sink.written == old(sink.written) + bytes <==> Granted(sink.answers, old(sink.queries), sink.queries))
    ensures old(sink.written) <= sink.written <= old(sink.written) + bytes
    ensures sink.reliable ==> r.Success?
    ensures r.Failure? ==> sink.streamError && r.error == OutputStreamWriteFailed
  {
    hide Clamp, Granted, Offer;
    OfferExact(sink.answers, bytes, sink.State());
    OfferStep(sink.answers, bytes, sink.State());
    var buffer := bytes;
    var bytesToWrite := |bytes|;
    while bytesToWrite > 0
      invariant !sink.streamError && 0 <= bytesToWrite <= |buffer|
      invariant bytesToWrite > 0 ==> bytesToWrite == |buffer| && sink.written + buffer == old(sink.written) + bytes
      invariant old(sink.written) <= sink.written <= old(sink.written) + bytes
      invariant Offer(sink.answers, bytes, old(sink.State()))
             == if bytesToWrite > 0 then Offer(sink.answers, buffer, sink.State()) else sink.State()
      decreases bytesToWrite
    {
      OfferStep(sink.answers, buffer, sink.State());
      var space := sink.HasSpaceAvailable();
      if !space {
        break;
      }
      var count := sink.Write(buffer[..bytesToWrite]);
      if sink.streamError {
        return Failure(OutputStreamWriteFailed);
      }
      assert buffer[..bytesToWrite] == buffer == buffer[..count] + buffer[count..];
      OfferStep(sink.answers, buffer[count..], sink.State());
      bytesToWrite := bytesToWrite - count;
      if bytesToWrite > 0 {
        buffer := buffer[count..];
      }
    }
    return Success(());
  }

  /** `writeBodyStream`: piece by piece; neither the declared length nor a refusal is looked at. */
  method WriteBodyStream(part: BodyPart, sink: SinkStream) returns (r: Result<()>)
    requires !part.bodyStream.streamError && !sink.streamError
    modifies part.bodyStream, sink
    ensures r.Success? ==> !sink.streamError && !part.bodyStream.streamError && part.bodyStream.remaining == []
    ensures r.Success? ==> sink.State() == OfferAll(sink.answers, old(part.bodyStream.ToCome()), old(sink.State()))
    ensures r.Success? ==>
      (sink.written == old(sink.written) + old(part.bodyStream.remaining) <==> Granted(sink.answers, old(sink.queries), sink.queries))
    ensures sink.reliable && part.bodyStream.reliable ==> r.Success?
    ensures r.Failure? ==> if sink.streamError then r.error == OutputStreamWriteFailed
                           else part.bodyStream.streamError && r.error == InputStreamReadFailed
  {
    hide Offer, NextPiece;
    var stream := part.bodyStream;
    OfferAllExact(sink.answers, stream.ToCome(), sink.State());
    var available := stream.HasBytesAvailable();
    while available
      invariant !stream.streamError && !sink.streamError
      invariant OfferAll(sink.answers, old(stream.ToCome()), old(sink.State())) == OfferAll(sink.answers, stream.ToCome(), sink.State())
      invariant !available ==> stream.remaining == []
      decreases |stream.remaining|, available
    {
      ghost var pieces := stream.ToCome();
      var bytes := stream.Read(STREAM_BUFFER_SIZE);
      if stream.streamError {
        return Failure(InputStreamReadFailed);
      }
      if |bytes| > 0 {
        assert pieces == [bytes] + stream.ToCome() && pieces[1..] == stream.ToCome();
        r := WriteBuffer(bytes, sink);
        if r.Failure? {
          return;
        }
      } else {
        break;
      }
      available := stream.HasBytesAvailable();
    }
    assert stream.remaining == [];
    return Success(());
  }

  /** The buffers that writing a part offers one after the other. */
  function PartBuffers(boundary: seq<byte>, p: Part): seq<seq<byte>> {
    [OpeningBoundary(boundary, p)] + [HeaderBlock(p.headers)] + p.pieces
    + (if p.final then [BoundaryData(FinalBoundary, boundary)] else [])
  }

  lemma PartBuffersEncode(boundary: seq<byte>, p: Part)
    ensures Concat(PartBuffers(boundary, p)) == EncodedPart(boundary, p)
  {
    hide OpeningBoundary, HeaderBlock, BoundaryData;
    var a := Answers(_ => true, _ => 0);
    var s := SinkState(0, 0, []);
    var open, header, close := OpeningBoundary(boundary, p), HeaderBlock(p.headers), if p.final then [BoundaryData(FinalBoundary, boundary)] else [];
    OfferOne(a, open, s);
    OfferOne(a, header, s);
    OfferOne(a, BoundaryData(FinalBoundary, boundary), s);
    OfferAllAppend(a, [open], [header], s);
    OfferAllAppend(a, [open] + [header], p.pieces, s);
    OfferAllAppend(a, [open] + [header] + p.pieces, close, s);
    assert open + header + Body(p) == open + (header + Body(p));
  }

  /** `write(_ bodyPart:)` */
  method WritePart(boundary: seq<byte>, part: BodyPart, sink: SinkStream) returns (r: Result<()>)
    requires !part.bodyStream.streamError && !sink.streamError
    modifies part.bodyStream, sink
    ensures r.Success? ==> !sink.streamError && !part.bodyStream.streamError && part.bodyStream.remaining == []
    ensures r.Success? ==> sink.State() == OfferAll(sink.answers, PartBuffers(boundary, old(part.Value())), old(sink.State()))
    ensures r.Success? ==>
      (sink.written == old(sink.written) + EncodedPart(boundary, old(part.Value())) <==> Granted(sink.answers, old(sink.queries), sink.queries))
    ensures sink.reliable && part.bodyStream.reliable ==> r.Success?
    ensures r.Failure? ==> if sink.streamError then r.error == OutputStreamWriteFailed
                           else part.bodyStream.streamError && r.error == InputStreamReadFailed
  {
    hide HeaderBlock, BoundaryData, Offer, EncodedPart, Granted, Pieces;
    ghost var p, a, s := part.Value(), sink.answers, sink.State();
    ghost var open, header, close := OpeningBoundary(boundary, p), HeaderBlock(p.headers), BoundaryData(FinalBoundary, boundary);
    PartBuffersEncode(boundary, p);
    OfferAllExact(a, PartBuffers(boundary, p), s);
    WritingOrder(a, open, header, p.pieces, close, s);
    r := WriteBuffer(BoundaryData(if part.hasInitialBoundary then InitialBoundary else EncapsulatedBoundary, boundary), sink);
    if r.Failure? { return; }
    r := WriteBuffer(HeaderBlock(part.headers), sink);
    if r.Failure? { return; }
    r := WriteBodyStream(part, sink);
    if r.Failure? { return; }
    if part.hasFinalBoundary {
      r := WriteBuffer(BoundaryData(FinalBoundary, boundary), sink);
    }
  }

  lemma WritingOrder(a: Answers, open: seq<byte>, header: seq<byte>, pieces: seq<seq<byte>>, close: seq<byte>, s: SinkState)
    ensures var t := OfferAll(a, pieces, Offer(a, header, Offer(a, open, s)));
            && OfferAll(a, [open] + [header] + pieces + [], s) == t
            && OfferAll(a, [open] + [header] + pieces + [close], s) == Offer(a, close, t)
  {
    hide Offer;
    OfferAllAppend(a, [open], [header], s);
    OfferOne(a, open, s);
    OfferOne(a, header, Offer(a, open, s));
    OfferAllAppend(a, [open] + [header], pieces, s);
    OfferAllAppend(a, [open] + [header] + pieces, [close], s);
    OfferOne(a, close, OfferAll(a, [open] + [header] + pieces, s));
    assert [open] + [header] + pieces + [] == [open] + [header] + pieces;
  }

  /**
   A run that is reported as successful with a hole in the middle of the body: of three pieces the second
   finds no space, and the third is written behind the first.
   */
  method HoleInTheMiddle() returns (r: Result<()>, written: seq<byte>)
    ensures r.Success? && written == [7, 9]
  {
    var body: seq<byte> := [7, 8, 9];
    var source := new SourceStream(body, true, _ => 1);
    var part := new BodyPart([], source, 3);
    var sink := new SinkStream(true, Answers(q => q != 1, _ => 1));
    ThreePieces(source.sizes, sink.answers);
    r := WriteBodyStream(part, sink);
    written := sink.written;
  }

  lemma ThreePieces(sizes: nat -> nat, a: Answers)
    requires forall k :: sizes(k) == 1
    requires forall q: nat :: a.space(q) <==> q != 1
    ensures OfferAll(a, Pieces(sizes, 0, [7, 8, 9]), SinkState(0, 0, [])).written == [7, 9]
  {
    var body: seq<byte> := [7, 8, 9];
    assert body[..1] == [7] && body[1..] == [8, 9] && body[1..][..1] == [8] && body[1..][1..] == [9];
    var last: seq<byte> := [9];
    assert last[..1] == last && last[1..] == [];
    assert Pieces(sizes, 2, last) == [last] + [] == [[9]];
    assert Pieces(sizes, 1, [8, 9]) == [[8]] + [[9]] == [[8], [9]];
    assert Pieces(sizes, 0, body) == [[7]] + [[8], [9]] == [[7], [8], [9]];
    var s0 := SinkState(0, 0, []);
    var s1 := Offer(a, [7], s0);
    assert s1 == SinkState(1, 1, [7]);
    var s2 := Offer(a, [8], s1);
    assert s2 == SinkState(2, 1, [7]);
    var s3 := Offer(a, [9], s2);
    assert s3 == SinkState(3, 2, [7, 9]);
    assert [[7], [8], [9]][1..] == [[8], [9]] && [[8], [9]][1..] == [[9]];
    OfferOne(a, [9], s2);
  }

  // ---------------------------------------------------------------------------------------
  // The form
  // ---------------------------------------------------------------------------------------

  /** What is left of the parts once their streams have been read to the end. */
  function Drained(parts: seq<Part>): (r: seq<Part>)
    ensures |r| == |parts|
  {
    seq(|parts|, i requires 0 <= i < |parts| => parts[i].(pieces := []))
  }

  ghost function StreamsOf(parts: seq<BodyPart>): set<SourceStream> {
    set p | p in parts :: p.bodyStream
  }

  lemma StreamsLast(parts: seq<BodyPart>)
    requires |parts| > 0
    ensures StreamsOf(parts) == StreamsOf(parts[..|parts| - 1]) + {parts[|parts| - 1].bodyStream}
  {
    var before, last := parts[..|parts| - 1], parts[|parts| - 1];
    assert parts == before + [last];
    forall s ensures s in StreamsOf(parts) <==> s in StreamsOf(before) + {last.bodyStream} {
      if s in StreamsOf(parts) {
        var p :| p in parts && p.bodyStream == s;
        assert p in before || p == last;
      }
    }
  }

  /** An earlier part has the same stream, and will have read it to the end. */
  ghost predicate Repeats(parts: seq<BodyPart>, k: nat)
    requires k < |parts|
  {
    exists j :: 0 <= j < k && parts[j].bodyStream == parts[k].bodyStream
  }

  ghost function ValueAt(parts: seq<BodyPart>, k: nat): Part
    requires k < |parts|
    reads parts[k], parts[k].bodyStream
  {
    if Repeats(parts, k) then parts[k].Value().(pieces := []) else parts[k].Value()
  }

  ghost function Values(parts: seq<BodyPart>): (r: seq<Part>)
    reads parts, StreamsOf(parts)
    ensures |r| == |parts| && forall k :: 0 <= k < |parts| ==> r[k] == ValueAt(parts, k)
  {
    if |parts| == 0 then []
    else
      var before := parts[..|parts| - 1];
      assert forall p :: p in before ==> p in parts;
      assert forall k :: 0 <= k < |before| ==> (Repeats(before, k) <==> Repeats(parts, k)) by { RepeatsBefore(parts); }
      Values(before) + [ValueAt(parts, |parts| - 1)]
  }

  lemma RepeatsBefore(parts: seq<BodyPart>)
    requires |parts| > 0
    ensures forall k :: 0 <= k < |parts| - 1 ==> (Repeats(parts[..|parts| - 1], k) <==> Repeats(parts, k))
  {
    var before := parts[..|parts| - 1];
    forall k | 0 <= k < |before| ensures Repeats(before, k) <==> Repeats(parts, k) {
      if Repeats(parts, k) {
        var j :| 0 <= j < k && parts[j].bodyStream == parts[k].bodyStream;
        assert before[j].bodyStream == before[k].bodyStream;
      }
      if Repeats(before, k) {
        var j :| 0 <= j < k && before[j].bodyStream == before[k].bodyStream;
        assert parts[j].bodyStream == parts[k].bodyStream;
      }
    }
  }

  predicate DeclaredLengths(parts: seq<Part>) {
    forall k :: 0 <= k < |parts| ==> |Body(parts[k])| == parts[k].length
  }

  /** The buffers that writing the form offers one after the other. */
  function FormBuffers(boundary: seq<byte>, parts: seq<Part>): seq<seq<byte>> {
    if |parts| == 0 then []
    else FormBuffers(boundary, parts[..|parts| - 1]) + PartBuffers(boundary, parts[|parts| - 1])
  }

  lemma {:induction false} FormBuffersEncode(boundary: seq<byte>, parts: seq<Part>)
    ensures Concat(FormBuffers(boundary, parts)) == EncodedParts(boundary, parts)
  {
    hide PartBuffers, EncodedPart;
    if |parts| > 0 {
      var before, last := parts[..|parts| - 1], parts[|parts| - 1];
      FormBuffersEncode(boundary, before);
      PartBuffersEncode(boundary, last);
      OfferAllAppend(Answers(_ => true, _ => 0), FormBuffers(boundary, before), PartBuffers(boundary, last), SinkState(0, 0, []));
    }
  }

  lemma EncodedUpTo(boundary: seq<byte>, parts: seq<Part>, i: nat)
    requires i < |parts|
    ensures EncodedParts(boundary, parts[..i + 1]) == EncodedParts(boundary, parts[..i]) + EncodedPart(boundary, parts[i])
    ensures FormBuffers(boundary, parts[..i + 1]) == FormBuffers(boundary, parts[..i]) + PartBuffers(boundary, parts[i])
  {
    hide EncodedPart, PartBuffers;
    assert parts[..i + 1][..i] == parts[..i];
  }

  lemma NothingToCome(stream: SourceStream)
    ensures stream.remaining == [] ==> stream.ToCome() == []
  {
  }

  lemma EncodedNone(boundary: seq<byte>, parts: seq<Part>)
    ensures EncodedParts(boundary, parts[..0]) == [] && FormBuffers(boundary, parts[..0]) == []
  {
  }

  lemma MarkingKeepsLengths(parts: seq<Part>)
    ensures DeclaredLengths(Marked(parts)) <==> DeclaredLengths(parts)
  {
    hide Body;
    var marked := Marked(parts);
    assert forall k :: 0 <= k < |parts| ==> Body(marked[k]) == Body(parts[k]) && marked[k].length == parts[k].length by {
      FlagsAreNotBody(parts);
    }
  }

  lemma FlagsAreNotBody(parts: seq<Part>)
    ensures forall k :: 0 <= k < |parts| ==> Body(Marked(parts)[k]) == Body(parts[k])
  {
  }

  lemma ValuesLast(parts: seq<BodyPart>)
    requires |parts| > 0
    ensures Values(parts) == Values(parts[..|parts| - 1]) + [ValueAt(parts, |parts| - 1)]
  {
    hide ValueAt;
  }

  lemma RepeatsLast(parts: seq<BodyPart>)
    requires |parts| > 0
    ensures var before := parts[..|parts| - 1];
            Repeats(parts, |before|) <==> parts[|before|].bodyStream in StreamsOf(before)
  {
    var before := parts[..|parts| - 1];
    if Repeats(parts, |before|) {
      var j :| 0 <= j < |before| && parts[j].bodyStream == parts[|before|].bodyStream;
      assert before[j] in before;
    }
    if parts[|before|].bodyStream in StreamsOf(before) {
      var p :| p in before && p.bodyStream == parts[|before|].bodyStream;
      var j :| 0 <= j < |before| && before[j] == p;
      assert parts[j].bodyStream == parts[|before|].bodyStream;
    }
  }

  /** The error names the first part whose stream does not deliver what was declared. */
  ghost predicate FirstUndeclared(parts: seq<Part>, error: Error) {
    exists k :: 0 <= k < |parts| && UndeclaredAt(parts, k, error)
  }

  predicate UndeclaredAt(parts: seq<Part>, k: nat, error: Error) {
    && k < |parts| && |Body(parts[k])| != parts[k].length
    && error == UnexpectedInputStreamLength(parts[k].length, |Body(parts[k])|)
    && forall j :: 0 <= j < k ==> |Body(parts[j])| == parts[j].length
  }

  lemma MarkingKeepsUndeclared(parts: seq<Part>, error: Error)
    ensures FirstUndeclared(Marked(parts), error) <==> FirstUndeclared(parts, error)
  {
    hide Body, Marked, UndeclaredAt;
    forall k: nat | k < |parts|
      ensures UndeclaredAt(Marked(parts), k, error) <==> UndeclaredAt(parts, k, error)
    {
      SameUndeclared(parts, k, error);
    }
  }

  lemma SameUndeclared(parts: seq<Part>, k: nat, error: Error)
    requires k < |parts|
    ensures UndeclaredAt(Marked(parts), k, error) <==> UndeclaredAt(parts, k, error)
  {
    hide Body;
    var marked := Marked(parts);
    assert forall j :: 0 <= j < |parts| ==> Body(marked[j]) == Body(parts[j]) && marked[j].length == parts[j].length by {
      FlagsAreNotBody(parts);
    }
  }

  class MultipartFormData {
    const boundary: seq<byte>
    var bodyParts: seq<BodyPart>
    var bodyPartError: Option<Error>

    ghost function Streams(): set<SourceStream>
      reads this
    {
      StreamsOf(bodyParts)
    }

    /** The first `done` parts have been read to the end, the others have not been touched. */
    ghost predicate ReadUpTo(done: nat, marked: seq<Part>)
      reads this, bodyParts, Streams()
    {
      && done <= |bodyParts| == |marked|
      && (forall k :: 0 <= k < done ==> bodyParts[k].bodyStream.remaining == [])
      && (forall k :: 0 <= k < done ==> ValueAt(bodyParts, k) == marked[k].(pieces := []))
      && (forall k :: done <= k < |bodyParts| ==> ValueAt(bodyParts, k) == marked[k])
    }

    lemma NotYetRead(i: nat, marked: seq<Part>)
      requires ReadUpTo(i, marked) && i < |bodyParts|
      ensures bodyParts[i].Value() == marked[i]
    {
      hide Repeats;
      if Repeats(bodyParts, i) { RepeatedIsRead(i); }
    }

    lemma RepeatedIsRead(i: nat)
      requires i < |bodyParts| && Repeats(bodyParts, i)
      requires forall k :: 0 <= k < i ==> bodyParts[k].bodyStream.remaining == []
      ensures bodyParts[i].bodyStream.remaining == [] && bodyParts[i].bodyStream.ToCome() == []
    {
    }

    twostate predicate SameFlags(p: BodyPart)
      reads p
    {
      p.hasInitialBoundary == old(p.hasInitialBoundary) && p.hasFinalBoundary == old(p.hasFinalBoundary)
    }

    twostate predicate SameStream(stream: SourceStream)
      reads stream
    {
      stream.ToCome() == old(stream.ToCome()) && stream.remaining == old(stream.remaining)
    }

    /** Reading the stream of part `i` to the end changes no part but those that share it. */
    twostate lemma OneMoreRead(i: nat, new marked: seq<Part>)
      requires bodyParts == old(bodyParts) && i < |bodyParts| && old(ReadUpTo(i, marked))
      requires bodyParts[i].bodyStream.remaining == []
      requires forall k :: 0 <= k < |bodyParts| ==> SameFlags(bodyParts[k])
      requires forall k :: 0 <= k < |bodyParts| && bodyParts[k].bodyStream != bodyParts[i].bodyStream ==> SameStream(bodyParts[k].bodyStream)
      ensures ReadUpTo(i + 1, marked)
    {
      hide Pieces;
      forall k | 0 <= k < |bodyParts|
        ensures ValueAt(bodyParts, k) == if k < i + 1 then marked[k].(pieces := []) else marked[k]
      {
        assert bodyParts[k].bodyStream.remaining == [] ==> bodyParts[k].bodyStream.ToCome() == [] by { NothingToCome(bodyParts[k].bodyStream); }
        if k > i && bodyParts[k].bodyStream == bodyParts[i].bodyStream {
          assert Repeats(bodyParts, k);
        }
      }
    }

    /** Every part is an object of its own, and only the first may carry an initial boundary. */
    ghost predicate Valid()
      reads this, bodyParts
    {
      && (forall i, j :: 0 <= i < j < |bodyParts| ==> bodyParts[i] != bodyParts[j])
      && (forall i :: 0 < i < |bodyParts| ==> !bodyParts[i].hasInitialBoundary)
    }

    ghost predicate Working()
      reads this, Streams()
    {
      forall p :: p in bodyParts ==> !p.bodyStream.streamError
    }

    ghost predicate Reliable()
      reads this
    {
      forall p :: p in bodyParts ==> p.bodyStream.reliable
    }

    /** The parts as they are going to be encoded. A stream that is used twice has nothing for its second part. */
    ghost function Parts(): seq<Part>
      reads this, bodyParts, Streams()
    {
      Values(bodyParts)
    }

    constructor (boundary: seq<byte>)
      ensures Valid() && Working() && this.boundary == boundary && bodyPartError == None && Parts() == []
    {
      this.boundary := boundary;
      bodyParts := [];
      bodyPartError := None;
    }

    method Append(stream: SourceStream, length: nat, headers: seq<Header>)
      requires Valid()
      modifies `bodyParts
      ensures Valid()
      ensures Parts() == old(Parts())
        + [Part(headers, if stream in old(Streams()) then [] else stream.ToCome(), length, false, false)]
      ensures Streams() == old(Streams()) + {stream}
      ensures old(Working()) && !stream.streamError ==> Working()
    {
      hide Pieces, Repeats, Values, StreamsOf, SourceStream.ToCome, Valid, Working;
      var bodyPart := new BodyPart(headers, stream, length);
      ghost var before := bodyParts;
      bodyParts := bodyParts + [bodyPart];
      assert bodyParts[..|bodyParts| - 1] == before;
      StillValid(before, bodyPart);
      StreamsLast(bodyParts);
      RepeatsLast(bodyParts);
      ValuesLast(bodyParts);
    }

    twostate lemma StillValid(before: seq<BodyPart>, new bodyPart: BodyPart)
      requires before == old(bodyParts) && bodyParts == before + [bodyPart] && fresh(bodyPart) && !bodyPart.hasInitialBoundary
      requires old(Valid()) && forall p :: p in before ==> old(allocated(p)) && p.hasInitialBoundary == old(p.hasInitialBoundary)
      requires forall p :: p in before ==> old(allocated(p.bodyStream)) && p.bodyStream.streamError == old(p.bodyStream.streamError)
      ensures Valid()
      ensures old(Working()) && !bodyPart.bodyStream.streamError ==> Working()
    {
    }

    /** Only the first error is kept. */
    method SetBodyPartError(error: Error)
      modifies `bodyPartError
      ensures bodyPartError == if old(bodyPartError).Some? then old(bodyPartError) else Some(error)
    {
      if bodyPartError.Some? {
        return;
      }
      bodyPartError := Some(error);
    }

    method MarkEnds()
      requires Valid()
      modifies bodyParts
      ensures Valid() && Parts() == Marked(old(Parts())) && |Parts()| == |bodyParts|
      ensures ReadUpTo(0, Parts()) && (old(Working()) ==> Working())
    {
      hide Pieces, Repeats;
      if |bodyParts| > 0 {
        bodyParts[0].hasInitialBoundary := true;
        bodyParts[|bodyParts| - 1].hasFinalBoundary := true;
      }
    }

    /** A turn of the loop of `encode`. */
    method EncodeTurn(i: nat, ghost marked: seq<Part>) returns (r: Result<seq<byte>>)
      requires Valid() && Working() && ReadUpTo(i, marked) && i < |bodyParts|
      modifies bodyParts[i].bodyStream
      ensures Valid()
      ensures r.Success? ==> r.value == EncodedPart(boundary, marked[i]) && |Body(marked[i])| == marked[i].length
      ensures r.Success? ==> Working() && ReadUpTo(i + 1, marked)
      ensures bodyParts[i].bodyStream.reliable ==> (r.Success? <==> |Body(marked[i])| == marked[i].length)
      ensures r.Failure? ==> (r.error == InputStreamReadFailed && !bodyParts[i].bodyStream.reliable)
                             || (r.error == UnexpectedInputStreamLength(marked[i].length, |Body(marked[i])|)
                                 && |Body(marked[i])| != marked[i].length)
    {
      hide EncodedPart, Octets, ReadUpTo, SourceStream.ToCome;
      NotYetRead(i, marked);
      r := EncodePart(boundary, bodyParts[i]);
      if r.Failure? {
        return;
      }
      OneMoreRead(i, marked);
    }

    /** A turn of the loop of `writeEncodedData`. */
    method WriteTurn(i: nat, ghost marked: seq<Part>, sink: SinkStream) returns (r: Result<()>)
      requires Valid() && Working() && ReadUpTo(i, marked) && i < |bodyParts| && !sink.streamError
      modifies bodyParts[i].bodyStream, sink
      ensures Valid()
      ensures r.Success? ==> Working() && !sink.streamError && ReadUpTo(i + 1, marked)
      ensures r.Success? ==> sink.State() == OfferAll(sink.answers, PartBuffers(boundary, marked[i]), old(sink.State()))
      ensures bodyParts[i].bodyStream.reliable && sink.reliable ==> r.Success?
      ensures r.Failure? ==> r.error == if sink.streamError then OutputStreamWriteFailed else InputStreamReadFailed
    {
      hide EncodedPart, PartBuffers, OfferAll, Granted, ReadUpTo, SourceStream.ToCome;
      NotYetRead(i, marked);
      r := WritePart(boundary, bodyParts[i], sink);
      if r.Failure? {
        return;
      }
      OneMoreRead(i, marked);
    }

    /** The loop of `encode` over the marked parts. */
    method EncodeAll(ghost marked: seq<Part>) returns (r: Result<seq<byte>>)
      requires Valid() && Working() && ReadUpTo(0, marked) && |marked| == |bodyParts|
      modifies Streams()
      ensures Valid()
      ensures r.Success? ==> r.value == EncodedParts(boundary, marked) && DeclaredLengths(marked)
      ensures r.Success? ==> Working() && ReadUpTo(|bodyParts|, marked)
      ensures Reliable() && DeclaredLengths(marked) ==> r.Success?
      ensures r.Failure? ==> (r.error == InputStreamReadFailed && !Reliable()) || FirstUndeclared(marked, r.error)
    {
      hide EncodedParts, EncodedPart, Valid, Working, ReadUpTo;
      var encoded: seq<byte> := [];
      EncodedNone(boundary, marked);
      var i := 0;
      while i < |bodyParts|
        invariant 0 <= i <= |bodyParts| == |marked|
        invariant Valid() && Working() && ReadUpTo(i, marked)
        invariant encoded == EncodedParts(boundary, marked[..i])
        invariant forall k :: 0 <= k < i ==> |Body(marked[k])| == marked[k].length
      {
        var part := EncodeTurn(i, marked);
        if part.Failure? {
          assert part.error != InputStreamReadFailed ==> UndeclaredAt(marked, i, part.error);
          return part;
        }
        encoded := encoded + part.value;
        EncodedUpTo(boundary, marked, i);
        i := i + 1;
      }
      assert marked[..i] == marked;
      return Success(encoded);
    }

    /** The loop of `writeEncodedData` over the marked parts. */
    method WriteAll(ghost marked: seq<Part>, sink: SinkStream) returns (r: Result<()>)
      requires Valid() && Working() && ReadUpTo(0, marked) && |marked| == |bodyParts| && !sink.streamError
      modifies Streams(), sink
      ensures Valid()
      ensures r.Success? ==> Working() && !sink.streamError && ReadUpTo(|bodyParts|, marked)
      ensures r.Success? ==> sink.State() == OfferAll(sink.answers, FormBuffers(boundary, marked), old(sink.State()))
      ensures Reliable() && sink.reliable ==> r.Success?
      ensures r.Failure? ==> r.error == if sink.streamError then OutputStreamWriteFailed else InputStreamReadFailed
    {
      hide FormBuffers, PartBuffers, Offer, Valid, Working, ReadUpTo;
      EncodedNone(boundary, marked);
      var i := 0;
      while i < |bodyParts|
        invariant 0 <= i <= |bodyParts| == |marked|
        invariant Valid() && Working() && ReadUpTo(i, marked) && !sink.streamError
        invariant sink.State() == OfferAll(sink.answers, FormBuffers(boundary, marked[..i]), old(sink.State()))
      {
        r := WriteTurn(i, marked, sink);
        if r.Failure? {
          return;
        }
        EncodedUpTo(boundary, marked, i);
        OfferAllAppend(sink.answers, FormBuffers(boundary, marked[..i]), PartBuffers(boundary, marked[i]), old(sink.State()));
        i := i + 1;
      }
      assert marked[..i] == marked;
      return Success(());
    }

    lemma AllRead(marked: seq<Part>)
      requires ReadUpTo(|bodyParts|, marked)
      ensures Parts() == Drained(marked)
    {
    }

    method Encode() returns (r: Result<seq<byte>>)
      requires Valid() && Working()
      modifies bodyParts, Streams()
      ensures Valid()
      ensures bodyPartError.Some? ==> r == Failure(bodyPartError.value) && Parts() == old(Parts())
      ensures r.Success? ==> r.value == EncodedParts(boundary, Marked(old(Parts()))) && DeclaredLengths(old(Parts()))
      ensures r.Success? ==> Working() && Parts() == Drained(Marked(old(Parts())))
      ensures Reliable() ==> (r.Success? <==> bodyPartError.None? && DeclaredLengths(old(Parts())))
      ensures r.Failure? && old(bodyPartError).None? ==> (r.error == InputStreamReadFailed && !Reliable()) || FirstUndeclared(old(Parts()), r.error)
    {
      hide EncodedParts, Valid, Working, ReadUpTo, Parts, Reliable, Drained, Marked, DeclaredLengths;
      if bodyPartError.Some? {
        return Failure(bodyPartError.value);
      }
      ghost var parts := Parts();
      MarkEnds();
      MarkingKeepsLengths(parts);
      r := EncodeAll(Marked(parts));
      if r.Success? {
        AllRead(Marked(parts));
      } else {
        MarkingKeepsUndeclared(parts, r.error);
      }
    }

    /**
     The declared lengths play no part here, and neither does a refusal of the output stream: a run that is
     reported as successful wrote the encoding if and only if no query for space was refused.
     */
    method WriteEncodedData(sink: SinkStream) returns (r: Result<()>)
      requires Valid() && Working() && !sink.streamError
      modifies bodyParts, Streams(), sink
      ensures Valid()
      ensures bodyPartError.Some? ==> r == Failure(bodyPartError.value) && Parts() == old(Parts()) && sink.written == old(sink.written)
      ensures r.Success? ==> Working() && !sink.streamError && Parts() == Drained(Marked(old(Parts())))
      ensures r.Success? ==> sink.State() == OfferAll(sink.answers, FormBuffers(boundary, Marked(old(Parts()))), old(sink.State()))
      ensures r.Success? ==> (sink.written == old(sink.written) + EncodedParts(boundary, Marked(old(Parts())))
                              <==> Granted(sink.answers, old(sink.queries), sink.queries))
      ensures Reliable() && sink.reliable ==> (r.Success? <==> bodyPartError.None?)
      ensures r.Failure? && old(bodyPartError).None? ==> r.error == if sink.streamError then OutputStreamWriteFailed else InputStreamReadFailed
    {
      hide EncodedParts, FormBuffers, OfferAll, Granted, Valid, Working, ReadUpTo, Parts, Reliable, Drained, Marked;
      if bodyPartError.Some? {
        return Failure(bodyPartError.value);
      }
      ghost var parts := Parts();
      MarkEnds();
      FormBuffersEncode(boundary, Marked(parts));
      OfferAllExact(sink.answers, FormBuffers(boundary, Marked(parts)), sink.State());
      r := WriteAll(Marked(parts), sink);
      if r.Success? {
        AllRead(Marked(parts));
      }
    }
  }
}

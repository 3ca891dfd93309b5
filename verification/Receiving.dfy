/**
 What a receiver makes of a form: each part is read line by line, up to the first empty line, and what
 follows is its body. When headers and bodies come back is decided here for all forms.
 */
module Receiving {
  import Wire
  import opened Options
  import opened Multipart
  import opened Framing

  type byte = Wire.byte

  datatype Received = Received(headers: seq<Header>, body: seq<byte>)

  /** A header line: the name ends at the first colon that a space follows. */
  function ParseHeader(line: seq<byte>): Option<Header> {
    var end := FirstIndex([58, 32], line);
    if end.None? then None else Some(Header(line[..end.value], line[end.value + 2..]))
  }

  /** The lines up to the first empty one are headers, and the rest is the body. */
  function ParsePart(text: seq<byte>): Option<Received>
    decreases |text|
  {
    var end := FirstIndex([13, 10], text);
    if end.None? then None
    else if end.value == 0 then Some(Received([], text[2..]))
    else
      var header, rest := ParseHeader(text[..end.value]), ParsePart(text[end.value + 2..]);
      if header.None? || rest.None? then None
      else Some(Received([header.value] + rest.value.headers, rest.value.body))
  }

  function ParseAll(octets: seq<seq<byte>>): Option<seq<Received>> {
    if octets == [] then Some([])
    else
      var first, rest := ParsePart(octets[0]), ParseAll(octets[1..]);
      if first.None? || rest.None? then None else Some([first.value] + rest.value)
  }

  /** A whole form: its parts are split at the delimiters, and each is read. */
  function Receive(boundary: seq<byte>, text: seq<byte>): Option<seq<Received>> {
    var octets := Split(boundary, text);
    if octets.None? then None else ParseAll(octets.value)
  }

  /** The line of a header can be read: it is one line, and its name ends where it should. */
  predicate Readable(h: Header) {
    !Contains(h.name, [58, 32]) && !Contains(h.name, [13, 10]) && !Contains(h.value, [13, 10])
  }

  predicate AllReadable(headers: seq<Header>) {
    forall i :: 0 <= i < |headers| ==> Readable(headers[i])
  }

  // ---------------------------------------------------------------------------------------
  // Two octets that are different are first found where they were put
  // ---------------------------------------------------------------------------------------

  lemma FirstPair(a: byte, b: byte, text: seq<byte>, rest: seq<byte>)
    requires a != b
    ensures FirstIndex([a, b], text + [a, b] + rest) == Some(|text|) <==> !Contains(text, [a, b])
  {
    hide FirstIndex;
    var p, whole := [a, b], text + [a, b] + rest;
    assert At(p, whole, |text|);
    forall k: nat | k < |text|
      ensures At(p, whole, k) <==> At(p, text, k)
    {
      if k + 1 < |text| {
        assert whole[k..k + 2] == text[k..k + 2];
      } else {
        assert k + 2 <= |whole| && whole[k..k + 2][1] == a;
      }
    }
  }

  /** Where a pair is found first, the text before it does not hold it. */
  lemma PairSplits(a: byte, b: byte, text: seq<byte>)
    requires a != b && FirstIndex([a, b], text).Some?
    ensures var k := FirstIndex([a, b], text).value;
            text == text[..k] + [a, b] + text[k + 2..] && !Contains(text[..k], [a, b])
  {
    hide FirstIndex;
    var k := FirstIndex([a, b], text).value;
    assert text == text[..k] + text[k..k + 2] + text[k + 2..];
    FirstPair(a, b, text[..k], text[k + 2..]);
  }

  // ---------------------------------------------------------------------------------------
  // Headers and parts
  // ---------------------------------------------------------------------------------------

  function Line(h: Header): seq<byte> {
    h.name + [58, 32] + h.value
  }

  lemma HeaderExact(line: seq<byte>, h: Header)
    ensures ParseHeader(line) == Some(h) <==> line == Line(h) && !Contains(h.name, [58, 32])
  {
    hide FirstIndex, Contains;
    if line == Line(h) {
      FirstPair(58, 32, h.name, h.value);
      if FirstIndex([58, 32], line) == Some(|h.name|) {
        assert line[..|h.name|] == h.name && line[|h.name| + 2..] == h.value;
      }
    }
    if ParseHeader(line) == Some(h) { PairSplits(58, 32, line); }
  }

  /** A line break in a header line is in its name or in its value. */
  lemma LineClean(h: Header)
    ensures Contains(Line(h), [13, 10]) <==> Contains(h.name, [13, 10]) || Contains(h.value, [13, 10])
  {
    var n, line, p := |h.name|, Line(h), [13 as byte, 10 as byte];
    forall k: nat | k + 2 <= n
      ensures At(p, line, k) <==> At(p, h.name, k)
    {
      assert line[k..k + 2] == h.name[k..k + 2];
    }
    forall k: nat | k + 2 <= |h.value|
      ensures At(p, line, k + n + 2) <==> At(p, h.value, k)
    {
      assert line[k + n + 2..k + n + 4] == h.value[k..k + 2];
    }
    forall k: nat | n < k + 2 && k < n + 2
      ensures !At(p, line, k)
    {
      AcrossColon(h, k);
    }
    BreakFound(h, line);
  }

  lemma AcrossColon(h: Header, k: nat)
    requires |h.name| < k + 2 && k < |h.name| + 2
    ensures !At([13, 10], Line(h), k)
  {
    var n, line := |h.name|, Line(h);
    assert line[n] == 58 && line[n + 1] == 32;
    if k + 2 <= |line| {
      assert line[k..k + 2][0] == line[k] && line[k..k + 2][1] == line[k + 1];
    }
  }

  lemma BreakFound(h: Header, line: seq<byte>)
    requires line == Line(h)
    requires forall k: nat :: k + 2 <= |h.name| ==> (At([13, 10], line, k) <==> At([13, 10], h.name, k))
    requires forall k: nat :: k + 2 <= |h.value| ==> (At([13, 10], line, k + |h.name| + 2) <==> At([13, 10], h.value, k))
    requires forall k: nat :: |h.name| < k + 2 && k < |h.name| + 2 ==> !At([13, 10], line, k)
    ensures Contains(line, [13, 10]) <==> Contains(h.name, [13, 10]) || Contains(h.value, [13, 10])
  {
    var p := [13 as byte, 10 as byte];
    if Contains(line, p) {
      var k: nat :| k <= |line| && At(p, line, k);
      if k + 2 <= |h.name| { assert At(p, h.name, k); } else { assert At(p, h.value, k - |h.name| - 2); }
    }
    if Contains(h.name, p) {
      var k: nat :| k <= |h.name| && At(p, h.name, k);
      assert At(p, line, k);
    }
    if Contains(h.value, p) {
      var k: nat :| k <= |h.value| && At(p, h.value, k);
      assert At(p, line, k + |h.name| + 2);
    }
  }

  /** What is written for a part, from the front. */
  lemma BlockFirst(r: Received)
    ensures r.headers == [] ==> HeaderBlock(r.headers) + r.body == [] + [13, 10] + r.body
    ensures r.headers != [] ==>
      HeaderBlock(r.headers) + r.body == Line(r.headers[0]) + [13, 10] + (HeaderBlock(r.headers[1..]) + r.body)
  {
    if r.headers != [] {
      var line, more := Line(r.headers[0]), HeaderLines(r.headers[1..]);
      assert line + CRLF + more + CRLF + r.body == line + [13, 10] + (more + CRLF + r.body);
    }
  }

  lemma {:induction false} PartRead(r: Received)
    requires AllReadable(r.headers)
    ensures ParsePart(HeaderBlock(r.headers) + r.body) == Some(r)
    decreases |r.headers|
  {
    hide FirstIndex, Contains, HeaderBlock, ParseHeader, Line;
    BlockFirst(r);
    if r.headers == [] {
      NothingHeld([13, 10]);
      FirstPair(13, 10, [], r.body);
    } else {
      var h, later := r.headers[0], Received(r.headers[1..], r.body);
      var line, rest := Line(h), HeaderBlock(later.headers) + r.body;
      PartRead(later);
      LineClean(h);
      LineNotEmpty(h);
      HeaderExact(line, h);
      FirstPair(13, 10, line, rest);
      CutPair(line, 13, 10, rest);
      assert r.headers == [h] + later.headers;
    }
  }

  lemma NothingHeld(pattern: seq<byte>)
    requires pattern != []
    ensures !Contains([], pattern)
  {
  }

  lemma LineNotEmpty(h: Header)
    ensures Line(h) != []
  {
  }

  lemma CutPair(line: seq<byte>, a: byte, b: byte, rest: seq<byte>)
    ensures (line + [a, b] + rest)[..|line|] == line && (line + [a, b] + rest)[|line| + 2..] == rest
  {
  }

  lemma {:induction false} PartParsed(text: seq<byte>)
    requires ParsePart(text).Some?
    ensures var r := ParsePart(text).value; text == HeaderBlock(r.headers) + r.body && AllReadable(r.headers)
    decreases |text|
  {
    hide FirstIndex, Contains, HeaderBlock, ParseHeader, Line;
    PairSplits(13, 10, text);
    var end, r := FirstIndex([13, 10], text).value, ParsePart(text).value;
    BlockFirst(r);
    if end != 0 {
      var line, rest, h := text[..end], text[end + 2..], r.headers[0];
      PartParsed(rest);
      HeaderExact(line, h);
      LineClean(h);
      assert r.headers[1..] == ParsePart(rest).value.headers;
    }
  }

  /**
   Reading gives these headers and this body if and only if the text is what is written for them and every
   header can be read. So no two parts with readable headers are written alike.
   */
  lemma PartExact(text: seq<byte>, r: Received)
    ensures ParsePart(text) == Some(r) <==> text == HeaderBlock(r.headers) + r.body && AllReadable(r.headers)
  {
    hide ParsePart, HeaderBlock, AllReadable;
    if AllReadable(r.headers) { PartRead(r); }
    if ParsePart(text) == Some(r) { PartParsed(text); }
  }

  // ---------------------------------------------------------------------------------------
  // Forms
  // ---------------------------------------------------------------------------------------

  /** What was put into the form. */
  function Contents(parts: seq<Part>): (r: seq<Received>)
    ensures |r| == |parts|
  {
    seq(|parts|, i requires 0 <= i < |parts| => Received(parts[i].headers, Body(parts[i])))
  }

  predicate HeadersReadable(parts: seq<Part>) {
    forall i :: 0 <= i < |parts| ==> AllReadable(parts[i].headers)
  }

  lemma {:induction false} ParseAllExact(octets: seq<seq<byte>>, parts: seq<Part>)
    ensures ParseAll(octets) == Some(Contents(parts)) <==> octets == AllOctets(parts) && HeadersReadable(parts)
    decreases |octets|
  {
    hide ParsePart, HeaderBlock, AllReadable, Body;
    if octets == [] || parts == [] {
      assert octets == [] ==> (ParseAll(octets) == Some(Contents(parts)) <==> parts == []);
    } else {
      var p := parts[0];
      PartExact(octets[0], Received(p.headers, Body(p)));
      ParseAllExact(octets[1..], parts[1..]);
      assert Contents(parts) == [Received(p.headers, Body(p))] + Contents(parts[1..]);
      FirstReadable(parts);
      OctetsFirst(parts);
      SameFirst(octets, AllOctets(parts));
      var first, rest := ParsePart(octets[0]), ParseAll(octets[1..]);
      if first.Some? && rest.Some? { SameFirst([first.value] + rest.value, Contents(parts)); }
    }
  }

  lemma SameFirst<T>(a: seq<T>, b: seq<T>)
    requires a != [] && b != []
    ensures a == b <==> a[0] == b[0] && a[1..] == b[1..]
  {
    assert a == [a[0]] + a[1..] && b == [b[0]] + b[1..];
  }

  lemma FirstReadable(parts: seq<Part>)
    requires parts != []
    ensures HeadersReadable(parts) <==> AllReadable(parts[0].headers) && HeadersReadable(parts[1..])
  {
    hide AllReadable;
    assert forall i :: 0 < i < |parts| ==> parts[i] == parts[1..][i - 1];
  }

  /**
   The receiver gets back the headers and the body of every part, in order, if and only if no part holds a
   delimiter, only the last part carries a final boundary, and every header can be read.
   */
  lemma FormReceived(boundary: seq<byte>, parts: seq<Part>)
    requires 13 !in boundary
    requires parts != [] && OnlyFirstInitial(parts) && parts[|parts| - 1].final
    ensures Receive(boundary, EncodedParts(boundary, parts)) == Some(Contents(parts))
        <==> Recoverable(boundary, parts) && HeadersReadable(parts)
  {
    hide Split, ParseAll, EncodedParts, AllOctets, Recoverable, HeadersReadable;
    SplitRecovers(boundary, parts);
    var octets := Split(boundary, EncodedParts(boundary, parts));
    if octets.Some? { ParseAllExact(octets.value, parts); }
  }

  /** A form that has not been encoded before. */
  lemma FreshFormReceived(boundary: seq<byte>, parts: seq<Part>)
    requires 13 !in boundary && parts != []
    requires forall i :: 0 <= i < |parts| ==> !parts[i].initial && !parts[i].final
    ensures Receive(boundary, EncodedParts(boundary, Marked(parts))) == Some(Contents(parts))
        <==> forall i :: 0 <= i < |parts| ==> Clean(boundary, parts[i]) && AllReadable(parts[i].headers)
  {
    hide Split, ParseAll, EncodedParts, AllOctets, Marked, AllReadable, Clean;
    FreshSplitRecovers(boundary, parts);
    var octets := Split(boundary, EncodedParts(boundary, Marked(parts)));
    if octets.Some? { ParseAllExact(octets.value, parts); }
  }
}

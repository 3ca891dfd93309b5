/**
 The receiving side of a multipart form: the grammar of section 5.1.1 of RFC 2046 as a splitter, and
 when it gives back the parts that `MultipartFormData` put in.
 */
module Framing {
  import opened Wire
  import opened Multipart
  import opened Options

  // The grammar has the octets of its terminals in its own rules: 9 TAB, 10 LF, 13 CR, 32 SPACE, 45 "-", 58 ":".

  /** The delimiter of the grammar: CRLF, two dashes, the boundary. */
  function Delimiter(boundary: seq<byte>): seq<byte> {
    [13, 10, 45, 45] + boundary
  }

  predicate At(pattern: seq<byte>, text: seq<byte>, k: nat) {
    k + |pattern| <= |text| && text[k..k + |pattern|] == pattern
  }

  predicate Contains(text: seq<byte>, pattern: seq<byte>) {
    exists k: nat :: k <= |text| && At(pattern, text, k)
  }

  function FirstIndex(pattern: seq<byte>, text: seq<byte>): (r: Option<nat>)
    ensures r.Some? ==> At(pattern, text, r.value) && forall k: nat :: k < r.value ==> !At(pattern, text, k)
    ensures r.None? ==> !Contains(text, pattern)
  {
    if |text| < |pattern| then None
    else if At(pattern, text, 0) then Some(0)
    else
      var rest := FirstIndex(pattern, text[1..]);
      assert forall k: nat :: 0 < k ==> (At(pattern, text, k) <==> At(pattern, text[1..], k - 1)) by { AtLater(pattern, text); }
      if rest.None? then None else Some(rest.value + 1)
  }

  lemma AtLater(pattern: seq<byte>, text: seq<byte>)
    requires text != []
    ensures forall k: nat :: 0 < k ==> (At(pattern, text, k) <==> At(pattern, text[1..], k - 1))
  {
    forall k: nat | 0 < k ensures At(pattern, text, k) <==> At(pattern, text[1..], k - 1) {
      if k + |pattern| <= |text| { LaterSlice(text, k, |pattern|); }
    }
  }

  lemma LaterSlice(text: seq<byte>, k: nat, n: nat)
    requires 0 < k && k + n <= |text|
    ensures text[k..k + n] == text[1..][k - 1..k - 1 + n]
  {
    var a, b := text[k..k + n], text[1..][k - 1..k - 1 + n];
    assert |a| == |b| == n;
    forall i | 0 <= i < n ensures a[i] == b[i] {
      assert a[i] == text[k + i] && b[i] == text[1..][k - 1 + i];
    }
  }

  function SkipPadding(text: seq<byte>): (r: seq<byte>)
    ensures |r| <= |text|
  {
    if text != [] && (text[0] == 32 || text[0] == 9) then SkipPadding(text[1..]) else text
  }

  /** The parts that follow a delimiter, up to the close-delimiter; `None` if the grammar is not met. */
  function SplitAfterDelimiter(boundary: seq<byte>, text: seq<byte>): (r: Option<seq<seq<byte>>>)
    decreases |text|
  {
    if [45, 45] <= text then Some([])
    else
      var line := SkipPadding(text);
      if !([13, 10] <= line) then None
      else
        var end := FirstIndex(Delimiter(boundary), line);
        if end.None? then None
        else
          var octets := if end.value < 2 then [] else line[2..end.value];
          var rest := SplitAfterDelimiter(boundary, line[end.value + |Delimiter(boundary)|..]);
          if rest.None? then None else Some([octets] + rest.value)
  }

  /** A whole body: what precedes the first delimiter is the preamble. */
  function Split(boundary: seq<byte>, text: seq<byte>): Option<seq<seq<byte>>> {
    var start := FirstIndex(Delimiter(boundary), [13, 10] + text);
    if start.None? then None
    else SplitAfterDelimiter(boundary, ([13, 10] + text)[start.value + |Delimiter(boundary)|..])
  }

  // ---------------------------------------------------------------------------------------
  // Searching
  // ---------------------------------------------------------------------------------------

  lemma OneReturn(boundary: seq<byte>, i: nat)
    requires 13 !in boundary && 0 < i < |Delimiter(boundary)|
    ensures Delimiter(boundary)[i] != CR
  {
    assert i < 4 || Delimiter(boundary)[i] == boundary[i - 4];
  }

  /** A delimiter whose boundary holds no CR cannot straddle the place where one begins. */
  lemma NoStraddle(boundary: seq<byte>, text: seq<byte>, rest: seq<byte>, k: nat)
    requires 13 !in boundary && k < |text|
    ensures At(Delimiter(boundary), text + Delimiter(boundary) + rest, k) ==> At(Delimiter(boundary), text, k)
  {
    var d := Delimiter(boundary);
    var whole := text + d + rest;
    var i := |text| - k;
    assert whole[k + i] == d[0] == CR;
    if i < |d| {
      OneReturn(boundary, i);
      assert k + |d| <= |whole| ==> whole[k..k + |d|][i] == whole[k + i];
    } else {
      assert text[k..k + |d|] == whole[k..k + |d|];
    }
  }

  lemma FirstAfterClean(boundary: seq<byte>, text: seq<byte>, rest: seq<byte>)
    requires 13 !in boundary
    requires !Contains(text, Delimiter(boundary))
    ensures FirstIndex(Delimiter(boundary), text + Delimiter(boundary) + rest) == Some(|text|)
  {
    hide FirstIndex, Delimiter;
    var d := Delimiter(boundary);
    var whole := text + d + rest;
    assert At(d, whole, |text|);
    var r := FirstIndex(d, whole);
    forall k: nat | k < |text|
      ensures !At(d, whole, k)
    {
      NoStraddle(boundary, text, rest, k);
    }
  }

  lemma FirstInsideDirty(boundary: seq<byte>, text: seq<byte>, rest: seq<byte>)
    requires Contains(text, Delimiter(boundary))
    ensures FirstIndex(Delimiter(boundary), text + rest).Some?
    ensures FirstIndex(Delimiter(boundary), text + rest).value + |Delimiter(boundary)| <= |text|
  {
    hide FirstIndex;
    var d := Delimiter(boundary);
    var whole := text + rest;
    var k: nat :| k <= |text| && At(d, text, k);
    assert whole[k..k + |d|] == text[k..k + |d|];
    assert At(d, whole, k) && k <= |whole|;
    var r := FirstIndex(d, whole);
    assert r.Some?;
    assert r.value <= k;
  }

  // ---------------------------------------------------------------------------------------
  // The encoding read from the front
  // ---------------------------------------------------------------------------------------

  /** One part with the delimiter before it. */
  function Framed(boundary: seq<byte>, p: Part): seq<byte> {
    Delimiter(boundary) + [13, 10] + Octets(p) + (if p.final then Delimiter(boundary) + [45, 45, 13, 10] else [])
  }

  function AllFramed(boundary: seq<byte>, parts: seq<Part>): seq<byte> {
    if parts == [] then [] else Framed(boundary, parts[0]) + AllFramed(boundary, parts[1..])
  }

  predicate OnlyFirstInitial(parts: seq<Part>) {
    forall i :: 0 <= i < |parts| ==> (parts[i].initial <==> i == 0)
  }

  /** The three forms of a boundary, octet by octet. */
  lemma BoundaryForms(boundary: seq<byte>)
    ensures CRLF + BoundaryData(InitialBoundary, boundary) == Delimiter(boundary) + [13, 10]
    ensures BoundaryData(EncapsulatedBoundary, boundary) == Delimiter(boundary) + [13, 10]
    ensures BoundaryData(FinalBoundary, boundary) == Delimiter(boundary) + [45, 45, 13, 10]
  {
    assert CRLF + DASHES == [13, 10, 45, 45] && DASHES + CRLF == [45, 45, 13, 10];
    assert CRLF + (DASHES + boundary + CRLF) == (CRLF + DASHES) + boundary + CRLF;
    assert (CRLF + DASHES + boundary) + DASHES + CRLF == (CRLF + DASHES) + boundary + (DASHES + CRLF);
  }

  lemma PartFramed(boundary: seq<byte>, p: Part)
    ensures (if p.initial then CRLF else []) + EncodedPart(boundary, p) == Framed(boundary, p)
  {
    hide Octets, BoundaryData, Delimiter;
    BoundaryForms(boundary);
    var o := Octets(p);
    if p.initial {
      Reassociate(CRLF, BoundaryData(InitialBoundary, boundary), o, if p.final then BoundaryData(FinalBoundary, boundary) else []);
    } else {
      assert [] + EncodedPart(boundary, p) == EncodedPart(boundary, p);
    }
  }

  lemma Reassociate(a: seq<byte>, b: seq<byte>, c: seq<byte>, d: seq<byte>)
    ensures a + (b + c + d) == (a + b) + c + d
  {
  }

  lemma {:induction false} FramedSnoc(boundary: seq<byte>, parts: seq<Part>, p: Part)
    ensures AllFramed(boundary, parts + [p]) == AllFramed(boundary, parts) + Framed(boundary, p)
  {
    hide Framed;
    if parts == [] {
      assert ([] + [p])[1..] == [];
      assert AllFramed(boundary, []) + Framed(boundary, p) == Framed(boundary, p);
      assert Framed(boundary, p) + [] == Framed(boundary, p);
    } else {
      assert (parts + [p])[1..] == parts[1..] + [p];
      FramedSnoc(boundary, parts[1..], p);
      var a, b, c := Framed(boundary, parts[0]), AllFramed(boundary, parts[1..]), Framed(boundary, p);
      assert a + (b + c) == (a + b) + c;
    }
  }

  lemma {:induction false} EncodingIsFramed(boundary: seq<byte>, parts: seq<Part>)
    requires parts != [] && OnlyFirstInitial(parts)
    ensures CRLF + EncodedParts(boundary, parts) == AllFramed(boundary, parts)
  {
    hide Framed, EncodedPart;
    var n := |parts| - 1;
    var p := parts[n];
    PartFramed(boundary, p);
    assert parts[..n] + [p] == parts;
    FramedSnoc(boundary, parts[..n], p);
    var before := EncodedParts(boundary, parts[..n]);
    if n == 0 {
      assert before == [] && before + EncodedPart(boundary, p) == EncodedPart(boundary, p);
      assert AllFramed(boundary, parts[..n]) + Framed(boundary, p) == Framed(boundary, p);
    } else {
      EncodingIsFramed(boundary, parts[..n]);
      assert [] + EncodedPart(boundary, p) == EncodedPart(boundary, p);
      assert CRLF + (before + EncodedPart(boundary, p)) == CRLF + before + EncodedPart(boundary, p);
    }
  }

  // ---------------------------------------------------------------------------------------
  // Splitting gives the parts back
  // ---------------------------------------------------------------------------------------

  /** Nothing in the part, from the end of the line before it on, looks like a delimiter. */
  predicate Clean(boundary: seq<byte>, p: Part) {
    !Contains(CRLF + Octets(p), Delimiter(boundary))
  }

  function AllOctets(parts: seq<Part>): (r: seq<seq<byte>>)
    ensures |r| == |parts|
  {
    if parts == [] then [] else [Octets(parts[0])] + AllOctets(parts[1..])
  }

  /** What a receiver can recover from: each part free of delimiters and no end before the end. */
  predicate Recoverable(boundary: seq<byte>, parts: seq<Part>) {
    forall i :: 0 <= i < |parts| ==> Clean(boundary, parts[i]) && (parts[i].final <==> i == |parts| - 1)
  }

  /** What follows a part: the rest of the close-delimiter, or what the next part's delimiter introduces. */
  function AfterPart(boundary: seq<byte>, p: Part, following: seq<Part>): seq<byte>
    requires p.final || following != []
  {
    if p.final then DASHES + CRLF + AllFramed(boundary, following)
    else AllFramed(boundary, following)[|Delimiter(boundary)|..]
  }

  lemma CutFirst(d: seq<byte>, x: seq<byte>, close: seq<byte>, more: seq<byte>)
    ensures |d| <= |(d + x + close) + more| && ((d + x + close) + more)[|d|..] == x + (close + more)
  {
  }

  lemma Regroup(d: seq<byte>, o: seq<byte>, close: seq<byte>)
    ensures d + CRLF + o + close == d + (CRLF + o) + close
  {
    assert d + CRLF + o == d + (CRLF + o);
  }

  /** The same for a part that has a final boundary and for one that is followed by another. */
  lemma CutClosed(d: seq<byte>, x: seq<byte>, more: seq<byte>)
    ensures |d| <= |(d + x + (d + DASHES + CRLF)) + more|
    ensures ((d + x + (d + DASHES + CRLF)) + more)[|d|..] == x + d + (DASHES + CRLF + more)
  {
    hide *;
    CutFirst(d, x, d + DASHES + CRLF, more);
    ClosingTail(x, d, more);
  }

  lemma CutOpen(d: seq<byte>, x: seq<byte>, more: seq<byte>)
    requires |d| <= |more| && more == d + more[|d|..]
    ensures |d| <= |(d + x + []) + more| && ((d + x + []) + more)[|d|..] == x + d + more[|d|..]
  {
    CutFirst(d, x, [], more);
    assert [] + more == more;
    assert x + (d + more[|d|..]) == x + d + more[|d|..];
  }

  lemma FramedHead(boundary: seq<byte>, parts: seq<Part>)
    requires parts != [] && parts[|parts| - 1].final
    ensures |Delimiter(boundary)| <= |AllFramed(boundary, parts)|
    ensures AllFramed(boundary, parts)[|Delimiter(boundary)|..]
         == CRLF + Octets(parts[0]) + Delimiter(boundary) + AfterPart(boundary, parts[0], parts[1..])
  {
    hide Delimiter, Octets, AllFramed;
    var d, p, more := Delimiter(boundary), parts[0], AllFramed(boundary, parts[1..]);
    FramedFirst(boundary, parts);
    if p.final {
      Regroup(d, Octets(p), d + DASHES + CRLF);
      CutClosed(d, CRLF + Octets(p), more);
    } else {
      DelimiterFirst(boundary, parts[1..]);
      Regroup(d, Octets(p), []);
      CutOpen(d, CRLF + Octets(p), more);
    }
  }

  lemma FramedFirst(boundary: seq<byte>, parts: seq<Part>)
    requires parts != []
    ensures AllFramed(boundary, parts) == Framed(boundary, parts[0]) + AllFramed(boundary, parts[1..])
  {
  }

  lemma ClosingTail(x: seq<byte>, d: seq<byte>, more: seq<byte>)
    ensures x + ((d + DASHES + CRLF) + more) == x + d + (DASHES + CRLF + more)
  {
    assert (d + DASHES + CRLF) + more == d + (DASHES + CRLF + more);
  }

  lemma DelimiterFirst(boundary: seq<byte>, parts: seq<Part>)
    requires parts != []
    ensures |Delimiter(boundary)| <= |AllFramed(boundary, parts)|
    ensures AllFramed(boundary, parts) == Delimiter(boundary) + AllFramed(boundary, parts)[|Delimiter(boundary)|..]
  {
  }

  /** One step of the splitter over one part, clean or not. */
  lemma SplitPart(boundary: seq<byte>, p: Part, after: seq<byte>)
    requires 13 !in boundary
    ensures var r := SplitAfterDelimiter(boundary, CRLF + Octets(p) + Delimiter(boundary) + after);
            var rest := SplitAfterDelimiter(boundary, after);
            if !Clean(boundary, p) then r.None? || (r.value != [] && r.value[0] != Octets(p))
            else if rest.None? then r.None?
            else r == Some([Octets(p)] + rest.value)
  {
    hide FirstIndex, Octets, Contains;
    var x, d := CRLF + Octets(p), Delimiter(boundary);
    var text := x + d + after;
    assert text[0] == CR && text[1] == LF && text[..2] == CRLF;
    assert !(DASHES <= text) && SkipPadding(text) == text && CRLF <= text;
    if Clean(boundary, p) {
      FirstAfterClean(boundary, x, after);
      assert text[2..|x|] == Octets(p);
      assert text[|x| + |d|..] == after;
    } else {
      assert text == x + (d + after);
      FirstInsideDirty(boundary, x, d + after);
    }
  }

  lemma AfterClose(boundary: seq<byte>, epilogue: seq<byte>)
    ensures SplitAfterDelimiter(boundary, DASHES + CRLF + epilogue) == Some([])
  {
    assert DASHES + CRLF + epilogue == DASHES + (CRLF + epilogue);
  }

  lemma OctetsFirst(parts: seq<Part>)
    requires parts != []
    ensures AllOctets(parts) == [Octets(parts[0])] + AllOctets(parts[1..])
    ensures AllOctets(parts)[0] == Octets(parts[0]) && AllOctets(parts)[1..] == AllOctets(parts[1..])
    ensures parts[1..] == [] <==> AllOctets(parts[1..]) == []
  {
  }

  lemma RecoverableFirst(boundary: seq<byte>, parts: seq<Part>)
    requires parts != [] && parts[|parts| - 1].final
    ensures Recoverable(boundary, parts)
       <==> Clean(boundary, parts[0]) && if parts[0].final then parts[1..] == [] else Recoverable(boundary, parts[1..])
  {
    hide Clean;
    var following := parts[1..];
    assert forall i :: 0 <= i < |following| ==> following[i] == parts[i + 1];
    if Recoverable(boundary, following) && Clean(boundary, parts[0]) && !parts[0].final {
      forall i | 0 <= i < |parts|
        ensures Clean(boundary, parts[i]) && (parts[i].final <==> i == |parts| - 1)
      {
        if i > 0 { assert parts[i] == following[i - 1]; }
      }
    }
  }

  lemma {:induction false} SplitFramed(boundary: seq<byte>, parts: seq<Part>)
    requires 13 !in boundary
    requires parts != [] && parts[|parts| - 1].final
    ensures |Delimiter(boundary)| <= |AllFramed(boundary, parts)|
    ensures SplitAfterDelimiter(boundary, AllFramed(boundary, parts)[|Delimiter(boundary)|..]) == Some(AllOctets(parts))
        <==> Recoverable(boundary, parts)
  {
    hide Delimiter, Octets, Clean, AllFramed, AllOctets, Recoverable, SplitAfterDelimiter;
    FramedHead(boundary, parts);
    var p, following := parts[0], parts[1..];
    SplitPart(boundary, p, AfterPart(boundary, p, following));
    RecoverableFirst(boundary, parts);
    OctetsFirst(parts);
    if p.final {
      AfterClose(boundary, AllFramed(boundary, following));
    } else {
      SplitFramed(boundary, following);
    }
  }

  /**
   Splitting what `encode` returns gives back exactly the octets of the parts, if and only if no part
   holds a delimiter and no part but the last carries a final boundary.
   */
  lemma SplitRecovers(boundary: seq<byte>, parts: seq<Part>)
    requires 13 !in boundary
    requires parts != [] && OnlyFirstInitial(parts) && parts[|parts| - 1].final
    ensures Split(boundary, EncodedParts(boundary, parts)) == Some(AllOctets(parts)) <==> Recoverable(boundary, parts)
  {
    EncodingIsFramed(boundary, parts);
    SplitFramed(boundary, parts);
    var framed, d := AllFramed(boundary, parts), Delimiter(boundary);
    DelimiterFirst(boundary, parts);
    assert framed == [] + d + framed[|d|..];
    FirstAfterClean(boundary, [], framed[|d|..]);
  }

  lemma FlagsAreNotOctets(parts: seq<Part>)
    ensures forall i :: 0 <= i < |parts| ==> Octets(Marked(parts)[i]) == Octets(parts[i])
  {
  }

  lemma {:induction false} SameOctets(a: seq<Part>, b: seq<Part>)
    requires |a| == |b| && forall i :: 0 <= i < |a| ==> Octets(a[i]) == Octets(b[i])
    ensures AllOctets(a) == AllOctets(b)
  {
    hide Octets;
    if a != [] {
      SameOctets(a[1..], b[1..]);
    }
  }

  /** For a form that has not been encoded before, the only condition is on the parts themselves. */
  lemma FreshSplitRecovers(boundary: seq<byte>, parts: seq<Part>)
    requires 13 !in boundary && parts != []
    requires forall i :: 0 <= i < |parts| ==> !parts[i].initial && !parts[i].final
    ensures Split(boundary, EncodedParts(boundary, Marked(parts))) == Some(AllOctets(parts))
        <==> forall i :: 0 <= i < |parts| ==> Clean(boundary, parts[i])
  {
    hide Split, EncodedParts, Octets;
    var marked := Marked(parts);
    assert forall i :: 0 <= i < |parts| ==> Octets(marked[i]) == Octets(parts[i]) by { FlagsAreNotOctets(parts); }
    SameOctets(marked, parts);
    SplitRecovers(boundary, marked);
    forall i | 0 <= i < |parts|
      ensures Clean(boundary, marked[i]) <==> Clean(boundary, parts[i])
    {
    }
  }
}

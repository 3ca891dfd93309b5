/**
 The bitmap of required fields that have been seen: two 32-bit words, compared word by word and then
 by remainder. The test is exact for the first 64 required fields.
 */
module RequiredFields {
  import opened Bits
  import opened Wire
  import opened Descriptor
  import opened Decoding
  import opened FieldIterator
  import opened Records
  import opened Options

  const ALL_BITS := 0xFFFF_FFFF

  function Shr(x: nat, n: nat): nat
    decreases x, n
  {
    if n == 0 then x else Shr(x / 2, n - 1)
  }

  lemma {:induction false} ShrOnes(n: nat, k: nat)
    ensures Shr(Shl(1, n + k) - 1, k) == Shl(1, n) - 1
  {
    if k > 0 {
      assert (Shl(1, n + k) - 1) / 2 == Shl(1, n + (k - 1)) - 1;
      ShrOnes(n, k - 1);
    }
  }

  /** Bit `k` of the word stands for required field `base + k`. */
  ghost predicate TracksWord(word: nat, base: nat, seen: set<nat>) {
    forall k: nat :: Bit(word, k) <==> k < 32 && base + k in seen
  }

  ghost predicate Tracks(words: seq<nat>, seen: set<nat>) {
    |words| == 2 && TracksWord(words[0], 0, seen) && TracksWord(words[1], 32, seen)
  }

  predicate AllSeenIn(lo: nat, hi: nat, seen: set<nat>) {
    forall r :: lo <= r < hi ==> r in seen
  }

  lemma NothingTracked()
    ensures Tracks([0, 0], {})
  {
    forall k: nat ensures !Bit(0, k) { ZeroHasNoBits(k); }
  }

  lemma OrTracks(word: nat, base: nat, r: nat, seen: set<nat>)
    requires r < 32 && TracksWord(word, base, seen)
    ensures TracksWord(Or(word, Shl(1, r)), base, seen + {base + r})
  {
    forall k: nat ensures Bit(Or(word, Shl(1, r)), k) <==> k < 32 && base + k in seen + {base + r} {
      OrBit(word, Shl(1, r), k);
      ShlBit(r, k);
    }
  }

  /** `fields_seen[index >> 5] |= 1 << (index & 31)` */
  method SetSeen(fieldsSeen: array<nat>, index: nat, ghost seen: set<nat>)
    requires Tracks(fieldsSeen[..], seen) && index < PB_MAX_REQUIRED_FIELDS
    modifies fieldsSeen
    ensures Tracks(fieldsSeen[..], seen + {index})
  {
    hide Or, Shl, Bit;
    var word, bit := index / 32, index % 32;
    OrTracks(fieldsSeen[word], 32 * word, bit, seen);
    fieldsSeen[word] := Or(fieldsSeen[word], Shl(1, bit));
  }

  /** A word whose set bits all lie below `n` is all ones there if and only if its first `n` fields were seen. */
  lemma WordFull(word: nat, base: nat, n: nat, seen: set<nat>)
    requires n <= 32 && TracksWord(word, base, seen)
    requires forall r :: base + n <= r < base + 32 ==> r !in seen
    ensures word == Shl(1, n) - 1 <==> AllSeenIn(base, base + n, seen)
  {
    hide Bit, Shl;
    var ones := Shl(1, n) - 1;
    if AllSeenIn(base, base + n, seen) {
      forall k: nat ensures Bit(word, k) <==> Bit(ones, k) { OnesBit(n, k); }
      SameBits(word, ones);
    }
    if word == ones {
      forall r | base <= r < base + n ensures r in seen {
        OnesBit(n, r - base);
        assert Bit(word, r - base);
      }
    }
  }

  /** How many required fields are tracked. */
  function TrackedCount(fields: seq<Field>): nat {
    var n := RequiredIndex(fields, |fields|);
    if n > PB_MAX_REQUIRED_FIELDS then PB_MAX_REQUIRED_FIELDS else n
  }

  /** Every index below the count of required fields is the index of one of them. */
  lemma {:induction false} RequiredIndexHit(fields: seq<Field>, n: nat, r: nat) returns (i: nat)
    requires n <= |fields| && r < RequiredIndex(fields, n)
    ensures i < n && fields[i].htype.Required? && RequiredIndex(fields, i) == r
  {
    if RequiredIndex(fields, n - 1) == r {
      i := n - 1;
    } else {
      i := RequiredIndexHit(fields, n - 1, r);
    }
  }

  lemma RequiredSeenCount(fields: seq<Field>, seen: set<nat>)
    ensures RequiredSeen(fields, seen) <==> AllSeenIn(0, TrackedCount(fields), seen)
  {
    if RequiredSeen(fields, seen) {
      forall r | 0 <= r < TrackedCount(fields) ensures r in seen {
        var i := RequiredIndexHit(fields, |fields|, r);
      }
    }
    if AllSeenIn(0, TrackedCount(fields), seen) {
      forall i | 0 <= i < |fields| && fields[i].htype.Required? && RequiredIndex(fields, i) < PB_MAX_REQUIRED_FIELDS
        ensures RequiredIndex(fields, i) in seen
      {
        RequiredIndexOrder(fields, i, |fields|);
      }
    }
  }

  /** No bit is set beyond the required fields there are. */
  predicate OnlyTracked(fields: seq<Field>, seen: set<nat>) {
    fields == [] || forall r :: r in seen ==> r < TrackedCount(fields)
  }

  lemma MarkOnlyTracked(fields: seq<Field>, i: nat, st: Progress)
    requires OnlyTracked(fields, st.seen) && (i < |fields| || fields == [])
    ensures OnlyTracked(fields, MarkSeen(fields, i, st).seen)
  {
    if fields != [] { RequiredIndexOrder(fields, i, |fields|); }
  }

  /**
   Lines 1045 to 1055 of `pb_decode.c`: counts the required fields by moving on from wherever the iterator is to the
   end of the descriptor.
   */
  method CountRequired(iter: FieldIter) returns (count: nat)
    requires iter.Valid()
    modifies iter
    ensures iter.Valid() && count == RequiredIndex(iter.start, |iter.start|)
  {
    count := iter.requiredFieldIndex;
    var lastType := FieldAt(iter.start, iter.pos).htype;
    var more := iter.Next();
    while more
      invariant iter.Valid()
      invariant more ==> 0 < iter.pos && count == RequiredIndex(iter.start, iter.pos - 1)
      invariant more ==> lastType == FieldAt(iter.start, iter.pos - 1).htype
      invariant !more && iter.start != [] ==>
        iter.pos == 0 && count == RequiredIndex(iter.start, |iter.start| - 1)
        && lastType == FieldAt(iter.start, |iter.start| - 1).htype
      invariant iter.start == [] ==> !more && count == 0
      decreases if more then |iter.start| - iter.pos + 1 else 0
    {
      count := iter.requiredFieldIndex;
      lastType := FieldAt(iter.start, iter.pos).htype;
      more := iter.Next();
    }
    // fix-up when the last field is required too; the terminator of an empty message does not count
    assert iter.start != [] ==> WellFormedField(iter.start[0]);
    if lastType.Required? && FieldAt(iter.start, iter.pos).tag != 0 {
      count := count + 1;
    }
  }

  /** Lines 1057 to 1078 of `pb_decode.c`: the test of whole words and of the remainder. */
  method AllSeen(fieldsSeen: array<nat>, requiredCount: nat, ghost fields: seq<Field>, ghost seen: set<nat>) returns (ok: bool)
    requires requiredCount == RequiredIndex(fields, |fields|)
    requires Tracks(fieldsSeen[..], seen) && OnlyTracked(fields, seen)
    ensures ok <==> RequiredSeen(fields, seen)
  {
    hide Or, Shl, Bit, Shr, RequiredSeen;
    RequiredSeenCount(fields, seen);
    var count := if requiredCount > PB_MAX_REQUIRED_FIELDS then PB_MAX_REQUIRED_FIELDS else requiredCount;
    assert Shl(1, 32) == ALL_BITS + 1 by { ShlConstants(1); }
    if count > 0 {
      var i := 0;
      while i < count / 32
        invariant i <= count / 32
        invariant AllSeenIn(0, 32 * i, seen)
      {
        WordFull(fieldsSeen[i], 32 * i, 32, seen);
        if fieldsSeen[i] != ALL_BITS {
          return false;
        }
        i := i + 1;
      }
      if count % 32 != 0 {
        var base, n := 32 * (count / 32), count % 32;
        assert fields != [];
        WordFull(fieldsSeen[count / 32], base, n, seen);
        ShrOnes(n, 32 - n);
        if fieldsSeen[count / 32] != Shr(ALL_BITS, 32 - n) {
          return false;
        }
      }
    }
    return true;
  }

  // ---------------------------------------------------------------------------------------
  // What has been seen is what was in the input
  // ---------------------------------------------------------------------------------------

  /** The fields whose tags a run of the field loop finds. */
  function Hits(fields: seq<Field>, s: seq<byte>, st: Progress): set<nat>
    decreases |s|
  {
    if |s| == 0 then {}
    else match DecodeRecord(fields, s, st)
      case Next(st', n) => (if HitField(fields, s).Some? then {HitField(fields, s).value} else {}) + Hits(fields, s[n..], st')
      case _ => {}
  }

  function MarksOf(fields: seq<Field>, hits: set<nat>): set<nat> {
    set i | i in hits && FieldAt(fields, i).htype.Required? && RequiredIndex(fields, i) < PB_MAX_REQUIRED_FIELDS
      :: RequiredIndex(fields, i)
  }

  lemma MarksOfMore(fields: seq<Field>, i: nat, hits: set<nat>)
    ensures MarksOf(fields, {i} + hits) == Marks(fields, i) + MarksOf(fields, hits)
  {
    hide RequiredIndex;
    var all := MarksOf(fields, {i} + hits);
    forall r ensures r in all <==> r in Marks(fields, i) || r in MarksOf(fields, hits) {
      if r in Marks(fields, i) { assert i in {i} + hits; }
      if r in MarksOf(fields, hits) {
        var j :| j in hits && FieldAt(fields, j).htype.Required? && RequiredIndex(fields, j) == r;
        assert j in {i} + hits;
      }
    }
  }

  lemma RecordMarks(fields: seq<Field>, s: seq<byte>, st: Progress)
    requires DecodeRecord(fields, s, st).Next?
    ensures DecodeRecord(fields, s, st).st.seen
         == st.seen + (if HitField(fields, s).Some? then Marks(fields, HitField(fields, s).value) else {})
  {
    hide DecodeStatic, DataAddress, RequiredIndex;
  }

  lemma {:induction false} SeenIsHits(fields: seq<Field>, s: seq<byte>, st: Progress)
    requires DecodeLoop(fields, s, st).Ok?
    ensures DecodeLoop(fields, s, st).value.seen == st.seen + MarksOf(fields, Hits(fields, s, st))
    decreases |s|
  {
    hide DecodeRecord, Marks, RequiredIndex;
    if |s| > 0 {
      var t := DecodeRecord(fields, s, st);
      if t.Next? {
        RecordMarks(fields, s, st);
        SeenIsHits(fields, s[t.used..], t.st);
        var hit, rest := HitField(fields, s), Hits(fields, s[t.used..], t.st);
        if hit.Some? { MarksOfMore(fields, hit.value, rest); } else { assert {} + rest == rest; }
      }
    }
  }

  lemma {:induction false} SameRequiredIndex(fields: seq<Field>, i: nat, j: nat)
    requires FieldAt(fields, i).htype.Required? && FieldAt(fields, j).htype.Required?
    requires RequiredIndex(fields, i) == RequiredIndex(fields, j)
    ensures i == j
  {
    if i < j { RequiredIndexOrder(fields, i, j); }
    if j < i { RequiredIndexOrder(fields, j, i); }
  }

  /**
   The check for required fields is exact: it passes if and only if the tag of every required field
   among the first 64 was found at least once in the input.
   */
  lemma RequiredCheckExact(fields: seq<Field>, s: seq<byte>, msg: Message)
    requires DecodeLoop(fields, s, Start(msg)).Ok?
    ensures RequiredSeen(fields, DecodeLoop(fields, s, Start(msg)).value.seen)
       <==> forall i :: 0 <= i < |fields| && fields[i].htype.Required? && RequiredIndex(fields, i) < PB_MAX_REQUIRED_FIELDS
                        ==> i in Hits(fields, s, Start(msg))
  {
    hide DecodeLoop, Hits, RequiredIndex;
    SeenIsHits(fields, s, Start(msg));
    var hits := Hits(fields, s, Start(msg));
    forall i | 0 <= i < |fields| && fields[i].htype.Required? && RequiredIndex(fields, i) < PB_MAX_REQUIRED_FIELDS
      ensures RequiredIndex(fields, i) in MarksOf(fields, hits) <==> i in hits
    {
      if RequiredIndex(fields, i) in MarksOf(fields, hits) {
        var j :| j in hits && FieldAt(fields, j).htype.Required? && RequiredIndex(fields, j) == RequiredIndex(fields, i);
        SameRequiredIndex(fields, i, j);
      }
    }
  }

  function RequiredBefore(fields: seq<Field>, i: nat): set<nat> {
    set j: nat | j < i && FieldAt(fields, j).htype.Required?
  }

  /** The number of a required field is the number of those before it. */
  lemma {:induction false} RequiredIndexCounts(fields: seq<Field>, i: nat)
    requires i <= |fields|
    ensures RequiredIndex(fields, i) == |RequiredBefore(fields, i)|
  {
    if i > 0 {
      RequiredIndexCounts(fields, i - 1);
      var before := RequiredBefore(fields, i - 1);
      assert RequiredBefore(fields, i) == if FieldAt(fields, i - 1).htype.Required? then before + {i - 1} else before;
    }
  }

  /**
   A message is accepted if and only if its records are, the fixed-count array received last is full, and each
   of the first 64 required fields was found.
   */
  lemma AcceptedExact(fields: seq<Field>, s: seq<byte>, msg: Message)
    ensures DecodeNoInit(fields, s, msg).Ok? <==>
      && DecodeLoop(fields, s, Start(msg)).Ok?
      && (var st := DecodeLoop(fields, s, Start(msg)).value;
          st.fixedField.Some? ==> st.fixedCount == FieldAt(fields, st.fixedField.value).arraySize)
      && forall i :: 0 <= i < |fields| && fields[i].htype.Required? && RequiredIndex(fields, i) < 64 ==> i in Hits(fields, s, Start(msg))
  {
    hide DecodeLoop, Hits, RequiredIndex, RequiredSeen;
    if DecodeLoop(fields, s, Start(msg)).Ok? { RequiredCheckExact(fields, s, msg); }
  }
}

/**
 What the scalar decoders accept and what they return, said without the casts and comparisons that they make.
 */
module Scalars {
  import opened Bits
  import opened Wire
  import opened Descriptor
  import opened Decoding
  import opened Encoding
  import opened Options
  import RoundTrip

  /** The signed number that the bits of `u` stand for, in a word with `words` values. */
  function TwosComplement(u: nat, words: nat): int {
    if 2 * u < words then u else u - words
  }

  lemma SignedIsTwosComplement(u: nat)
    requires u < TWO64
    ensures SignedBits(u, 64) == TwosComplement(u, TWO64)
    ensures SignedBits(u, 32) == TwosComplement(u % TWO32, TWO32)
  {
    hide Low, Shl;
    RoundTrip.Shl8Powers();
    LowRange(u, 64);
    LowIsRemainder(u);
  }

  /** A cast to a narrower signed type changes a value if and only if it does not fit. */
  lemma CastFits(v: int, width: nat)
    requires IntWidth(width) && -TWO63 <= v < TWO63
    ensures CastSigned(v, width) == v <==> IntRange(v, width, true)
  {
    hide SignedBits, Unsigned64, Shl;
    RoundTrip.Shl8Powers();
    if IntRange(v, width, true) {
      RoundTrip.SignedBitsInverts(v, 8 * width);
    } else {
      CastRange(v, width);
    }
  }

  lemma CastRange(v: int, width: nat)
    requires IntWidth(width)
    ensures IntRange(CastSigned(v, width), width, true)
  {
    hide Low, Shl, Unsigned64;
    var u := Unsigned64(v);
    LowRange(u, 8 * width);
    RoundTrip.Shl8Powers();
  }

  /** Unsigned fields take every 64-bit value that fits, as it is, and refuse the others. */
  lemma UnsignedExact(f: Field, s: seq<byte>)
    requires f.ltype.TUVarint?
    ensures DecodeScalar(f, s) ==
      if Varint64(s).Ok? && IntRange(Varint64(s).value, f.dataSize, false) then Ok(Int(Varint64(s).value), Varint64(s).used) else Fail
  {
    hide Varint64, Low, Shl;
    if Varint64(s).Ok? && IntWidth(f.dataSize) {
      var u := ReadVarint(s).value;
      LowFits(u, f.dataSize);
    }
  }

  lemma LowFits(u: nat, width: nat)
    requires IntWidth(width)
    ensures Low(u, 8 * width) == u <==> IntRange(u, width, false)
  {
    hide Low, Shl;
    RoundTrip.Shl8Powers();
    LowRange(u, 8 * width);
  }

  /**
   Signed fields of 64 bits take the two's complement value of the varint; narrower ones that of its low 32
   bits, if it fits, and otherwise refuse it.
   */
  lemma SignedExact(f: Field, s: seq<byte>)
    requires f.ltype.TVarint?
    ensures var u := if Varint64(s).Ok? then Varint64(s).value else 0;
            var v := if f.dataSize == 8 then TwosComplement(u, TWO64) else TwosComplement(u % TWO32, TWO32);
            DecodeScalar(f, s) == if Varint64(s).Ok? && IntRange(v, f.dataSize, true) then Ok(Int(v), Varint64(s).used) else Fail
  {
    hide Varint64, SignedBits, CastSigned;
    if Varint64(s).Ok? && IntWidth(f.dataSize) {
      var u := ReadVarint(s).value;
      SignedIsTwosComplement(u);
      var v := if f.dataSize == 8 then TwosComplement(u, TWO64) else TwosComplement(u % TWO32, TWO32);
      CastFits(v, f.dataSize);
    }
  }

  /** Zigzag fields take 0, -1, 1, -2, 2 and so on for 0, 1, 2, 3, 4 and so on, if the value fits. */
  lemma ZigZagExact(f: Field, s: seq<byte>)
    requires f.ltype.TSVarint?
    ensures var u := if Varint64(s).Ok? then Varint64(s).value else 0;
            var v := if u % 2 == 0 then u / 2 else -(u / 2) - 1;
            DecodeScalar(f, s) == if Varint64(s).Ok? && IntRange(v, f.dataSize, true) then Ok(Int(v), Varint64(s).used) else Fail
  {
    hide Varint64, UnZigZag, CastSigned;
    if Varint64(s).Ok? && IntWidth(f.dataSize) {
      var u := ReadVarint(s).value;
      UnZigZagValue(u);
      CastFits(UnZigZag(u), f.dataSize);
    }
  }

  lemma UnZigZagValue(u: nat)
    requires u < TWO64
    ensures UnZigZag(u) == if u % 2 == 0 then u / 2 else -(u / 2) - 1
  {
    hide SignedBits;
    SignedIsTwosComplement(if u % 2 == 1 then TWO64 - 1 - u / 2 else u / 2);
  }

  /** A boolean is true for every value but zero, of those that the 32-bit decoder accepts. */
  lemma BoolExact(f: Field, u: nat, tail: seq<byte>)
    requires f.ltype.TBool? && u < TWO64
    ensures DecodeScalar(f, Varint(u) + tail) ==
      if Accepted32(u) then Ok(Int(if u % TWO32 == 0 then 0 else 1), |Varint(u)|) else Fail
  {
    hide Varint, Varint32, Varint64, Accepted32, Low;
    Varint32Accepts(u, tail);
    if Accepted32(u) {
      Varint32Used(u, tail);
      Varint32Refines(Varint(u) + tail);
      Varint64Inverts(u, tail);
      LowIsRemainder(u);
    }
  }

  /** Four bytes, the low byte first. */
  function Word(b: seq<byte>): int
    requires |b| == 4
  {
    (b[0] as int) + 0x100 * (b[1] as int) + 0x1_0000 * (b[2] as int) + 0x100_0000 * (b[3] as int)
  }

  /** Fixed-width fields are little-endian. */
  lemma Fixed32Exact(f: Field, s: seq<byte>)
    requires f.ltype.TFixed32?
    ensures DecodeScalar(f, s) ==
      if |s| < 4 then Fail else Ok(Int(Word(s[..4])), 4)
  {
    if |s| >= 4 { FourBytes(s[..4]); }
  }

  lemma FourBytes(b: seq<byte>)
    requires |b| == 4
    ensures FromLittleEndian(b) == Word(b)
  {
    var b1 := b[1..];
    var b2 := b1[1..];
    var b3 := b2[1..];
    assert b3[1..] == [];
    assert b1[0] == b[1] && b2[0] == b[2] && b3[0] == b[3];
    assert FromLittleEndian(b3) == b[3];
    assert FromLittleEndian(b2) == b[2] + 256 * FromLittleEndian(b3);
    assert FromLittleEndian(b1) == b[1] + 256 * FromLittleEndian(b2);
  }

  lemma {:induction false} LittleEndianSplits(b: seq<byte>, c: seq<byte>)
    requires |b| == 4
    ensures FromLittleEndian(b + c) == FromLittleEndian(b) + TWO32 * FromLittleEndian(c)
  {
    var b1 := b[1..];
    var b2 := b1[1..];
    var b3 := b2[1..];
    assert b3[1..] == [];
    assert (b + c)[1..] == b1 + c && (b1 + c)[1..] == b2 + c && (b2 + c)[1..] == b3 + c && (b3 + c)[1..] == c;
    assert FromLittleEndian(b3 + c) == b3[0] + 256 * FromLittleEndian(c);
    assert FromLittleEndian(b2 + c) == b2[0] + 256 * FromLittleEndian(b3 + c);
    assert FromLittleEndian(b1 + c) == b1[0] + 256 * FromLittleEndian(b2 + c);
    assert FromLittleEndian(b3) == b3[0] && FromLittleEndian(b2) == b2[0] + 256 * FromLittleEndian(b3)
      && FromLittleEndian(b1) == b1[0] + 256 * FromLittleEndian(b2);
  }

  lemma Fixed64Exact(f: Field, s: seq<byte>)
    requires f.ltype.TFixed64?
    ensures DecodeScalar(f, s) ==
      if |s| < 8 then Fail else Ok(Int(Word(s[..4]) + TWO32 * Word(s[4..8])), 8)
  {
    hide FromLittleEndian;
    if |s| >= 8 {
      assert s[..8] == s[..4] + s[4..8];
      LittleEndianSplits(s[..4], s[4..8]);
      FourBytes(s[..4]);
      FourBytes(s[4..8]);
    }
  }

  // ---------------------------------------------------------------------------------------
  // Bytes and strings
  // ---------------------------------------------------------------------------------------

  lemma DelimitedReads(b: seq<byte>, tail: seq<byte>)
    requires |b| < TWO32
    ensures var s, n := Delimited(b) + tail, |Varint(|b|)|;
            Varint32(s) == Ok(|b|, n) && |s| - n >= |b| && s[n..n + |b|] == b
  {
    hide Varint, Varint32;
    assert Delimited(b) + tail == Varint(|b|) + (b + tail);
    Varint32Inverts(|b|, b + tail);
  }

  /** A byte array takes what fits behind its size. */
  lemma BytesExact(f: Field, b: seq<byte>, tail: seq<byte>)
    requires WellFormedField(f) && f.ltype.TBytes? && |b| < TWO32
    ensures DecodeScalar(f, Delimited(b) + tail) ==
      if PB_SIZE_WIDTH + |b| <= f.dataSize then Ok(Blob(b), |Delimited(b)|) else Fail
  {
    hide Varint, Varint32;
    DelimitedReads(b, tail);
  }

  /** A string takes what leaves room for its NUL; its value is what precedes the first NUL. */
  lemma StringExact(f: Field, b: seq<byte>, tail: seq<byte>)
    requires WellFormedField(f) && f.ltype.TString? && |b| < TWO32
    ensures var r := DecodeScalar(f, Delimited(b) + tail);
            && (r.Ok? <==> |b| < f.dataSize)
            && (r.Ok? ==> r.used == |Delimited(b)| && r.value.Blob? && 0 !in r.value.bytes && r.value.bytes <= b
                          && (|r.value.bytes| < |b| ==> b[|r.value.bytes|] == 0))
  {
    hide Varint, Varint32;
    DelimitedReads(b, tail);
    CStringExact(b);
  }

  lemma {:induction false} CStringExact(s: seq<byte>)
    ensures CString(s) <= s && (|CString(s)| < |s| ==> s[|CString(s)|] == 0)
  {
    if s != [] && s[0] != 0 {
      CStringExact(s[1..]);
      assert s == [s[0]] + s[1..];
    }
  }

  /** A fixed-length array takes its length, or nothing at all, which stands for zeros. */
  lemma FixedLengthExact(f: Field, b: seq<byte>, tail: seq<byte>)
    requires WellFormedField(f) && f.ltype.TFixedLengthBytes? && |b| < TWO32
    ensures var r := DecodeScalar(f, Delimited(b) + tail);
            if |b| == f.dataSize then r == Ok(Blob(b), |Delimited(b)|)
            else if |b| == 0 then r.Ok? && r.used == |Delimited(b)| && r.value.Blob? && |r.value.bytes| == f.dataSize
                                  && forall k :: 0 <= k < f.dataSize ==> r.value.bytes[k] == 0
            else r.Fail?
  {
    hide Varint, Varint32;
    DelimitedReads(b, tail);
  }
}

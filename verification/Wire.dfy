/**
 The Protocol Buffers wire format below the message level: base 128 varints, zigzag integers,
 little-endian fixed-width integers, record headers ("tags") and the skipping of a payload.

 A decoder is a function of the bytes left in the stream. It says how many bytes it used.
 */
module Wire {
  import opened Bits

  type byte = b: int | 0 <= b < 256

  const TWO31 := 0x8000_0000
  const TWO32 := 0x1_0000_0000
  const TWO63 := 0x8000_0000_0000_0000
  const TWO64 := 0x1_0000_0000_0000_0000

  datatype Parsed<+T> = Fail | Ok(value: T, used: nat)

  /** `s` and `s2` start with the same `n` bytes. */
  predicate SameUpTo(s: seq<byte>, s2: seq<byte>, n: nat) {
    n <= |s| && n <= |s2| && s[..n] == s2[..n]
  }

  function Concat(parts: seq<seq<byte>>): seq<byte> {
    if parts == [] then [] else parts[0] + Concat(parts[1..])
  }

  // ---------------------------------------------------------------------------------------
  // Varints
  // ---------------------------------------------------------------------------------------

  /** The bytes that encode `v`: groups of seven bits, the low group first. */
  function Varint(v: nat): (s: seq<byte>)
    ensures |s| >= 1
  {
    if v < 128 then [v] else [v % 128 + 128] + Varint(v / 128)
  }

  /** The loop of the 64-bit decoder, entered with `bitpos` bits already in `result`. */
  function Varint64From(s: seq<byte>, bitpos: nat, result: nat): (r: Parsed<nat>)
    ensures r.Ok? ==> 1 <= r.used <= |s|
    decreases |s|
  {
    if bitpos >= 64 || |s| == 0 then Fail
    else
      var next := Or(result, Low(Shl(s[0] % 128, bitpos), 64));
      if s[0] < 128 then Ok(next, 1)
      else match Varint64From(s[1..], bitpos + 7, next)
        case Fail => Fail
        case Ok(v, n) => Ok(v, n + 1)
  }

  function Varint64(s: seq<byte>): (r: Parsed<nat>)
    ensures r.Ok? ==> 1 <= r.used <= |s|
  {
    Varint64From(s, 0, 0)
  }

  /**
   The multi-byte loop of the 32-bit decoder. The position is kept in eight bits, from bit 32
   on a byte may only repeat the sign, and only when the loop ends at bit 35 are the three
   bits that do not fit looked at.
   */
  function Varint32From(s: seq<byte>, bitpos: nat, result: nat): (r: Parsed<nat>)
    ensures r.Ok? ==> 1 <= r.used <= |s|
    decreases |s|
  {
    if |s| == 0 then Fail
    else
      var sign := if bitpos < 63 then 0xFF else 0x01;
      if bitpos >= 32 && s[0] % 128 != 0 && (result < TWO31 || s[0] != sign) then Fail
      else
        var next := Next32(result, s[0] % 128, bitpos);
        var bitpos' := (bitpos + 7) % 256;
        if s[0] < 128 then
          if bitpos' == 35 && s[0] / 16 % 8 != 0 then Fail else Ok(next, 1)
        else match Varint32From(s[1..], bitpos', next)
          case Fail => Fail
          case Ok(v, n) => Ok(v, n + 1)
  }

  function Varint32(s: seq<byte>): (r: Parsed<nat>)
    ensures r.Ok? ==> 1 <= r.used <= |s|
  {
    if |s| == 0 then Fail
    else if s[0] < 128 then Ok(s[0], 1)
    else match Varint32From(s[1..], 7, s[0] % 128)
      case Fail => Fail
      case Ok(v, n) => Ok(v, n + 1)
  }

  /** The ten positions a group of a 64-bit varint can have. */
  predicate GroupPosition(bitpos: nat) {
    bitpos in {0, 7, 14, 21, 28, 35, 42, 49, 56, 63}
  }

  lemma ShlZero(x: nat)
    ensures Shl(x, 0) == x
  {
  }

  lemma NextGroup(x: nat, bitpos: nat)
    ensures Shl(x, bitpos + 7) == Shl(128 * x, bitpos)
  {
    ShlConstants(x);
    ShlShl(x, 7, bitpos);
  }

  lemma GroupRange(g: nat, bitpos: nat)
    requires g < 128
    ensures Shl(g, bitpos) + Shl(1, bitpos) <= Shl(1, bitpos + 7)
  {
    ShlMono(g, 127, bitpos);
    ShlAdd(127, 1, bitpos);
    NextGroup(1, bitpos);
  }

  lemma SplitGroup(v: nat, bitpos: nat)
    ensures Shl(v, bitpos) == Shl(v % 128, bitpos) + Shl(v / 128, bitpos + 7)
  {
    NextGroup(v / 128, bitpos);
    ShlAdd(v % 128, v / 128 * 128, bitpos);
  }

  /** What the 64-bit loop keeps of a group: only the tenth group loses bits. */
  function Kept64(g: nat, bitpos: nat): nat {
    if bitpos == 63 then g % 2 else g
  }

  /** One turn of the 64-bit loop adds the group. */
  lemma Group64(bitpos: nat, result: nat, g: nat)
    requires GroupPosition(bitpos) && result < Shl(1, bitpos) && g < 128
    ensures Or(result, Low(Shl(g, bitpos), 64)) == result + Shl(Kept64(g, bitpos), bitpos)
    ensures bitpos < 63 ==> result + Shl(g, bitpos) < Shl(1, bitpos + 7)
  {
    hide Or, Low, Shl;
    OrDisjoint(result, Kept64(g, bitpos), bitpos);
    if bitpos == 63 {
      LowOne(g);
      LowShl(g, 63, 64);
    } else {
      GroupRange(g, bitpos);
      ShlGrows(1, bitpos + 7, 64);
      LowRange(Shl(g, bitpos), 64);
    }
  }

  /** A value that still has groups to come at this position leaves room for the next position. */
  lemma GroupRoom(v: nat, bitpos: nat)
    requires GroupPosition(bitpos) && Shl(v, bitpos) < TWO64
    ensures v >= 128 ==> bitpos < 63
    ensures bitpos == 63 ==> v < 2
  {
    ShlConstants(v);
  }

  lemma {:induction false} Varint64FromInverts(v: nat, rest: seq<byte>, bitpos: nat, result: nat)
    requires GroupPosition(bitpos) && result < Shl(1, bitpos)
    requires result + Shl(v, bitpos) < TWO64
    ensures Varint64From(Varint(v) + rest, bitpos, result) == Ok(result + Shl(v, bitpos), |Varint(v)|)
    decreases v
  {
    hide Or, Low, Shl;
    var s := Varint(v) + rest;
    GroupRoom(v, bitpos);
    Group64(bitpos, result, v % 128);
    if v >= 128 {
      assert s[1..] == Varint(v / 128) + rest;
      SplitGroup(v, bitpos);
      Varint64FromInverts(v / 128, rest, bitpos + 7, result + Shl(v % 128, bitpos));
    }
  }

  /** Reading back a 64-bit value gives the value and uses exactly its encoding. */
  lemma Varint64Inverts(v: nat, rest: seq<byte>)
    requires v < TWO64
    ensures Varint64(Varint(v) + rest) == Ok(v, |Varint(v)|)
  {
    Varint64FromInverts(v, rest, 0, 0);
  }

  /** An encoding has one byte for each started group of seven bits, and at least one. */
  lemma {:induction false} VarintLength(v: nat)
    ensures v < Shl(1, 7 * |Varint(v)|)
    ensures |Varint(v)| > 1 ==> Shl(1, 7 * (|Varint(v)| - 1)) <= v
  {
    hide Shl;
    ShlConstants(1);
    var n := |Varint(v)|;
    if v >= 128 {
      VarintLength(v / 128);
      assert 7 * n == 7 * (n - 1) + 7;
      NextGroup(1, 7 * (n - 1));
      Shl128(7 * (n - 1));
      if n > 2 { NextGroup(1, 7 * (n - 2)); Shl128(7 * (n - 2)); assert 7 * (n - 1) == 7 * (n - 2) + 7; }
    }
  }

  lemma Shl128(n: nat)
    ensures Shl(128, n) == 128 * Shl(1, n)
  {
    ShlShl(1, 7, n);
    ShlShl(1, n, 7);
    ShlConstants(1);
    ShlConstants(Shl(1, n));
  }

  /** A 64-bit value takes at most ten bytes, a 32-bit value at most five. */
  lemma VarintAtMost(v: nat)
    ensures v < TWO64 ==> |Varint(v)| <= 10
    ensures v < TWO32 ==> |Varint(v)| <= 5
  {
    hide Shl, Varint;
    VarintLength(v);
    ShlConstants(1);
    var n := |Varint(v)|;
    if n > 10 { ShlGrows(1, 64, 7 * (n - 1)); }
    if n > 5 { ShlGrows(1, 35, 7 * (n - 1)); }
  }

  // The 32-bit decoder against the 64-bit one.

  /** What one turn of the 32-bit loop leaves in `result`. */
  function Next32(result: nat, g: nat, bitpos: nat): nat {
    if bitpos >= 32 then result else Or(result, Low(Shl(g, bitpos), 32))
  }

  /** One turn of the 32-bit loop keeps the low 32 bits of what the 64-bit loop has. */
  lemma Group32(bitpos: nat, narrow: nat, wide: nat, g: nat)
    requires GroupPosition(bitpos) && wide < Shl(1, bitpos) && narrow == Low(wide, 32) && g < 128
    ensures Next32(narrow, g, bitpos) == Low(Or(wide, Low(Shl(g, bitpos), 64)), 32)
    ensures bitpos <= 21 ==> Next32(narrow, g, bitpos) == wide + Shl(g, bitpos) < Shl(1, bitpos + 7)
    ensures bitpos <= 28 ==> narrow == wide && Next32(narrow, g, bitpos) == Low(wide + Shl(g, bitpos), 32)
  {
    hide Or, Low, Shl;
    Group64(bitpos, wide, g);
    if bitpos >= 35 {
      LowIgnores(wide, Kept64(g, bitpos), bitpos, 32);
    } else {
      ShlGrows(1, bitpos, 32);
      LowRange(wide, 32);
      LowShl(g, bitpos, 32);
      OrDisjoint(narrow, Low(g, 32 - bitpos), bitpos);
      LowAdd(wide, g, bitpos, 32);
      if bitpos <= 21 {
        ShlGrows(1, bitpos + 7, 32);
        LowRange(Shl(g, bitpos), 32);
      }
    }
  }

  lemma {:induction false} Varint32FromRefines(s: seq<byte>, bitpos: nat, narrow: nat, wide: nat)
    requires GroupPosition(bitpos) && bitpos > 0 && wide < Shl(1, bitpos) && narrow == Low(wide, 32)
    requires Varint32From(s, bitpos, narrow).Ok?
    requires 7 * Varint32From(s, bitpos, narrow).used <= 70 - bitpos
    ensures var r := Varint64From(s, bitpos, wide);
            r.Ok? && r.used == Varint32From(s, bitpos, narrow).used
            && Low(r.value, 32) == Varint32From(s, bitpos, narrow).value
    decreases |s|
  {
    hide Or, Low, Shl, Next32;
    var g := s[0] % 128;
    Group64(bitpos, wide, g);
    Group32(bitpos, narrow, wide, g);
    if s[0] >= 128 {
      Varint32FromRefines(s[1..], bitpos + 7, Next32(narrow, g, bitpos), Or(wide, Low(Shl(g, bitpos), 64)));
    }
  }

  /**
   On a varint of at most ten bytes the fast decoder, when it accepts, reads what the 64-bit
   decoder reads and returns its low 32 bits.
   */
  lemma Varint32Refines(s: seq<byte>)
    requires Varint32(s).Ok? && Varint32(s).used <= 10
    ensures Varint64(s).Ok? && Varint64(s).used == Varint32(s).used
    ensures Low(Varint64(s).value, 32) == Varint32(s).value
  {
    hide Or, Low, Shl, Next32;
    ShlConstants(1);
    ShlZero(s[0] % 128);
    ShlZero(1);
    LowRange(s[0] % 128, 32);
    Group64(0, 0, s[0] % 128);
    if s[0] >= 128 {
      Varint32FromRefines(s[1..], 7, s[0] % 128, s[0] % 128);
    }
  }

  /** The groups from bit 35 on are each zero or all ones, and the tenth is one. */
  predicate SignGroups(w: nat, groups: nat) {
    if groups == 0 then w == 1 else w % 128 in {0, 127} && SignGroups(w / 128, groups - 1)
  }

  lemma {:induction false} Varint32HighGroups(w: nat, rest: seq<byte>, groups: nat, result: nat)
    requires groups <= 4 && 0 < w && Shl(w, 63 - 7 * groups) < TWO64
    ensures Varint32From(Varint(w) + rest, 63 - 7 * groups, result).Ok? <==> result >= TWO31 && SignGroups(w, groups)
    decreases w
  {
    hide Or, Low, Shl, SignGroups;
    var s := Varint(w) + rest;
    GroupRoom(w, 63 - 7 * groups);
    SignGroupsStep(w, groups);
    if groups > 0 && w < 128 {
      ZeroNotSign(groups - 1);
    } else if groups > 0 {
      assert s[1..] == Varint(w / 128) + rest;
      SplitGroup(w, 63 - 7 * groups);
      Varint32HighGroups(w / 128, rest, groups - 1, result);
    }
  }

  lemma SignGroupsStep(w: nat, groups: nat)
    ensures SignGroups(w, 0) <==> w == 1
    ensures groups > 0 ==> (SignGroups(w, groups) <==> w % 128 in {0, 127} && SignGroups(w / 128, groups - 1))
  {
  }

  lemma {:induction false} ZeroNotSign(groups: nat)
    ensures !SignGroups(0, groups)
  {
    if groups > 0 { ZeroNotSign(groups - 1); }
  }

  function DropGroups(v: nat, n: nat): nat
    decreases v, n
  {
    if n == 0 then v else DropGroups(v / 128, n - 1)
  }

  lemma Varint32FifthGroup(w: nat, rest: seq<byte>, result: nat)
    requires 0 < w && result < Shl(1, 28) && result + Shl(w, 28) < TWO64
    ensures var v := result + Shl(w, 28);
            Varint32From(Varint(w) + rest, 28, result).Ok?
            == (v < TWO32 || (Low(v, 32) >= TWO31 && SignGroups(DropGroups(w, 1), 4)))
  {
    hide Or, Low, Shl, Next32, SignGroups, DropGroups;
    var s := Varint(w) + rest;
    ShlGrows(1, 28, 32);
    LowRange(result, 32);
    Group32(28, result, result, w % 128);
    SplitGroup(w, 28);
    DropGroupsStep(w, 1);
    FifthGroupFits(w, result);
    LowIgnores(result + Shl(w % 128, 28), w / 128, 35, 32);
    if w >= 128 {
      assert s[1..] == Varint(w / 128) + rest;
      Varint32HighGroups(w / 128, rest, 4, Next32(result, w % 128, 28));
    } else {
      ZeroNotSign(4);
    }
  }

  lemma {:induction false} Varint32LowGroups(w: nat, rest: seq<byte>, k: nat, result: nat)
    requires 1 <= k <= 4 && 0 < w && result < Shl(1, 7 * k)
    requires result + Shl(w, 7 * k) < TWO64
    ensures var v := result + Shl(w, 7 * k);
            Varint32From(Varint(w) + rest, 7 * k, result).Ok?
            == (v < TWO32 || (Low(v, 32) >= TWO31 && SignGroups(DropGroups(w, 5 - k), 4)))
    decreases w
  {
    hide Or, Low, Shl, Next32, SignGroups, DropGroups, Varint64From;
    if k == 4 {
      Varint32FifthGroup(w, rest, result);
    } else {
      var s := Varint(w) + rest;
      var g := w % 128;
      ShlGrows(1, 7 * k, 32);
      LowRange(result, 32);
      Group32(7 * k, result, result, g);
      SplitGroup(w, 7 * k);
      DropGroupsStep(w, 5 - k);
      if w >= 128 {
        assert s[1..] == Varint(w / 128) + rest;
        Varint32LowGroups(w / 128, rest, k + 1, result + Shl(g, 7 * k));
      } else {
        ShlGrows(1, 7 * k + 7, 28);
        ShlConstants(1);
      }
    }
  }

  lemma DropGroupsStep(v: nat, n: nat)
    requires n > 0
    ensures DropGroups(v, n) == DropGroups(v / 128, n - 1)
    ensures DropGroups(v, 1) == v / 128
  {
  }

  lemma FifthGroupFits(w: nat, result: nat)
    requires result < Shl(1, 28)
    ensures result + Shl(w, 28) < TWO32 <==> w < 16
  {
    ShlConstants(1);
    ShlConstants(w);
  }

  /** The encoded values that the 32-bit decoder accepts. */
  predicate Accepted32(v: nat) {
    v < TWO32 || (Low(v, 32) >= TWO31 && SignGroups(DropGroups(v, 5), 4))
  }

  /**
   Exactly which encoded values the fast decoder accepts: those below 2^32, and those whose bit
   31 is set, whose four groups from bit 35 are each zero or all ones and whose tenth group is one.
   */
  lemma Varint32Accepts(v: nat, rest: seq<byte>)
    requires v < TWO64
    ensures Varint32(Varint(v) + rest).Ok? <==> Accepted32(v)
  {
    hide Or, Low, Shl, Next32, SignGroups;
    if v >= 128 {
      var s := Varint(v) + rest;
      assert s[1..] == Varint(v / 128) + rest;
      ShlConstants(1);
      ShlConstants(v / 128);
      assert v == v % 128 + Shl(v / 128, 7);
      Varint32LowGroups(v / 128, rest, 1, v % 128);
    }
  }

  /** Every value below 2^32 is read back. */
  lemma Varint32Inverts(v: nat, rest: seq<byte>)
    requires v < TWO32
    ensures Varint32(Varint(v) + rest) == Ok(v, |Varint(v)|)
  {
    hide Low, Shl, SignGroups, DropGroups, Varint, Varint32, Varint64;
    Varint32Accepts(v, rest);
    Varint32Used(v, rest);
    Varint32Refines(Varint(v) + rest);
    Varint64Inverts(v, rest);
    ShlConstants(1);
    LowRange(v, 32);
  }

  /** Every negative 32-bit value, encoded with its sign extended to 64 bits, is read back. */
  lemma Varint32ReadsNegatives(n: int, rest: seq<byte>)
    requires -TWO31 <= n < 0
    ensures Varint32(Varint(TWO64 + n) + rest) == Ok(TWO32 + n, 10)
  {
    hide Low, Shl, SignGroups, DropGroups, Varint, Varint32, Varint64;
    var v := TWO64 + n;
    SignExtended(n);
    Varint32Accepts(v, rest);
    VarintLength(v);
    ShlConstants(1);
    if |Varint(v)| < 10 { ShlGrows(1, 7 * |Varint(v)|, 63); }
    Varint32Used(v, rest);
    Varint32Refines(Varint(v) + rest);
    Varint64Inverts(v, rest);
  }

  lemma SignExtended(n: int)
    requires -TWO31 <= n < 0
    ensures Low(TWO64 + n, 32) == TWO32 + n && SignGroups(DropGroups(TWO64 + n, 5), 4)
  {
    hide Low, DropGroups;
    var v := TWO64 + n;
    LowIsRemainder(v);
    var a := v / 128;
    var b := a / 128;
    var c := b / 128;
    var d := c / 128;
    DropGroupsStep(v, 5); DropGroupsStep(a, 4); DropGroupsStep(b, 3); DropGroupsStep(c, 2); DropGroupsStep(d, 1);
    assert a / 0x100_0000 == TWO32 * 2 - 1;
    assert d / 128 == 0x1FFF_FFFF;
    assert SignGroups(0x1FFF_FFFF, 4);
  }

  lemma {:induction false} Varint32FromUsed(v: nat, rest: seq<byte>, bitpos: nat, result: nat)
    requires Varint32From(Varint(v) + rest, bitpos, result).Ok?
    ensures Varint32From(Varint(v) + rest, bitpos, result).used == |Varint(v)|
    decreases v
  {
    var s := Varint(v) + rest;
    if v >= 128 {
      assert s[1..] == Varint(v / 128) + rest;
      var next := Next32(result, s[0] % 128, bitpos);
      Varint32FromUsed(v / 128, rest, (bitpos + 7) % 256, next);
    }
  }

  lemma VarintStep(v: nat)
    ensures Varint(v) == if v < 128 then [v] else [v % 128 + 128] + Varint(v / 128)
  {
  }

  lemma Varint32Used(v: nat, rest: seq<byte>)
    requires v < TWO64 && Varint32(Varint(v) + rest).Ok?
    ensures Varint32(Varint(v) + rest).used == |Varint(v)| <= 10
  {
    hide Varint32From, Varint, Varint64From;
    VarintAtMost(v);
    VarintStep(v);
    if v >= 128 {
      var s := Varint(v) + rest;
      assert s[1..] == Varint(v / 128) + rest;
      Varint32FromUsed(v / 128, rest, 7, s[0] % 128);
    }
  }

  // What a varint decoder does depends only on the bytes it uses.

  lemma {:induction false} Varint64FromDepends(s: seq<byte>, s2: seq<byte>, bitpos: nat, result: nat)
    requires Varint64From(s, bitpos, result).Ok? && SameUpTo(s, s2, Varint64From(s, bitpos, result).used)
    ensures Varint64From(s2, bitpos, result) == Varint64From(s, bitpos, result)
    decreases |s|
  {
    var n := Varint64From(s, bitpos, result).used;
    assert s[0] == s[..n][0] == s2[..n][0] == s2[0];
    if s[0] >= 128 {
      TailSame(s, s2, n, 1);
      Varint64FromDepends(s[1..], s2[1..], bitpos + 7, Or(result, Low(Shl(s[0] % 128, bitpos), 64)));
    }
  }

  lemma {:induction false} Varint32FromDepends(s: seq<byte>, s2: seq<byte>, bitpos: nat, result: nat)
    requires Varint32From(s, bitpos, result).Ok? && SameUpTo(s, s2, Varint32From(s, bitpos, result).used)
    ensures Varint32From(s2, bitpos, result) == Varint32From(s, bitpos, result)
    decreases |s|
  {
    var n := Varint32From(s, bitpos, result).used;
    assert s[0] == s[..n][0] == s2[..n][0] == s2[0];
    if s[0] >= 128 {
      TailSame(s, s2, n, 1);
      var next := Next32(result, s[0] % 128, bitpos);
      Varint32FromDepends(s[1..], s2[1..], (bitpos + 7) % 256, next);
    }
  }

  lemma Varint32Depends(s: seq<byte>, s2: seq<byte>)
    requires Varint32(s).Ok? && SameUpTo(s, s2, Varint32(s).used)
    ensures Varint32(s2) == Varint32(s)
  {
    var n := Varint32(s).used;
    assert s[0] == s[..n][0] == s2[..n][0] == s2[0];
    if s[0] >= 128 {
      TailSame(s, s2, n, 1);
      Varint32FromDepends(s[1..], s2[1..], 7, s[0] % 128);
    }
  }

  lemma TailSame(s: seq<byte>, s2: seq<byte>, n: nat, k: nat)
    requires SameUpTo(s, s2, n) && k <= n
    ensures SameUpTo(s[k..], s2[k..], n - k)
  {
    assert s[k..][..n - k] == s[..n][k..];
    assert s2[k..][..n - k] == s2[..n][k..];
  }

  // ---------------------------------------------------------------------------------------
  // Zigzag and fixed-width integers
  // ---------------------------------------------------------------------------------------

  /** Two's complement: a 64-bit value as it is cast to `uint64_t`. */
  function Unsigned64(v: int): (u: nat)
    ensures u < TWO64
  {
    v % TWO64
  }

  /** The signed value of the low `bits` bits of `u`. */
  function SignedBits(u: nat, bits: nat): int
    requires bits >= 1
  {
    var low := Low(u, bits);
    if low >= Shl(1, bits - 1) then low - Shl(1, bits) else low
  }

  /** `~(value << 1)` for negative values, `value << 1` otherwise, in 64 bits. */
  function ZigZag(v: int): (u: nat)
    ensures u < TWO64
  {
    var shifted := 2 * Unsigned64(v) % TWO64;
    if v < 0 then TWO64 - 1 - shifted else shifted
  }

  /** `~(value >> 1)` for odd values, `value >> 1` otherwise, cast to `int64_t`. */
  function UnZigZag(u: nat): int
    requires u < TWO64
  {
    SignedBits(if u % 2 == 1 then TWO64 - 1 - u / 2 else u / 2, 64)
  }

  lemma Unsigned64Value(v: int)
    requires -TWO63 <= v < TWO63
    ensures Unsigned64(v) == if v < 0 then v + TWO64 else v
  {
  }

  lemma ZigZagValue(v: int)
    requires -TWO63 <= v < TWO63
    ensures ZigZag(v) == if v < 0 then -2 * v - 1 else 2 * v
  {
    Unsigned64Value(v);
    var u := Unsigned64(v);
    hide Unsigned64;
    if v < 0 {
      assert 2 * u == TWO64 + (TWO64 + 2 * v);
    }
  }

  /** Zigzag is undone on the whole signed 64-bit range. */
  lemma ZigZagInverts(v: int)
    requires -TWO63 <= v < TWO63
    ensures UnZigZag(ZigZag(v)) == v
  {
    hide Low, Shl, ZigZag;
    ZigZagValue(v);
    ShlConstants(1);
    LowRange(if v < 0 then TWO64 + v else v, 64);
  }

  /** The `n` bytes of `v`, the low byte first. */
  function LittleEndian(n: nat, v: nat): (s: seq<byte>)
    ensures |s| == n
  {
    if n == 0 then [] else [v % 256] + LittleEndian(n - 1, v / 256)
  }

  function FromLittleEndian(s: seq<byte>): nat {
    if s == [] then 0 else s[0] + 256 * FromLittleEndian(s[1..])
  }

  lemma Shl8n(n: nat)
    requires n > 0
    ensures Shl(1, 8 * n) == 256 * Shl(1, 8 * (n - 1))
  {
    hide Shl;
    ShlShl(1, 8 * (n - 1), 8);
    ShlConstants(Shl(1, 8 * (n - 1)));
  }

  lemma {:induction false} LittleEndianInverts(n: nat, v: nat)
    requires v < Shl(1, 8 * n)
    ensures FromLittleEndian(LittleEndian(n, v)) == v
  {
    if n > 0 {
      Shl8n(n);
      assert LittleEndian(n, v)[1..] == LittleEndian(n - 1, v / 256);
      LittleEndianInverts(n - 1, v / 256);
    }
  }

  lemma {:induction false} FromLittleEndianRange(s: seq<byte>)
    ensures FromLittleEndian(s) < Shl(1, 8 * |s|)
  {
    if s != [] {
      FromLittleEndianRange(s[1..]);
      Shl8n(|s|);
    }
  }

  // ---------------------------------------------------------------------------------------
  // Record headers and skipping
  // ---------------------------------------------------------------------------------------

  const WT_VARINT := 0
  const WT_64BIT := 1
  const WT_STRING := 2
  const WT_32BIT := 5

  /** The header of a record: field number and wire type in one varint. */
  function TagBytes(wireType: nat, tag: nat): (s: seq<byte>)
    ensures |s| >= 1
  {
    Varint(8 * tag + wireType)
  }

  datatype Header = BadHeader | EndOfMessage(used: nat) | Header(tag: nat, wireType: nat, used: nat)

  /** Reads a header from a non-empty stream. A value of zero ends the message. */
  function ReadHeader(s: seq<byte>): (h: Header)
    ensures !h.BadHeader? ==> 1 <= h.used <= |s|
    ensures h.Header? ==> h.wireType < 8
  {
    match Varint32(s)
    case Fail => BadHeader
    case Ok(v, n) => if v == 0 then EndOfMessage(n) else Header(v / 8, v % 8, n)
  }

  lemma ReadHeaderInverts(wireType: nat, tag: nat, rest: seq<byte>)
    requires wireType < 8 && 0 < tag < 0x2000_0000
    ensures ReadHeader(TagBytes(wireType, tag) + rest) == Header(tag, wireType, |TagBytes(wireType, tag)|)
  {
    hide Varint, Varint32;
    var v := 8 * tag + wireType;
    assert v / 8 == tag && v % 8 == wireType;
    Varint32Inverts(v, rest);
  }

  function SkipVarint(s: seq<byte>): (r: Parsed<()>)
    ensures r.Ok? ==> 1 <= r.used <= |s|
    decreases |s|
  {
    if |s| == 0 then Fail
    else if s[0] < 128 then Ok((), 1)
    else match SkipVarint(s[1..])
      case Fail => Fail
      case Ok(_, n) => Ok((), n + 1)
  }

  function SkipBytes(s: seq<byte>, count: nat): (r: Parsed<()>)
    ensures r.Ok? ==> r.used == count <= |s|
  {
    if |s| < count then Fail else Ok((), count)
  }

  function SkipString(s: seq<byte>): (r: Parsed<()>)
    ensures r.Ok? ==> r.used <= |s|
  {
    match Varint32(s)
    case Fail => Fail
    case Ok(length, n) => if |s| - n < length then Fail else Ok((), n + length)
  }

  function SkipField(s: seq<byte>, wireType: nat): (r: Parsed<()>)
    ensures r.Ok? ==> r.used <= |s|
  {
    if wireType == WT_VARINT then SkipVarint(s)
    else if wireType == WT_64BIT then SkipBytes(s, 8)
    else if wireType == WT_STRING then SkipString(s)
    else if wireType == WT_32BIT then SkipBytes(s, 4)
    else Fail
  }

  /** What the wire format allows as the payload of a record: a varint, 64 bits, a length with as many bytes, or 32 bits. */
  ghost predicate Payload(p: seq<byte>, wireType: nat) {
    match wireType
    case 0 => |p| >= 1 && p[|p| - 1] < 128 && forall k :: 0 <= k < |p| - 1 ==> p[k] >= 128
    case 1 => |p| == 8
    case 2 => Varint32(p).Ok? && |p| == Varint32(p).used + Varint32(p).value
    case 5 => |p| == 4
    case _ => false
  }

  lemma {:induction false} SkipVarintExact(s: seq<byte>, n: nat)
    requires n <= |s|
    ensures SkipVarint(s) == Ok((), n) <==> Payload(s[..n], WT_VARINT)
    decreases |s|
  {
    if n > 1 && s[0] >= 128 {
      var p, q := s[..n], s[1..][..n - 1];
      assert q == p[1..];
      SkipVarintExact(s[1..], n - 1);
      if Payload(q, WT_VARINT) {
        forall k | 0 <= k < |p| - 1 ensures p[k] >= 128 { if k > 0 { assert p[k] == q[k - 1]; } }
      }
      if Payload(p, WT_VARINT) {
        forall k | 0 <= k < |q| - 1 ensures q[k] >= 128 { assert q[k] == p[k + 1]; }
      }
    } else if n == 1 && s[0] >= 128 {
      assert s[..n][0] == s[0];
    } else if n > 1 {
      assert s[..n][0] == s[0];
    }
  }

  /** Skipping uses exactly `n` bytes if and only if the next `n` bytes are a payload of that type. */
  lemma SkipFieldExact(s: seq<byte>, wireType: nat, n: nat)
    requires n <= |s|
    ensures SkipField(s, wireType) == Ok((), n) <==> Payload(s[..n], wireType)
  {
    var p := s[..n];
    if wireType == WT_VARINT {
      SkipVarintExact(s, n);
    } else if wireType == WT_STRING {
      if SkipString(s) == Ok((), n) {
        assert SameUpTo(s, p, Varint32(s).used) by { assert p[..Varint32(s).used] == s[..Varint32(s).used]; }
        Varint32Depends(s, p);
      }
      if Payload(p, wireType) {
        var k := Varint32(p).used;
        assert SameUpTo(p, s, k) by { assert p[..k] == s[..k]; }
        Varint32Depends(p, s);
      }
    }
  }

  lemma ReadHeaderDepends(s: seq<byte>, s2: seq<byte>)
    requires !ReadHeader(s).BadHeader? && SameUpTo(s, s2, ReadHeader(s).used)
    ensures ReadHeader(s2) == ReadHeader(s)
  {
    Varint32Depends(s, s2);
  }

  lemma SkipFieldDepends(s: seq<byte>, s2: seq<byte>, wireType: nat)
    requires SkipField(s, wireType).Ok? && SameUpTo(s, s2, SkipField(s, wireType).used)
    ensures SkipField(s2, wireType) == SkipField(s, wireType)
  {
    var n := SkipField(s, wireType).used;
    SkipFieldExact(s, wireType, n);
    SkipFieldExact(s2, wireType, n);
  }
}

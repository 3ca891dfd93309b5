/**
 The bytes of the wire format against an independent reading of them: the value of a string of seven-bit
 groups, whether it is the shortest one or not.
 */
module WireFormat {
  import opened Bits
  import opened Wire

  /** The number that the groups of seven bits stand for, the low group first. */
  function GroupsValue(p: seq<byte>): nat {
    if p == [] then 0 else p[0] % 128 + 128 * GroupsValue(p[1..])
  }

  /** A varint is a payload of its wire type, and its groups are the value. */
  lemma {:induction false} VarintIsGroups(v: nat)
    ensures Payload(Varint(v), 0) && GroupsValue(Varint(v)) == v
  {
    var s := Varint(v);
    if v < 128 {
      assert s[1..] == [];
    } else {
      VarintIsGroups(v / 128);
      var t := Varint(v / 128);
      assert s == [v % 128 + 128] + t;
      OneMoreGroup(v % 128, t);
    }
  }

  lemma OneMoreGroup(g: nat, t: seq<byte>)
    requires g < 128 && Payload(t, 0)
    ensures Payload([g + 128] + t, 0) && GroupsValue([g + 128] + t) == g + 128 * GroupsValue(t)
  {
    var s: seq<byte> := [g + 128] + t;
    assert s[1..] == t && s[0] % 128 == g;
    forall k | 0 <= k < |s| - 1 ensures s[k] >= 128 { if k > 0 { assert s[k] == t[k - 1]; } }
  }

  lemma PayloadRest(p: seq<byte>)
    requires Payload(p, 0) && |p| > 1
    ensures p[0] >= 128 && Payload(p[1..], 0)
  {
    var q := p[1..];
    forall k | 0 <= k < |q| - 1 ensures q[k] >= 128 { assert q[k] == p[k + 1]; }
  }

  lemma PayloadOne(p: seq<byte>)
    requires Payload(p, 0)
    ensures p != [] && (|p| == 1 <==> p[0] < 128)
  {
  }

  lemma GroupsSplit(p: seq<byte>, bitpos: nat)
    requires p != []
    ensures Shl(GroupsValue(p), bitpos) == Shl(p[0] % 128, bitpos) + Shl(GroupsValue(p[1..]), bitpos + 7)
  {
    hide Shl;
    NextGroup(GroupsValue(p[1..]), bitpos);
    ShlAdd(p[0] % 128, 128 * GroupsValue(p[1..]), bitpos);
  }

  // ---------------------------------------------------------------------------------------
  // The 64-bit decoder
  // ---------------------------------------------------------------------------------------

  lemma {:induction false} Varint64FromExact(p: seq<byte>, rest: seq<byte>, bitpos: nat, result: nat)
    requires Payload(p, 0) && GroupPosition(bitpos) && result < Shl(1, bitpos)
    ensures Varint64From(p + rest, bitpos, result) ==
      if bitpos + 7 * |p| <= 70 then Ok(Low(result + Shl(GroupsValue(p), bitpos), 64), |p|) else Fail
    decreases |p|
  {
    hide Or, Low, Shl, GroupsValue, Payload;
    PayloadOne(p);
    var s, g := p + rest, p[0] % 128;
    GroupsSplit(p, bitpos);
    Group64(bitpos, result, g);
    if p[0] < 128 {
      assert p[1..] == [];
      NoGroups();
      ShlNothing(bitpos + 7);
      LastGroup64(bitpos, result, g);
    } else {
      PayloadRest(p);
      assert s[1..] == p[1..] + rest;
      if bitpos < 63 {
        Varint64FromExact(p[1..], rest, bitpos + 7, result + Shl(g, bitpos));
      } else {
        TooLong(s[1..], bitpos + 7, Or(result, Low(Shl(g, bitpos), 64)));
      }
    }
  }

  lemma NoGroups()
    ensures GroupsValue([]) == 0
  {
  }

  lemma {:induction false} ShlNothing(n: nat)
    ensures Shl(0, n) == 0
  {
    if n > 0 { ShlNothing(n - 1); }
  }

  lemma LastGroup64(bitpos: nat, result: nat, g: nat)
    requires GroupPosition(bitpos) && result < Shl(1, bitpos) && g < 128
    ensures Low(result + Shl(g, bitpos), 64) == result + Shl(Kept64(g, bitpos), bitpos)
  {
    hide Low, Shl;
    if bitpos < 63 {
      Group64(bitpos, result, g);
      ShlGrows(1, bitpos + 7, 64);
      LowRange(result + Shl(g, bitpos), 64);
    } else {
      LowAdd(result, g, 63, 64);
      LowShl(g, 63, 64);
      LowOne(g);
    }
  }

  lemma TooLong(s: seq<byte>, bitpos: nat, result: nat)
    requires bitpos == 70
    ensures Varint64From(s, bitpos, result).Fail?
  {
  }

  /** The 64-bit decoder takes any varint of at most ten bytes, and returns its value modulo 2^64. */
  lemma Varint64Exact(p: seq<byte>, rest: seq<byte>)
    requires Payload(p, 0)
    ensures Varint64(p + rest) == if |p| <= 10 then Ok(GroupsValue(p) % TWO64, |p|) else Fail
  {
    hide Low, Shl, GroupsValue, Payload;
    ShlConstants(1);
    ShlZero(1);
    ShlZero(GroupsValue(p));
    Varint64FromExact(p, rest, 0, 0);
    LowIsRemainder(GroupsValue(p));
  }

  // ---------------------------------------------------------------------------------------
  // The 32-bit decoder
  // ---------------------------------------------------------------------------------------

  /** The byte at place `k`, from the sixth on, may hold nothing, or repeat a sign that is set. */
  predicate RepeatsSign(b: byte, k: nat, low: nat) {
    b % 128 == 0 || (low >= 0x8000_0000 && b == (if k < 9 then 0xFF else 0x01))
  }

  /** The bytes of `p`, of which the first is at place `k`, as far as they lie behind the fifth. */
  predicate SignOnly(p: seq<byte>, k: nat, low: nat) {
    forall j :: 0 <= j < |p| && 5 <= k + j ==> RepeatsSign(p[j], k + j, low)
  }

  /** A varint of exactly five bytes must not use bits 4 to 6 of the fifth. */
  predicate FifthFits(p: seq<byte>, k: nat) {
    k + |p| == 5 && p != [] ==> p[|p| - 1] / 16 % 8 == 0
  }

  lemma {:induction false} HighExact(p: seq<byte>, rest: seq<byte>, k: nat, low: nat)
    requires Payload(p, 0) && 5 <= k && k + |p| <= 37
    ensures Varint32From(p + rest, 7 * k, low) == if SignOnly(p, k, low) then Ok(low, |p|) else Fail
    decreases |p|
  {
    hide Or, Low, Shl, Payload;
    PayloadOne(p);
    var s := p + rest;
    SignFirst(p, k, low);
    if |p| > 1 {
      PayloadRest(p);
      assert s[1..] == p[1..] + rest;
      HighExact(p[1..], rest, k + 1, low);
    }
  }

  lemma SignFirst(p: seq<byte>, k: nat, low: nat)
    requires p != [] && 5 <= k
    ensures SignOnly(p, k, low) <==> RepeatsSign(p[0], k, low) && SignOnly(p[1..], k + 1, low)
  {
    hide RepeatsSign;
    if RepeatsSign(p[0], k, low) && SignOnly(p[1..], k + 1, low) {
      forall j | 0 <= j < |p| && 5 <= k + j ensures RepeatsSign(p[j], k + j, low) {
        if j > 0 { assert p[j] == p[1..][j - 1]; }
      }
    }
    if SignOnly(p, k, low) {
      forall j | 0 <= j < |p[1..]| && 5 <= k + 1 + j ensures RepeatsSign(p[1..][j], k + 1 + j, low) {
        assert p[1..][j] == p[j + 1];
      }
    }
  }

  lemma SignLater(p: seq<byte>, k: nat, low: nat)
    requires p != [] && k < 5
    ensures SignOnly(p, k, low) <==> SignOnly(p[1..], k + 1, low)
  {
    hide RepeatsSign;
    if SignOnly(p[1..], k + 1, low) {
      forall j | 0 <= j < |p| && 5 <= k + j ensures RepeatsSign(p[j], k + j, low) { assert p[j] == p[1..][j - 1]; }
    }
    if SignOnly(p, k, low) {
      forall j | 0 <= j < |p[1..]| && 5 <= k + 1 + j ensures RepeatsSign(p[1..][j], k + 1 + j, low) {
        assert p[1..][j] == p[j + 1];
      }
    }
  }

  /** The low bits of what the groups from place `k` on add to `result`. */
  function LowTotal(p: seq<byte>, k: nat, result: nat): nat {
    Low(result + Shl(GroupsValue(p), 7 * k), 32)
  }

  /** The groups behind the fifth do not reach the low 32 bits. */
  lemma LowOfFive(p: seq<byte>, result: nat)
    requires p != [] && result < Shl(1, 28)
    ensures LowTotal(p, 4, result) == Low(result + Shl(p[0] % 128, 28), 32)
  {
    hide Low, Shl, GroupsValue;
    GroupsSplit(p, 28);
    LowIgnores(result + Shl(p[0] % 128, 28), GroupsValue(p[1..]), 35, 32);
  }

  lemma LowOfLast(p: seq<byte>, k: nat, result: nat)
    requires |p| == 1 && 1 <= k <= 4
    ensures LowTotal(p, k, result) == Low(result + Shl(p[0] % 128, 7 * k), 32)
  {
    hide Low, Shl, GroupsValue;
    GroupsSplit(p, 7 * k);
    assert p[1..] == [];
    NoGroups();
    ShlNothing(7 * k + 7);
  }

  lemma LowOfRest(p: seq<byte>, k: nat, result: nat)
    requires p != [] && 1 <= k
    ensures LowTotal(p, k, result) == LowTotal(p[1..], k + 1, result + Shl(p[0] % 128, 7 * k))
  {
    hide Low, Shl, GroupsValue;
    GroupsSplit(p, 7 * k);
    assert 7 * (k + 1) == 7 * k + 7;
  }

  lemma {:induction false} LowExact(p: seq<byte>, rest: seq<byte>, k: nat, result: nat)
    requires Payload(p, 0) && 1 <= k <= 4 && k + |p| <= 37 && result < Shl(1, 7 * k)
    ensures var low := LowTotal(p, k, result);
            Varint32From(p + rest, 7 * k, result) == if FifthFits(p, k) && SignOnly(p, k, low) then Ok(low, |p|) else Fail
    decreases |p|
  {
    hide Or, Low, Shl, Payload, Next32, LowTotal, SignOnly;
    PayloadOne(p);
    var s, g := p + rest, p[0] % 128;
    ShlGrows(1, 7 * k, 32);
    LowRange(result, 32);
    Group32(7 * k, result, result, g);
    SignLater(p, k, LowTotal(p, k, result));
    if |p| == 1 {
      LowOfLast(p, k, result);
      assert SignOnly(p[1..], k + 1, LowTotal(p, k, result)) by { NothingSigned(p[1..], k + 1, LowTotal(p, k, result)); }
    } else {
      PayloadRest(p);
      assert s[1..] == p[1..] + rest;
      if k < 4 {
        LowOfRest(p, k, result);
        LowExact(p[1..], rest, k + 1, result + Shl(g, 7 * k));
      } else {
        LowOfFive(p, result);
        HighExact(p[1..], rest, 5, LowTotal(p, 4, result));
      }
    }
  }

  lemma NothingSigned(p: seq<byte>, k: nat, low: nat)
    requires p == []
    ensures SignOnly(p, k, low)
  {
  }

  /** What the 32-bit decoder takes of the varints of up to 37 bytes. */
  predicate Exact32(p: seq<byte>) {
    FifthFits(p, 0) && SignOnly(p, 0, GroupsValue(p) % TWO32)
  }

  /**
   The 32-bit decoder takes a varint of up to 37 bytes, where its position does not wrap around, if and only
   if five bytes fit 32 bits and what comes behind five bytes is nothing or the sign; it returns the value
   modulo 2^32.
   */
  lemma Varint32Exact(p: seq<byte>, rest: seq<byte>)
    requires Payload(p, 0) && |p| <= 37
    ensures Varint32(p + rest) == if Exact32(p) then Ok(GroupsValue(p) % TWO32, |p|) else Fail
  {
    hide Or, Low, Shl, Payload, LowTotal, SignOnly, Varint32From;
    PayloadOne(p);
    LowIsRemainder(GroupsValue(p));
    ShlConstants(1);
    var low := GroupsValue(p) % TWO32;
    SignLater(p, 0, low);
    if |p| == 1 {
      assert p[1..] == [];
      NothingSigned(p[1..], 1, low);
    } else {
      PayloadRest(p);
      assert (p + rest)[1..] == p[1..] + rest;
      FirstGroup(p);
      LowExact(p[1..], rest, 1, p[0] % 128);
    }
  }

  lemma FirstGroup(p: seq<byte>)
    requires p != []
    ensures LowTotal(p[1..], 1, p[0] % 128) == Low(GroupsValue(p), 32)
  {
    hide Low, Shl;
    ShlConstants(GroupsValue(p[1..]));
  }

  // ---------------------------------------------------------------------------------------
  // Headers
  // ---------------------------------------------------------------------------------------

  /** The header of a record is the varint of eight times the field number plus the wire type. */
  lemma HeaderIsGroups(wireType: nat, tag: nat)
    ensures Payload(TagBytes(wireType, tag), 0) && GroupsValue(TagBytes(wireType, tag)) == 8 * tag + wireType
  {
    VarintIsGroups(8 * tag + wireType);
  }

  /** Every varint is read as a header so; zero alone ends the message. */
  lemma HeaderExact(p: seq<byte>, rest: seq<byte>)
    requires Payload(p, 0) && |p| <= 37
    ensures var v := GroupsValue(p) % TWO32;
            ReadHeader(p + rest) ==
              if !Exact32(p) then BadHeader else if v == 0 then EndOfMessage(|p|) else Header(v / 8, v % 8, |p|)
  {
    hide Payload, Exact32, Varint32;
    Varint32Exact(p, rest);
  }
}

/**
 Bits of natural numbers, read from the least significant end. `Or` is the C operator `|` and
 `Shl` is `<<` on unsigned values, before truncation to the width of the type.
 */
module Bits {

  function Shl(x: nat, n: nat): (r: nat)
    ensures r >= x
  {
    if n == 0 then x else 2 * Shl(x, n - 1)
  }

  /** The low `n` bits of `x`: what a cast to an unsigned type of that width keeps. */
  function Low(x: nat, n: nat): (r: nat)
    ensures r <= x
    decreases x, n
  {
    if n == 0 then 0 else 2 * Low(x / 2, n - 1) + x % 2
  }

  predicate Bit(x: nat, k: nat) {
    if k == 0 then x % 2 == 1 else Bit(x / 2, k - 1)
  }

  function Or(x: nat, y: nat): nat
    decreases x + y
  {
    if x == 0 then y
    else if y == 0 then x
    else 2 * Or(x / 2, y / 2) + (if x % 2 == 1 || y % 2 == 1 then 1 else 0)
  }

  lemma {:induction false} ZeroHasNoBits(k: nat)
    ensures !Bit(0, k)
  {
    if k > 0 { ZeroHasNoBits(k - 1); }
  }

  /** `Or` sets exactly the bits that are set in one of its operands. */
  lemma {:induction false} OrBit(x: nat, y: nat, k: nat)
    ensures Bit(Or(x, y), k) <==> Bit(x, k) || Bit(y, k)
  {
    ZeroHasNoBits(k);
    if k > 0 && x > 0 && y > 0 { OrBit(x / 2, y / 2, k - 1); }
  }

  lemma OrZero(x: nat, y: nat)
    ensures Or(x, 0) == x && Or(0, y) == y
  {
  }

  lemma OrStep(x: nat, y: nat)
    requires x > 0 && y > 0
    ensures Or(x, y) == 2 * Or(x / 2, y / 2) + (if x % 2 == 1 || y % 2 == 1 then 1 else 0)
  {
  }

  lemma OrEven(x: nat, y: nat)
    ensures Or(x, 2 * y) == 2 * Or(x / 2, y) + x % 2
  {
    hide Or;
    HalfSum(0, y);
    OrZero(x, 2 * y);
    OrZero(x / 2, y);
    if x > 0 && y > 0 { OrStep(x, 2 * y); }
  }

  /** On disjoint bit ranges `|` adds. */
  lemma {:induction false} OrDisjoint(x: nat, y: nat, k: nat)
    requires x < Shl(1, k)
    ensures Or(x, Shl(y, k)) == x + Shl(y, k)
  {
    if k > 0 {
      assert Shl(1, k) == 2 * Shl(1, k - 1) && Shl(y, k) == 2 * Shl(y, k - 1);
      OrDisjoint(x / 2, y, k - 1);
      OrEven(x, Shl(y, k - 1));
    }
  }

  lemma {:induction false} LowRange(x: nat, n: nat)
    ensures Low(x, n) < Shl(1, n)
    ensures x < Shl(1, n) ==> Low(x, n) == x
  {
    if n > 0 { LowRange(x / 2, n - 1); }
  }

  /** Truncation to at least `k` bits commutes with a shift by `k`. */
  lemma {:induction false} LowShl(x: nat, k: nat, n: nat)
    requires k <= n
    ensures Low(Shl(x, k), n) == Shl(Low(x, n - k), k)
  {
    if k > 0 {
      assert Shl(x, k) / 2 == Shl(x, k - 1) && Shl(x, k) % 2 == 0;
      LowShl(x, k - 1, n - 1);
    }
  }

  /** Bits shifted beyond the width do not matter. */
  lemma {:induction false} LowIgnores(x: nat, y: nat, k: nat, n: nat)
    requires n <= k
    ensures Low(x + Shl(y, k), n) == Low(x, n)
  {
    if n > 0 {
      assert Shl(y, k) == 2 * Shl(y, k - 1);
      assert (x + Shl(y, k)) / 2 == x / 2 + Shl(y, k - 1);
      LowIgnores(x / 2, y, k - 1, n - 1);
    }
  }

  lemma HalfSum(x: nat, y: nat)
    ensures (x + 2 * y) / 2 == x / 2 + y && (x + 2 * y) % 2 == x % 2
    ensures 2 * y / 2 == y && 2 * y % 2 == 0
  {
  }

  lemma LowHalf(x: nat, n: nat)
    requires n > 0
    ensures Low(x, n) == 2 * Low(x / 2, n - 1) + x % 2
  {
  }

  lemma {:induction false} LowAdd(x: nat, y: nat, k: nat, n: nat)
    requires k <= n && x < Shl(1, k)
    ensures Low(x + Shl(y, k), n) == x + Low(Shl(y, k), n)
  {
    hide Low;
    if k > 0 {
      assert Shl(y, k) == 2 * Shl(y, k - 1) && Shl(1, k) == 2 * Shl(1, k - 1);
      HalfSum(x, Shl(y, k - 1));
      LowAdd(x / 2, y, k - 1, n - 1);
      LowHalf(x + Shl(y, k), n);
      LowHalf(Shl(y, k), n);
    }
  }

  lemma LowOne(x: nat)
    ensures Low(x, 1) == x % 2
  {
    LowHalf(x, 1);
  }

  lemma {:induction false} LowShr(x: nat, n: nat) returns (q: nat)
    ensures x == Low(x, n) + Shl(q, n)
  {
    if n == 0 {
      q := x;
    } else {
      q := LowShr(x / 2, n - 1);
    }
  }

  lemma Remainder32(x: nat, r: nat, q: nat)
    requires r < 0x1_0000_0000 && x == r + 0x1_0000_0000 * q
    ensures x % 0x1_0000_0000 == r
  {
  }

  lemma Remainder64(x: nat, r: nat, q: nat)
    requires r < 0x1_0000_0000_0000_0000 && x == r + 0x1_0000_0000_0000_0000 * q
    ensures x % 0x1_0000_0000_0000_0000 == r
  {
  }

  /** In terms of remainders. */
  lemma LowIsRemainder(x: nat)
    ensures Low(x, 32) == x % 0x1_0000_0000 && Low(x, 64) == x % 0x1_0000_0000_0000_0000
  {
    hide Low, Shl;
    LowRange(x, 32);
    LowRange(x, 64);
    ShlConstants(1);
    var q := LowShr(x, 32);
    ShlConstants(q);
    Remainder32(x, Low(x, 32), q);
    q := LowShr(x, 64);
    ShlConstants(q);
    Remainder64(x, Low(x, 64), q);
  }

  lemma {:induction false} ShlAdd(x: nat, y: nat, n: nat)
    ensures Shl(x + y, n) == Shl(x, n) + Shl(y, n)
  {
    if n > 0 { ShlAdd(x, y, n - 1); }
  }

  lemma {:induction false} ShlShl(x: nat, a: nat, b: nat)
    ensures Shl(Shl(x, a), b) == Shl(x, a + b)
  {
    if b > 0 { ShlShl(x, a, b - 1); }
  }

  lemma ShlMono(x: nat, y: nat, n: nat)
    requires x <= y
    ensures Shl(x, n) <= Shl(y, n)
  {
    ShlAdd(x, y - x, n);
  }

  lemma {:induction false} ShlGrows(x: nat, a: nat, b: nat)
    requires a <= b
    ensures Shl(x, a) <= Shl(x, b)
  {
    if a < b { ShlGrows(x, a, b - 1); }
  }

  lemma ShlConstants(x: nat)
    ensures Shl(x, 7) == 0x80 * x && Shl(x, 8) == 0x100 * x && Shl(x, 21) == 0x20_0000 * x
    ensures Shl(x, 28) == 0x1000_0000 * x && Shl(x, 32) == 0x1_0000_0000 * x && Shl(x, 35) == 0x8_0000_0000 * x
    ensures Shl(x, 63) == 0x8000_0000_0000_0000 * x && Shl(x, 64) == 0x1_0000_0000_0000_0000 * x
  {
    Shl7(x); ShlShl(x, 7, 1); Shl7(Shl(x, 7)); ShlShl(x, 7, 7); Shl7(Shl(x, 14)); ShlShl(x, 14, 7);
    Shl7(Shl(x, 21)); ShlShl(x, 21, 7); Shl7(Shl(x, 28)); ShlShl(x, 28, 7);
    assert Shl(x, 32) == 2 * Shl(x, 31) && Shl(x, 31) == 2 * Shl(x, 30);
    assert Shl(x, 30) == 2 * Shl(x, 29) && Shl(x, 29) == 2 * Shl(x, 28);
    ShlShl(x, 28, 35); ShlShl(Shl(x, 28), 28, 7); ShlShl(Shl(x, 28), 7, 28);
    Shl7(Shl(Shl(x, 28), 28)); Shl28(Shl(x, 28));
    assert Shl(x, 64) == 2 * Shl(x, 63);
  }

  lemma Shl7(x: nat)
    ensures Shl(x, 7) == 0x80 * x
  {
    assert Shl(x, 1) == 2 * x && Shl(x, 2) == 2 * Shl(x, 1) && Shl(x, 3) == 2 * Shl(x, 2);
    assert Shl(x, 4) == 2 * Shl(x, 3) && Shl(x, 5) == 2 * Shl(x, 4) && Shl(x, 6) == 2 * Shl(x, 5);
  }

  lemma Shl28(x: nat)
    ensures Shl(x, 28) == 0x1000_0000 * x
  {
    Shl7(x); Shl7(Shl(x, 7)); ShlShl(x, 7, 7); Shl7(Shl(x, 14)); ShlShl(x, 14, 7); Shl7(Shl(x, 21)); ShlShl(x, 21, 7);
  }

  lemma {:induction false} ShlBit(n: nat, k: nat)
    ensures Bit(Shl(1, n), k) <==> k == n
  {
    if n == 0 {
      if k > 0 { ZeroHasNoBits(k - 1); }
    } else if k > 0 {
      ShlBit(n - 1, k - 1);
    }
  }

  /** `(1 << n) - 1` has exactly the lowest `n` bits set. */
  lemma {:induction false} OnesBit(n: nat, k: nat)
    ensures Bit(Shl(1, n) - 1, k) <==> k < n
  {
    if n == 0 {
      ZeroHasNoBits(k);
    } else if k > 0 {
      assert (Shl(1, n) - 1) / 2 == Shl(1, n - 1) - 1;
      OnesBit(n - 1, k - 1);
    }
  }

  lemma {:induction false} SomeBit(x: nat) returns (k: nat)
    requires x > 0
    ensures Bit(x, k)
  {
    if x % 2 == 1 {
      k := 0;
    } else {
      var j := SomeBit(x / 2);
      k := j + 1;
    }
  }

  /** A number is determined by its bits. */
  lemma {:induction false} SameBits(x: nat, y: nat)
    requires forall k: nat :: Bit(x, k) <==> Bit(y, k)
    ensures x == y
  {
    if x == 0 && y > 0 {
      var k := SomeBit(y);
      ZeroHasNoBits(k);
    } else if x > 0 && y == 0 {
      var k := SomeBit(x);
      ZeroHasNoBits(k);
    } else if x > 0 {
      assert Bit(x, 0) <==> Bit(y, 0);
      forall k: nat ensures Bit(x / 2, k) <==> Bit(y / 2, k) {
        assert Bit(x, k + 1) <==> Bit(y, k + 1);
      }
      SameBits(x / 2, y / 2);
    }
  }
}

/**
 * Bitwise operations on the unsigned reading of a word. A Java `int` or `long`
 * used as a bit set is modelled by the natural number its bits spell; bit `k`
 * is the `k`-th binary digit, and `&`, `|` and `^` work digit by digit.
 */
module Bits {

  /** `2^n`, the value of `1 << n` read unsigned. */
  function Pow2(n: nat): (r: nat)
    ensures r >= 1
  {
    if n == 0 then 1 else 2 * Pow2(n - 1)
  }

  /** Bit `k` of `x`. */
  predicate Bit(x: nat, k: nat)
  {
    if k == 0 then x % 2 == 1 else Bit(x / 2, k - 1)
  }

  /** The positions below `n` whose bit is set. */
  function BitsOf(x: nat, n: nat): set<nat>
  {
    set k: nat | k < n && Bit(x, k)
  }

  /** `a & b`. */
  function BitAnd(a: nat, b: nat): (r: nat)
    ensures r <= a && r <= b
  {
    if a == 0 || b == 0 then 0
    else 2 * BitAnd(a / 2, b / 2) + (if a % 2 == 1 && b % 2 == 1 then 1 else 0)
  }

  /** `a | b`. */
  function BitOr(a: nat, b: nat): nat
  {
    if a == 0 then b
    else if b == 0 then a
    else 2 * BitOr(a / 2, b / 2) + (if a % 2 == 1 || b % 2 == 1 then 1 else 0)
  }

  /** `a ^ b`. */
  function BitXor(a: nat, b: nat): nat
  {
    if a == 0 then b
    else if b == 0 then a
    else 2 * BitXor(a / 2, b / 2) + (if a % 2 != b % 2 then 1 else 0)
  }

  /** `sup` covers `sub`: `(sup & sub) == sub`. */
  predicate Covers(sup: nat, sub: nat)
  {
    BitAnd(sup, sub) == sub
  }

  /** Every bit of `sub` is a bit of `sup`. */
  ghost predicate BitsIncluded(sub: nat, sup: nat)
  {
    forall k: nat :: Bit(sub, k) ==> Bit(sup, k)
  }

  // ------------------------------------------------------ single bits

  lemma {:induction false} NoBitOfZero(k: nat)
    ensures !Bit(0, k)
  {
    if k > 0 { NoBitOfZero(k - 1); }
  }

  lemma {:induction false} BitAndBit(a: nat, b: nat, k: nat)
    ensures Bit(BitAnd(a, b), k) <==> Bit(a, k) && Bit(b, k)
  {
    if a != 0 && b != 0 {
      var low := if a % 2 == 1 && b % 2 == 1 then 1 else 0;
      DivModUnique(BitAnd(a, b), 2, BitAnd(a / 2, b / 2), low);
      if k > 0 {
        BitAndBit(a / 2, b / 2, k - 1);
      }
    } else if k > 0 {
      NoBitOfZero(k - 1);
      if a == 0 { assert a / 2 == 0; } else { assert b / 2 == 0; }
    }
  }

  lemma {:induction false} BitOrBit(a: nat, b: nat, k: nat)
    ensures Bit(BitOr(a, b), k) <==> Bit(a, k) || Bit(b, k)
  {
    if a != 0 && b != 0 {
      var low := if a % 2 == 1 || b % 2 == 1 then 1 else 0;
      DivModUnique(BitOr(a, b), 2, BitOr(a / 2, b / 2), low);
      if k > 0 {
        BitOrBit(a / 2, b / 2, k - 1);
      }
    } else if k > 0 {
      NoBitOfZero(k - 1);
      if a == 0 { assert a / 2 == 0; } else { assert b / 2 == 0; }
    }
  }

  lemma {:induction false} BitXorBit(a: nat, b: nat, k: nat)
    ensures Bit(BitXor(a, b), k) <==> Bit(a, k) != Bit(b, k)
  {
    if a != 0 && b != 0 {
      var low := if a % 2 != b % 2 then 1 else 0;
      DivModUnique(BitXor(a, b), 2, BitXor(a / 2, b / 2), low);
      if k > 0 {
        BitXorBit(a / 2, b / 2, k - 1);
      }
    } else if k > 0 {
      NoBitOfZero(k - 1);
      if a == 0 { assert a / 2 == 0; } else { assert b / 2 == 0; }
    }
  }

  /** The only bit of `2^i` is bit `i`. */
  lemma {:induction false} Pow2Bit(i: nat, k: nat)
    ensures Bit(Pow2(i), k) <==> i == k
  {
    if i == 0 {
      if k > 0 {
        NoBitOfZero(k - 1);
      }
    } else if k > 0 {
      Pow2Bit(i - 1, k - 1);
    }
  }

  /** A number is determined by its bits. */
  lemma {:induction false} Extensional(a: nat, b: nat)
    requires forall k: nat :: Bit(a, k) <==> Bit(b, k)
    ensures a == b
    decreases a + b
  {
    if a != 0 || b != 0 {
      assert Bit(a, 0) <==> Bit(b, 0);
      forall k: nat
        ensures Bit(a / 2, k) <==> Bit(b / 2, k)
      {
        assert Bit(a, k + 1) <==> Bit(b, k + 1);
      }
      Extensional(a / 2, b / 2);
    }
  }

  /** A number with no bit set is zero. */
  lemma NoBitsZero(a: nat)
    requires forall k: nat :: !Bit(a, k)
    ensures a == 0
  {
    forall k: nat
      ensures Bit(a, k) <==> Bit(0, k)
    {
      NoBitOfZero(k);
    }
    Extensional(a, 0);
  }

  // ----------------------------------------------------------- widths

  lemma {:induction false} Pow2Monotone(m: nat, n: nat)
    requires m <= n
    ensures Pow2(m) <= Pow2(n)
  {
    if m < n {
      Pow2Monotone(m, n - 1);
    }
  }

  lemma {:induction false} Pow2Add(m: nat, n: nat)
    ensures Pow2(m + n) == Pow2(m) * Pow2(n)
  {
    if n > 0 {
      Pow2Add(m, n - 1);
    }
  }

  /** The powers of two the filters are built from. */
  lemma Pow2Five()
    ensures Pow2(5) == 32 && Pow2(6) == 64
  {
  }

  lemma Pow2ThirtyTwo()
    ensures Pow2(32) == 0x1_0000_0000
  {
    assert Pow2(8) == 0x100;
    Pow2Add(8, 8);
    Pow2Add(16, 16);
  }

  lemma Pow2SixtyFour()
    ensures Pow2(64) == 0x1_0000_0000_0000_0000
  {
    Pow2ThirtyTwo();
    Pow2Add(32, 32);
  }

  /** A number below `2^n` has no bit at or above `n`. */
  lemma {:induction false} HighBitClear(x: nat, n: nat, k: nat)
    requires x < Pow2(n) && n <= k
    ensures !Bit(x, k)
  {
    if n == 0 {
      NoBitOfZero(k);
    } else {
      HighBitClear(x / 2, n - 1, k - 1);
    }
  }

  /** Two numbers below `2^n` that agree on the low `n` bits are equal. */
  lemma ExtensionalBelow(a: nat, b: nat, n: nat)
    requires a < Pow2(n) && b < Pow2(n)
    requires forall k: nat | k < n :: Bit(a, k) <==> Bit(b, k)
    ensures a == b
  {
    forall k: nat
      ensures Bit(a, k) <==> Bit(b, k)
    {
      if k >= n {
        HighBitClear(a, n, k);
        HighBitClear(b, n, k);
      }
    }
    Extensional(a, b);
  }

  /** `|` keeps a value within `n` bits. */
  lemma {:induction false} BitOrBelow(a: nat, b: nat, n: nat)
    requires a < Pow2(n) && b < Pow2(n)
    ensures BitOr(a, b) < Pow2(n)
  {
    if a != 0 && b != 0 {
      BitOrBelow(a / 2, b / 2, n - 1);
    }
  }

  /** Masking with `2^n - 1` keeps the low `n` bits: the remainder modulo `2^n`. */
  lemma {:induction false} BitAndLowOnes(a: nat, n: nat)
    ensures BitAnd(a, Pow2(n) - 1) == a % Pow2(n)
  {
    if n == 0 {
      assert BitAnd(a, 0) == 0;
    } else if a != 0 {
      var p := Pow2(n - 1);
      assert Pow2(n) == 2 * p;
      BitAndLowOnes(a / 2, n - 1);
      BitAndDoubleMask(a, p);
    }
  }

  /** One step of `BitAndLowOnes`: from the mask `p - 1` on `a / 2` to the mask `2p - 1` on `a`. */
  lemma BitAndDoubleMask(a: nat, p: nat)
    requires a != 0 && p >= 1
    requires BitAnd(a / 2, p - 1) == (a / 2) % p
    ensures BitAnd(a, 2 * p - 1) == a % (2 * p)
  {
    var m := 2 * p - 1;
    DivModUnique(m, 2, p - 1, 1);
    BitAndLowStep(a, m);
    ModOfDouble(a, p);
  }

  lemma BitAndLowStep(a: nat, m: nat)
    requires a != 0 && m % 2 == 1
    ensures BitAnd(a, m) == 2 * BitAnd(a / 2, m / 2) + a % 2
  {
  }

  lemma ModOfDouble(a: nat, p: nat)
    requires p >= 1
    ensures a % (2 * p) == 2 * ((a / 2) % p) + a % 2
  {
    var q, r0 := a / 2, a % 2;
    var s, t := q / p, q % p;
    assert a == 2 * p * s + (2 * t + r0);
    DivModUnique(a, 2 * p, s, 2 * t + r0);
  }

  lemma DivOfDouble(a: nat, p: nat)
    requires p >= 1
    ensures a / (2 * p) == (a / 2) / p
  {
    var q, r0 := a / 2, a % 2;
    var s, t := q / p, q % p;
    assert a == 2 * p * s + (2 * t + r0);
    DivModUnique(a, 2 * p, s, 2 * t + r0);
  }

  /** The remainder modulo `2^n` keeps exactly the bits below `n`. */
  lemma {:induction false} BitMod(x: nat, n: nat, j: nat)
    ensures Bit(x % Pow2(n), j) <==> j < n && Bit(x, j)
  {
    if n == 0 {
      NoBitOfZero(j);
    } else {
      var p := Pow2(n - 1);
      ModOfDouble(x, p);
      var y := x % Pow2(n);
      assert y == 2 * ((x / 2) % p) + x % 2;
      assert y / 2 == (x / 2) % p && y % 2 == x % 2;
      if j > 0 {
        BitMod(x / 2, n - 1, j - 1);
      }
    }
  }

  /** Dividing by `2^n` shifts bit `n + j` down to bit `j`. */
  lemma {:induction false} BitDiv(x: nat, n: nat, j: nat)
    ensures var q: int := x / Pow2(n); 0 <= q && (Bit(q, j) <==> Bit(x, n + j))
  {
    var d := Pow2(n);
    if x / d < 0 {
      MulAtLeast(d, -(x / d));
    }
    if n > 0 {
      DivOfDouble(x, Pow2(n - 1));
      BitDiv(x / 2, n - 1, j);
    }
  }

  lemma Pow2Strict(m: nat, n: nat)
    requires m < n
    ensures Pow2(m) < Pow2(n)
  {
    Pow2Monotone(m + 1, n);
  }

  /** Quotient and remainder are determined by `a == d * q + r` with `0 <= r < d`. */
  lemma DivModUnique(a: int, d: int, q: int, r: int)
    requires d > 0 && a == d * q + r && 0 <= r < d
    ensures a / d == q && a % d == r
  {
    var q', r' := a / d, a % d;
    assert d * (q' - q) == r - r';
    if q' > q {
      MulAtLeast(d, q' - q);
    } else if q' < q {
      MulAtLeast(d, q - q');
    }
  }

  lemma {:induction false} MulAtLeast(d: nat, k: int)
    requires k >= 1
    ensures d * k >= d
  {
    if k > 1 {
      MulAtLeast(d, k - 1);
      assert d * k == d * (k - 1) + d;
    }
  }

  // ---------------------------------------------------------- algebra

  /** `Covers` is the subset relation on bits. */
  lemma CoversBits(sup: nat, sub: nat)
    ensures Covers(sup, sub) <==> BitsIncluded(sub, sup)
  {
    if Covers(sup, sub) {
      forall k: nat | Bit(sub, k)
        ensures Bit(sup, k)
      {
        BitAndBit(sup, sub, k);
      }
    } else if BitsIncluded(sub, sup) {
      forall k: nat
        ensures Bit(BitAnd(sup, sub), k) <==> Bit(sub, k)
      {
        BitAndBit(sup, sub, k);
      }
      Extensional(BitAnd(sup, sub), sub);
    }
  }

  /** `((sup & sub) ^ sub) == 0` says the same as `Covers(sup, sub)`. */
  lemma XorZeroCovers(sup: nat, sub: nat)
    ensures BitXor(BitAnd(sup, sub), sub) == 0 <==> Covers(sup, sub)
  {
    var m := BitAnd(sup, sub);
    var d := BitXor(m, sub);
    if d == 0 {
      forall k: nat
        ensures Bit(m, k) <==> Bit(sub, k)
      {
        BitXorBit(m, sub, k);
        NoBitOfZero(k);
      }
      Extensional(m, sub);
    }
    if Covers(sup, sub) {
      forall k: nat
        ensures !Bit(d, k)
      {
        BitXorBit(m, sub, k);
      }
      NoBitsZero(d);
    }
  }

  lemma CoversReflexive(a: nat)
    ensures Covers(a, a)
  {
    CoversBits(a, a);
  }

  lemma CoversTransitive(a: nat, b: nat, c: nat)
    requires Covers(a, b) && Covers(b, c)
    ensures Covers(a, c)
  {
    CoversBits(a, b);
    CoversBits(b, c);
    CoversBits(a, c);
  }

  /** `a | b` covers both operands. */
  lemma OrCovers(a: nat, b: nat)
    ensures Covers(BitOr(a, b), a) && Covers(BitOr(a, b), b)
  {
    var c := BitOr(a, b);
    forall k: nat
      ensures (Bit(a, k) ==> Bit(c, k)) && (Bit(b, k) ==> Bit(c, k))
    {
      BitOrBit(a, b, k);
    }
    CoversBits(c, a);
    CoversBits(c, b);
  }

  /** `a | b` is covered by everything that covers both operands. */
  lemma OrLeast(a: nat, b: nat, c: nat)
    requires Covers(c, a) && Covers(c, b)
    ensures Covers(c, BitOr(a, b))
  {
    CoversBits(c, a);
    CoversBits(c, b);
    forall k: nat | Bit(BitOr(a, b), k)
      ensures Bit(c, k)
    {
      BitOrBit(a, b, k);
    }
    CoversBits(c, BitOr(a, b));
  }

  lemma OrCommutative(a: nat, b: nat)
    ensures BitOr(a, b) == BitOr(b, a)
  {
    forall k: nat
      ensures Bit(BitOr(a, b), k) <==> Bit(BitOr(b, a), k)
    {
      BitOrBit(a, b, k);
      BitOrBit(b, a, k);
    }
    Extensional(BitOr(a, b), BitOr(b, a));
  }

  lemma OrAssociative(a: nat, b: nat, c: nat)
    ensures BitOr(BitOr(a, b), c) == BitOr(a, BitOr(b, c))
  {
    forall k: nat
      ensures Bit(BitOr(BitOr(a, b), c), k) <==> Bit(BitOr(a, BitOr(b, c)), k)
    {
      BitOrBit(BitOr(a, b), c, k);
      BitOrBit(a, b, k);
      BitOrBit(a, BitOr(b, c), k);
      BitOrBit(b, c, k);
    }
    Extensional(BitOr(BitOr(a, b), c), BitOr(a, BitOr(b, c)));
  }

  lemma {:induction false} AndIdempotent(a: nat)
    ensures BitAnd(a, a) == a
  {
    if a != 0 {
      AndIdempotent(a / 2);
    }
  }

  lemma OrIdempotent(a: nat)
    ensures BitOr(a, a) == a
  {
    forall k: nat
      ensures Bit(BitOr(a, a), k) <==> Bit(a, k)
    {
      BitOrBit(a, a, k);
    }
    Extensional(BitOr(a, a), a);
  }

  /** At most `n` distinct values are hit by `f` on `0..n-1`. */
  lemma {:induction false} ImageCardinality(f: nat -> nat, n: nat)
    ensures |set i: nat | i < n :: f(i)| <= n
  {
    if n > 0 {
      ImageCardinality(f, n - 1);
      var smaller := set i: nat | i < n - 1 :: f(i);
      assert (set i: nat | i < n :: f(i)) == smaller + {f(n - 1)};
    }
  }
}

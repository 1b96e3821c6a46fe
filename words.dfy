/**
 * The contents of a multi-word Bloom filter (`int[] filter`) as a sequence of
 * words. Bit position `p` of the filter is bit `p % 32` of word `p / 32`.
 */
module Words {
  import opened Bits
  import opened JavaLang

  /** `n` words with every bit clear (a freshly allocated `int[n]`). */
  function Zeros(n: nat): (w: seq<Word>)
    ensures |w| == n
    ensures forall i | 0 <= i < n :: w[i] == 0
  {
    seq(n, _ => 0)
  }

  /** Is bit position `p` set in `w`? Positions beyond the last word are clear. */
  predicate BitAt(w: seq<Word>, p: nat)
  {
    p / 32 < |w| && Bit(w[p / 32], p % 32)
  }

  /** All positions that are set. */
  function PositionsOf(w: seq<Word>): set<nat>
  {
    set p: nat | p < 32 * |w| && BitAt(w, p)
  }

  /** `1 << b` for `0 <= b < 32`, read unsigned. */
  function Mask(b: nat): (m: Word)
    requires b < 32
    ensures forall k: nat :: Bit(m, k) <==> k == b
  {
    Pow2Monotone(b + 1, 32);
    Pow2ThirtyTwo();
    forall k: nat
      ensures Bit(Pow2(b), k) <==> k == b
    {
      Pow2Bit(b, k);
    }
    Pow2(b)
  }

  /** `a | b` on two words. */
  function WordOr(a: Word, b: Word): (r: Word)
    ensures forall k: nat :: Bit(r, k) <==> Bit(a, k) || Bit(b, k)
  {
    Pow2ThirtyTwo();
    BitOrBelow(a, b, 32);
    forall k: nat
      ensures Bit(BitOr(a, b), k) <==> Bit(a, k) || Bit(b, k)
    {
      BitOrBit(a, b, k);
    }
    BitOr(a, b)
  }

  /** `w[p / 32] |= 1 << (p % 32)`. */
  function SetBit(w: seq<Word>, p: nat): (r: seq<Word>)
    requires p / 32 < |w|
    ensures |r| == |w|
  {
    w[p / 32 := WordOr(w[p / 32], Mask(p % 32))]
  }

  /** Word-wise OR of two filters of the same length. */
  function Or(a: seq<Word>, b: seq<Word>): (r: seq<Word>)
    requires |a| == |b|
    ensures |r| == |a|
  {
    seq(|a|, i requires 0 <= i < |a| => WordOr(a[i], b[i]))
  }

  /** `a` contains `b`: every word satisfies `(a[i] & b[i]) == b[i]`. */
  predicate Contains(a: seq<Word>, b: seq<Word>)
  {
    |a| == |b| && forall i | 0 <= i < |a| :: Covers(a[i], b[i])
  }

  /** Every position set in `b` is set in `a`. */
  ghost predicate PositionsIncluded(b: seq<Word>, a: seq<Word>)
  {
    forall p: nat :: BitAt(b, p) ==> BitAt(a, p)
  }

  lemma ZerosHaveNoBits(n: nat, p: nat)
    ensures !BitAt(Zeros(n), p)
  {
    NoBitOfZero(p % 32);
  }

  /** Setting position `p` turns on `p` and leaves every other position as it was. */
  lemma SetBitAt(w: seq<Word>, p: nat, q: nat)
    requires p / 32 < |w|
    ensures BitAt(SetBit(w, p), q) <==> q == p || BitAt(w, q)
  {
    if q / 32 == p / 32 {
      assert q % 32 == p % 32 <==> q == p;
    }
  }

  /** `(w & (1 << b)) != 0` tests bit `b` of `w`. */
  lemma MaskTest(w: Word, b: nat)
    requires b < 32
    ensures BitAnd(w, Mask(b)) != 0 <==> Bit(w, b)
  {
    var m := BitAnd(w, Mask(b));
    forall k: nat
      ensures Bit(m, k) <==> Bit(w, k) && k == b
    {
      BitAndBit(w, Mask(b), k);
    }
    if Bit(w, b) {
      NoBitOfZero(b);
    } else {
      NoBitsZero(m);
    }
  }

  /** A position of `a | b` is set iff it is set in `a` or in `b`. */
  lemma OrAt(a: seq<Word>, b: seq<Word>, p: nat)
    requires |a| == |b|
    ensures BitAt(Or(a, b), p) <==> BitAt(a, p) || BitAt(b, p)
  {
  }

  lemma PositionOf(i: nat, k: nat)
    requires k < 32
    ensures (32 * i + k) / 32 == i && (32 * i + k) % 32 == k
  {
  }

  /** Two filters of the same length with the same positions set are equal. */
  lemma SameBits(a: seq<Word>, b: seq<Word>)
    requires |a| == |b|
    requires PositionsIncluded(a, b) && PositionsIncluded(b, a)
    ensures a == b
  {
    Pow2ThirtyTwo();
    forall i | 0 <= i < |a|
      ensures a[i] == b[i]
    {
      forall k: nat | k < 32
        ensures Bit(a[i], k) <==> Bit(b[i], k)
      {
        PositionOf(i, k);
        assert BitAt(a, 32 * i + k) <==> BitAt(b, 32 * i + k);
      }
      ExtensionalBelow(a[i], b[i], 32);
    }
  }

  /** `Contains` is the subset relation on the positions that are set. */
  lemma ContainsBits(a: seq<Word>, b: seq<Word>)
    requires |a| == |b|
    ensures Contains(a, b) <==> PositionsIncluded(b, a)
  {
    if Contains(a, b) {
      forall p: nat | BitAt(b, p)
        ensures BitAt(a, p)
      {
        CoversBits(a[p / 32], b[p / 32]);
      }
    } else if PositionsIncluded(b, a) {
      forall i | 0 <= i < |a|
        ensures Covers(a[i], b[i])
      {
        WordCovered(a, b, i);
      }
    }
  }

  lemma WordCovered(a: seq<Word>, b: seq<Word>, i: nat)
    requires |a| == |b| && i < |a|
    requires PositionsIncluded(b, a)
    ensures Covers(a[i], b[i])
  {
    Pow2ThirtyTwo();
    forall k: nat | Bit(b[i], k)
      ensures Bit(a[i], k)
    {
      if k < 32 {
        PositionOf(i, k);
        assert BitAt(b, 32 * i + k);
      } else {
        HighBitClear(b[i], 32, k);
      }
    }
    CoversBits(a[i], b[i]);
  }

  lemma ContainsReflexive(a: seq<Word>)
    ensures Contains(a, a)
  {
    forall i | 0 <= i < |a|
      ensures Covers(a[i], a[i])
    {
      CoversReflexive(a[i]);
    }
  }

  lemma ContainsTransitive(a: seq<Word>, b: seq<Word>, c: seq<Word>)
    requires Contains(a, b) && Contains(b, c)
    ensures Contains(a, c)
  {
    forall i | 0 <= i < |a|
      ensures Covers(a[i], c[i])
    {
      CoversTransitive(a[i], b[i], c[i]);
    }
  }

  lemma ContainsAntisymmetric(a: seq<Word>, b: seq<Word>)
    requires Contains(a, b) && Contains(b, a)
    ensures a == b
  {
    ContainsBits(a, b);
    ContainsBits(b, a);
    SameBits(a, b);
  }

  /** Every filter contains the empty filter of its length. */
  lemma ContainsZeros(a: seq<Word>)
    ensures Contains(a, Zeros(|a|))
  {
  }

  /** The union contains both operands. */
  lemma OrContains(a: seq<Word>, b: seq<Word>)
    requires |a| == |b|
    ensures Contains(Or(a, b), a) && Contains(Or(a, b), b)
  {
    forall i | 0 <= i < |a|
      ensures Covers(Or(a, b)[i], a[i]) && Covers(Or(a, b)[i], b[i])
    {
      OrCovers(a[i], b[i]);
    }
  }

  /** The union is contained in every filter that contains both operands. */
  lemma OrLeast(a: seq<Word>, b: seq<Word>, c: seq<Word>)
    requires Contains(c, a) && Contains(c, b)
    ensures Contains(c, Or(a, b))
  {
    forall i | 0 <= i < |a|
      ensures Covers(c[i], Or(a, b)[i])
    {
      Bits.OrLeast(a[i], b[i], c[i]);
    }
  }

  lemma OrCommutative(a: seq<Word>, b: seq<Word>)
    requires |a| == |b|
    ensures Or(a, b) == Or(b, a)
  {
    forall i | 0 <= i < |a|
      ensures Or(a, b)[i] == Or(b, a)[i]
    {
      Bits.OrCommutative(a[i], b[i]);
    }
  }

  lemma OrAssociative(a: seq<Word>, b: seq<Word>, c: seq<Word>)
    requires |a| == |b| == |c|
    ensures Or(Or(a, b), c) == Or(a, Or(b, c))
  {
    forall i | 0 <= i < |a|
      ensures Or(Or(a, b), c)[i] == Or(a, Or(b, c))[i]
    {
      Bits.OrAssociative(a[i], b[i], c[i]);
    }
  }

  lemma OrIdempotent(a: seq<Word>)
    ensures Or(a, a) == a
  {
    forall i | 0 <= i < |a|
      ensures Or(a, a)[i] == a[i]
    {
      Bits.OrIdempotent(a[i]);
    }
  }

  lemma OrZeros(a: seq<Word>)
    ensures Or(a, Zeros(|a|)) == a
  {
  }
}

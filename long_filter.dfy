/**
 * `Bloom64`: a Bloom filter held in one `long`. The element's int hash is cut
 * into `k` fields of 6 bits, `(hash >> 6*i) & 63`, and each field sets one bit
 * of the filter with `1L << field`. Filters are modelled by their unsigned
 * 64-bit pattern.
 *
 * `Bloom64` repeats `Bloom32` with 6-bit fields and a 64-bit filter, and this
 * module mirrors `IntFilter` member for member with those widths written as
 * literals: the solver handles literal powers of two far better than a width
 * parameter.
 */
module LongFilter {
  import opened Bits
  import opened JavaLang
  import opened Encoding

  /** `1L << b` for `0 <= b < 64`, read unsigned. */
  function LongMask(b: nat): (m: LongWord)
    requires b < 64
    ensures forall k: nat :: Bit(m, k) <==> k == b
  {
    Pow2Monotone(b + 1, 64);
    Pow2SixtyFour();
    forall k: nat
      ensures Bit(Pow2(b), k) <==> k == b
    {
      Pow2Bit(b, k);
    }
    Pow2(b)
  }

  /** `a | b` on two longs. */
  function LongOr(a: LongWord, b: LongWord): (r: LongWord)
    ensures forall k: nat :: Bit(r, k) <==> Bit(a, k) || Bit(b, k)
  {
    Pow2SixtyFour();
    BitOrBelow(a, b, 64);
    forall k: nat
      ensures Bit(BitOr(a, b), k) <==> Bit(a, k) || Bit(b, k)
    {
      BitOrBit(a, b, k);
    }
    BitOr(a, b)
  }

  const HASH_LENGTH: nat := 6
  const HASH_FILTER: Int := 63

  /** Field `i` of the hash: the low 6 bits after `i` arithmetic shifts right by 6 (division rounding down). */
  function Field(h: int, i: nat): (f: nat)
    ensures f < 64
    decreases i
  {
    if i == 0 then h % 64 else Field(h / 64, i - 1)
  }

  /** The values of the first `k` fields. */
  function Fields(h: int, k: nat): set<nat>
  {
    set i: nat | i < k :: Field(h, i)
  }

  /** The filter of the first `k` fields of `h`. */
  function HashFilter(h: int, k: nat): LongWord
    decreases k
  {
    if k == 0 then 0 else LongOr(LongMask(h % 64), HashFilter(h / 64, k - 1))
  }

  /** Bit `p` of the filter is set iff `p` is one of the first `k` fields of the hash. */
  lemma {:induction false} HashFilterBits(h: int, k: nat, p: nat)
    ensures Bit(HashFilter(h, k), p) <==> exists i :: 0 <= i < k && Field(h, i) == p
    decreases k
  {
    if k == 0 {
      NoBitOfZero(p);
    } else {
      HashFilterBits(h / 64, k - 1, p);
      var m, rest := LongMask(h % 64), HashFilter(h / 64, k - 1);
      assert Bit(HashFilter(h, k), p) <==> Bit(m, p) || Bit(rest, p);
      assert Bit(m, p) <==> p == Field(h, 0);
      if Bit(m, p) {
        assert 0 <= 0 < k && Field(h, 0) == p;
        assert exists i :: 0 <= i < k && Field(h, i) == p;
      } else if Bit(rest, p) {
        var i :| 0 <= i < k - 1 && Field(h / 64, i) == p;
        assert 0 <= i + 1 < k && Field(h, i + 1) == p;
        assert exists i :: 0 <= i < k && Field(h, i) == p;
      } else {
        forall i | 0 <= i < k
          ensures Field(h, i) != p
        {
          if i > 0 {
            assert Field(h, i) == Field(h / 64, i - 1);
            assert !(0 <= i - 1 < k - 1 && Field(h / 64, i - 1) == p);
          }
        }
      }
    }
  }

  /** The bits set are the `k` fields, so at most `k` bits are set. */
  lemma HashFilterCount(h: int, k: nat)
    ensures BitsOf(HashFilter(h, k), 64) == Fields(h, k)
    ensures |BitsOf(HashFilter(h, k), 64)| <= k
  {
    var bits, fields := BitsOf(HashFilter(h, k), 64), Fields(h, k);
    forall p | p in bits
      ensures p in fields
    {
      HashFilterBits(h, k, p);
      var i :| 0 <= i < k && Field(h, i) == p;
    }
    forall p | p in fields
      ensures p in bits
    {
      var i: nat :| i < k && Field(h, i) == p;
      assert exists j :: 0 <= j < k && Field(h, j) == p;
      HashFilterBits(h, k, p);
    }
    var field: nat -> nat := i => Field(h, i);
    ImageCardinality(field, k);
    var image := set i: nat | i < k :: field(i);
    forall p | p in fields
      ensures p in image
    {
      var i: nat :| i < k && Field(h, i) == p;
      assert field(i) == p;
    }
    forall p | p in image
      ensures p in fields
    {
      var i: nat :| i < k && field(i) == p;
      assert Field(h, i) == p;
    }
    assert fields == image;
    assert bits == fields;
  }

  /** With at least one field the filter is not 0. */
  lemma HashFilterNonzero(h: int, k: nat)
    requires k >= 1
    ensures HashFilter(h, k) != 0
  {
    HashFilterBits(h, k, Field(h, 0));
    NoBitOfZero(Field(h, 0));
  }

  /** Adding a multiple of `2^(6n)` changes none of the fields `0..n-1`. */
  lemma {:induction false} FieldShift(h: int, m: int, n: nat, i: nat)
    requires i < n
    ensures Field(h + m * Pow2(6 * n), i) == Field(h, i)
    decreases i
  {
    var q := Pow2(6 * (n - 1));
    Pow2Add(6, 6 * (n - 1));
    Pow2Five();
    assert Pow2(6 * n) == 64 * q;
    assert h + m * Pow2(6 * n) == 64 * (h / 64 + m * q) + h % 64;
    DivModUnique(h + m * Pow2(6 * n), 64, h / 64 + m * q, h % 64);
    if i > 0 {
      FieldShift(h / 64, m, n - 1, i - 1);
    }
  }

  /** Bit `j` of field `i` of a natural number is its bit `6i + j`. */
  lemma {:induction false} FieldBits(x: nat, i: nat, j: nat)
    requires j < 6
    ensures Bit(Field(x, i), j) <==> Bit(x, 6 * i + j)
    decreases i
  {
    Pow2Five();
    if i == 0 {
      BitMod(x, 6, j);
    } else {
      FieldBits(x / 64, i - 1, j);
      BitDiv(x, 6, 6 * (i - 1) + j);
    }
  }

  /**
   * For `k <= 5` the fields are bits `6i .. 6i+5` of the hash's 32-bit pattern:
   * the arithmetic shift brings no copy of the sign bit into them.
   */
  lemma FieldIsHashBits(h: Int, i: nat, j: nat)
    requires i < 5 && j < 6
    ensures Bit(Field(h, i), j) <==> Bit(Unsigned(h), 6 * i + j)
  {
    if h < 0 {
      Pow2Add(30, 2);
      Pow2ThirtyTwo();
      assert Pow2(6 * 5) * 4 == TWO_32;
      FieldShift(h, 4, 5, i);
    }
    FieldBits(Unsigned(h), i, j);
  }

  /** `hash & HASH_FILTER` is the first field. */
  lemma AndLowBits(h: Int)
    ensures And(h, HASH_FILTER) == Field(h, 0)
  {
    var u := Unsigned(h);
    assert Pow2(6) == 64;
    BitAndLowOnes(u, 6);
    if h < 0 {
      DivModUnique(u, 64, h / 64 + 0x400_0000, h % 64);
    }
  }

  /** The bit patterns `sup` and `sub` satisfy `((sup & sub) ^ sub) == 0`: every bit of `sub` is in `sup`. */
  function IsContained(sup: LongWord, sub: LongWord): (r: bool)
    ensures r <==> Covers(sup, sub)
  {
    XorZeroCovers(sup, sub);
    BitXor(BitAnd(sup, sub), sub) == 0
  }

  /** Containment is reflexive and transitive, and every filter contains 0. */
  lemma IsContainedOrder(a: LongWord, b: LongWord, c: LongWord)
    ensures IsContained(a, a) && IsContained(a, 0)
    ensures IsContained(a, b) && IsContained(b, c) ==> IsContained(a, c)
  {
    CoversReflexive(a);
    if IsContained(a, b) && IsContained(b, c) {
      CoversTransitive(a, b, c);
    }
  }

  /** `toBinaryStringZeroFill(i)`: the 64 binary digits of the long, most significant first. */
  method ToBinaryStringZeroFill(i: LongWord) returns (s: string)
    ensures s == Digits(i, 64) && FromDigits(s) == i
  {
    s := ZeroFill(i, 64);
    Pow2SixtyFour();
    DigitsRoundTrip(i, 64);
  }

  /**
   * Positions 32 to 63 are reachable: a hash whose first field is 32 or more
   * gives a filter that does not fit in 32 bits.
   */
  lemma HighBitReachable(h: int, k: nat)
    requires 1 <= k && 32 <= h % 64
    ensures HashFilter(h, k) >= TWO_32
  {
    HashFilterBits(h, k, Field(h, 0));
    assert exists i :: 0 <= i < k && Field(h, i) == Field(h, 0);
    Pow2ThirtyTwo();
    if HashFilter(h, k) < TWO_32 {
      HighBitClear(HashFilter(h, k), 32, Field(h, 0));
    }
  }

  /** A generator of 64-bit filters: `k` fields of one hash function. */
  datatype Bloom64<!E> = Bloom64(k: Int, hashFunction: E -> Int)
  {
    /** `1 <= k <= Integer.SIZE / HASH_LENGTH`. */
    predicate Valid()
    {
      1 <= k <= 32 / HASH_LENGTH
    }

    /** `new Bloom64(k, hashFunction)`: rejects `k` outside `1..5`. */
    static function New(k: Int, hashFunction: E -> Int): (r: Result<Bloom64<E>>)
      ensures r.Success? <==> 1 <= k <= 5
      ensures r.Success? ==> r.value.Valid() && r.value.k == k && r.value.hashFunction == hashFunction
      ensures r.Failure? ==> r.error == IllegalArgument
    {
      if !(1 <= k <= 32 / HASH_LENGTH) then Failure(IllegalArgument) else Success(Bloom64(k, hashFunction))
    }

    /** The filter of one element. */
    function Filter(element: E): LongWord
      requires Valid()
    {
      HashFilter(hashFunction(element), k)
    }

    /** `getFilter(element)`: sets bit `hash & 63` of the long and shifts the hash right by 6, `k` times. */
    method GetFilter(element: E) returns (ret: LongWord)
      requires Valid()
      ensures ret == Filter(element)
    {
      ret := 0;
      var hash := hashFunction(element);
      for i := 0 to k
        invariant BitOr(ret, HashFilter(hash, k - i)) == Filter(element)
      {
        AndLowBits(hash);
        var b := And(hash, HASH_FILTER);
        ghost var rest := HashFilter(hash / 64, k - i - 1);
        assert HashFilter(hash, k - i) == BitOr(LongMask(b), rest);
        Bits.OrAssociative(ret, LongMask(b), rest);
        ret := LongOr(ret, LongMask(b));
        hash := hash / 64;
      }
    }

    /** `getFilter(collection)`: the OR of the element filters, starting from 0. */
    function FilterAll(objects: seq<E>): LongWord
      requires Valid()
    {
      if |objects| == 0 then 0 else LongOr(FilterAll(objects[..|objects| - 1]), Filter(objects[|objects| - 1]))
    }

    /** A bit of the collection's filter is set iff it is set in the filter of one of its elements. */
    lemma {:induction false} FilterAllBits(objects: seq<E>, p: nat)
      requires Valid()
      ensures Bit(FilterAll(objects), p) <==> exists o :: o in objects && Bit(Filter(o), p)
    {
      if |objects| == 0 {
        NoBitOfZero(p);
      } else {
        var init, last := objects[..|objects| - 1], objects[|objects| - 1];
        FilterAllBits(init, p);
        assert objects == init + [last];
        if exists o :: o in objects && Bit(Filter(o), p) {
          var o :| o in objects && Bit(Filter(o), p);
          if o != last {
            assert o in init;
          }
        }
      }
    }

    /** No false negatives: the collection's filter contains the filter of each element. */
    lemma NoFalseNegatives(objects: seq<E>, o: E)
      requires Valid() && o in objects
      ensures IsContained(FilterAll(objects), Filter(o))
    {
      forall p: nat | Bit(Filter(o), p)
        ensures Bit(FilterAll(objects), p)
      {
        FilterAllBits(objects, p);
      }
      CoversBits(FilterAll(objects), Filter(o));
    }

    /** The collection's filter depends only on which elements it holds, not on order or duplicates. */
    lemma FilterAllSetOnly(objects: seq<E>, others: seq<E>)
      requires Valid()
      requires forall o :: o in objects <==> o in others
      ensures FilterAll(objects) == FilterAll(others)
    {
      forall p: nat
        ensures Bit(FilterAll(objects), p) <==> Bit(FilterAll(others), p)
      {
        FilterAllBits(objects, p);
        FilterAllBits(others, p);
      }
      Extensional(FilterAll(objects), FilterAll(others));
    }
  }
}

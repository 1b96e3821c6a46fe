/**
 * `Bloom32`: a Bloom filter held in one `int`. The element's int hash is cut
 * into `k` fields of 5 bits, `(hash >> 5*i) & 31`, and each field sets one bit
 * of the filter. Filters are modelled by their unsigned 32-bit pattern.
 */
module IntFilter {
  import opened Bits
  import opened JavaLang
  import opened Words
  import opened Encoding

  const HASH_LENGTH: nat := 5
  const HASH_FILTER: Int := 31

  /** Field `i` of the hash: the low 5 bits after `i` arithmetic shifts right by 5 (division rounding down). */
  function Field(h: int, i: nat): (f: nat)
    ensures f < 32
    decreases i
  {
    if i == 0 then h % 32 else Field(h / 32, i - 1)
  }

  /** The values of the first `k` fields. */
  function Fields(h: int, k: nat): set<nat>
  {
    set i: nat | i < k :: Field(h, i)
  }

  /** The filter of the first `k` fields of `h`. */
  function HashFilter(h: int, k: nat): Word
    decreases k
  {
    if k == 0 then 0 else WordOr(Mask(h % 32), HashFilter(h / 32, k - 1))
  }

  /** Bit `p` of the filter is set iff `p` is one of the first `k` fields of the hash. */
  lemma {:induction false} HashFilterBits(h: int, k: nat, p: nat)
    ensures Bit(HashFilter(h, k), p) <==> exists i :: 0 <= i < k && Field(h, i) == p
    decreases k
  {
    if k == 0 {
      NoBitOfZero(p);
    } else {
      HashFilterBits(h / 32, k - 1, p);
      var m, rest := Mask(h % 32), HashFilter(h / 32, k - 1);
      assert Bit(HashFilter(h, k), p) <==> Bit(m, p) || Bit(rest, p);
      assert Bit(m, p) <==> p == Field(h, 0);
      if Bit(m, p) {
        assert 0 <= 0 < k && Field(h, 0) == p;
        assert exists i :: 0 <= i < k && Field(h, i) == p;
      } else if Bit(rest, p) {
        var i :| 0 <= i < k - 1 && Field(h / 32, i) == p;
        assert 0 <= i + 1 < k && Field(h, i + 1) == p;
        assert exists i :: 0 <= i < k && Field(h, i) == p;
      } else {
        forall i | 0 <= i < k
          ensures Field(h, i) != p
        {
          if i > 0 {
            assert Field(h, i) == Field(h / 32, i - 1);
            assert !(0 <= i - 1 < k - 1 && Field(h / 32, i - 1) == p);
          }
        }
      }
    }
  }

  /** The bits set are the `k` fields, so at most `k` bits are set. */
  lemma HashFilterCount(h: int, k: nat)
    ensures BitsOf(HashFilter(h, k), 32) == Fields(h, k)
    ensures |BitsOf(HashFilter(h, k), 32)| <= k
  {
    var bits, fields := BitsOf(HashFilter(h, k), 32), Fields(h, k);
    forall p | p in bits
      ensures p in fields
    {
      HashFilterBits(h, k, p);
      var i :| 0 <= i < k && Field(h, i) == p;
    }
    forall p | p in fields
      ensures p in bits
    {
      var i: nat :| i < k && Field(h, i) == p;
      assert exists j :: 0 <= j < k && Field(h, j) == p;
      HashFilterBits(h, k, p);
    }
    var field: nat -> nat := i => Field(h, i);
    ImageCardinality(field, k);
    var image := set i: nat | i < k :: field(i);
    forall p | p in fields
      ensures p in image
    {
      var i: nat :| i < k && Field(h, i) == p;
      assert field(i) == p;
    }
    forall p | p in image
      ensures p in fields
    {
      var i: nat :| i < k && field(i) == p;
      assert Field(h, i) == p;
    }
    assert fields == image;
    assert bits == fields;
  }

  /** With at least one field the filter is not 0. */
  lemma HashFilterNonzero(h: int, k: nat)
    requires k >= 1
    ensures HashFilter(h, k) != 0
  {
    HashFilterBits(h, k, Field(h, 0));
    NoBitOfZero(Field(h, 0));
  }

  /** Adding a multiple of `2^(5n)` changes none of the fields `0..n-1`. */
  lemma {:induction false} FieldShift(h: int, m: int, n: nat, i: nat)
    requires i < n
    ensures Field(h + m * Pow2(5 * n), i) == Field(h, i)
    decreases i
  {
    var q := Pow2(5 * (n - 1));
    Pow2Add(5, 5 * (n - 1));
    Pow2Five();
    assert Pow2(5 * n) == 32 * q;
    assert h + m * Pow2(5 * n) == 32 * (h / 32 + m * q) + h % 32;
    DivModUnique(h + m * Pow2(5 * n), 32, h / 32 + m * q, h % 32);
    if i > 0 {
      FieldShift(h / 32, m, n - 1, i - 1);
    }
  }

  /** Bit `j` of field `i` of a natural number is its bit `5i + j`. */
  lemma {:induction false} FieldBits(x: nat, i: nat, j: nat)
    requires j < 5
    ensures Bit(Field(x, i), j) <==> Bit(x, 5 * i + j)
    decreases i
  {
    Pow2Five();
    if i == 0 {
      BitMod(x, 5, j);
    } else {
      FieldBits(x / 32, i - 1, j);
      BitDiv(x, 5, 5 * (i - 1) + j);
    }
  }

  /**
   * For `k <= 6` the fields are bits `5i .. 5i+4` of the hash's 32-bit pattern:
   * the arithmetic shift brings no copy of the sign bit into them.
   */
  lemma FieldIsHashBits(h: Int, i: nat, j: nat)
    requires i < 6 && j < 5
    ensures Bit(Field(h, i), j) <==> Bit(Unsigned(h), 5 * i + j)
  {
    if h < 0 {
      Pow2Add(30, 2);
      Pow2ThirtyTwo();
      assert Pow2(5 * 6) * 4 == TWO_32;
      FieldShift(h, 4, 6, i);
    }
    FieldBits(Unsigned(h), i, j);
  }

  /** `hash & HASH_FILTER` is the first field. */
  lemma AndLowBits(h: Int)
    ensures And(h, HASH_FILTER) == Field(h, 0)
  {
    var u := Unsigned(h);
    assert Pow2(5) == 32;
    BitAndLowOnes(u, 5);
    if h < 0 {
      DivModUnique(u, 32, h / 32 + 0x800_0000, h % 32);
    }
  }

  /** The bit patterns `sup` and `sub` satisfy `((sup & sub) ^ sub) == 0`: every bit of `sub` is in `sup`. */
  function IsContained(sup: Word, sub: Word): (r: bool)
    ensures r <==> Covers(sup, sub)
  {
    XorZeroCovers(sup, sub);
    BitXor(BitAnd(sup, sub), sub) == 0
  }

  /** Containment is reflexive and transitive, and every filter contains 0. */
  lemma IsContainedOrder(a: Word, b: Word, c: Word)
    ensures IsContained(a, a) && IsContained(a, 0)
    ensures IsContained(a, b) && IsContained(b, c) ==> IsContained(a, c)
  {
    CoversReflexive(a);
    if IsContained(a, b) && IsContained(b, c) {
      CoversTransitive(a, b, c);
    }
  }

  /** `toBinaryStringZeroFill(i)`: the 32 binary digits of the int, most significant first. */
  method ToBinaryStringZeroFill(i: Word) returns (s: string)
    ensures s == Digits(i, 32) && FromDigits(s) == i
  {
    s := ZeroFill(i, 32);
    Pow2ThirtyTwo();
    DigitsRoundTrip(i, 32);
  }

  /** A generator of 32-bit filters: `k` fields of one hash function. */
  datatype Bloom32<!E> = Bloom32(k: Int, hashFunction: E -> Int)
  {
    /** `1 <= k <= Integer.SIZE / HASH_LENGTH`. */
    predicate Valid()
    {
      1 <= k <= 32 / HASH_LENGTH
    }

    /** `new Bloom32(k, hashFunction)`: rejects `k` outside `1..6`. */
    static function New(k: Int, hashFunction: E -> Int): (r: Result<Bloom32<E>>)
      ensures r.Success? <==> 1 <= k <= 6
      ensures r.Success? ==> r.value.Valid() && r.value.k == k && r.value.hashFunction == hashFunction
      ensures r.Failure? ==> r.error == IllegalArgument
    {
      if !(1 <= k <= 32 / HASH_LENGTH) then Failure(IllegalArgument) else Success(Bloom32(k, hashFunction))
    }

    /** The filter of one element. */
    function Filter(element: E): Word
      requires Valid()
    {
      HashFilter(hashFunction(element), k)
    }

    /** `getFilter(element)`: sets bit `hash & 31` and shifts the hash right by 5, `k` times. */
    method GetFilter(element: E) returns (ret: Word)
      requires Valid()
      ensures ret == Filter(element)
    {
      ret := 0;
      var hash := hashFunction(element);
      for i := 0 to k
        invariant BitOr(ret, HashFilter(hash, k - i)) == Filter(element)
      {
        AndLowBits(hash);
        var b := And(hash, HASH_FILTER);
        ghost var rest := HashFilter(hash / 32, k - i - 1);
        assert HashFilter(hash, k - i) == BitOr(Mask(b), rest);
        Bits.OrAssociative(ret, Mask(b), rest);
        ret := WordOr(ret, Mask(b));
        hash := hash / 32;
      }
    }

    /** `getFilter(objects...)` and `getFilter(collection)`: the OR of the element filters, starting from 0. */
    function FilterAll(objects: seq<E>): Word
      requires Valid()
    {
      if |objects| == 0 then 0 else WordOr(FilterAll(objects[..|objects| - 1]), Filter(objects[|objects| - 1]))
    }

    /** A bit of the collection's filter is set iff it is set in the filter of one of its elements. */
    lemma {:induction false} FilterAllBits(objects: seq<E>, p: nat)
      requires Valid()
      ensures Bit(FilterAll(objects), p) <==> exists o :: o in objects && Bit(Filter(o), p)
    {
      if |objects| == 0 {
        NoBitOfZero(p);
      } else {
        var init, last := objects[..|objects| - 1], objects[|objects| - 1];
        FilterAllBits(init, p);
        assert objects == init + [last];
        if exists o :: o in objects && Bit(Filter(o), p) {
          var o :| o in objects && Bit(Filter(o), p);
          if o != last {
            assert o in init;
          }
        }
      }
    }

    /** No false negatives: the collection's filter contains the filter of each element. */
    lemma NoFalseNegatives(objects: seq<E>, o: E)
      requires Valid() && o in objects
      ensures IsContained(FilterAll(objects), Filter(o))
    {
      forall p: nat | Bit(Filter(o), p)
        ensures Bit(FilterAll(objects), p)
      {
        FilterAllBits(objects, p);
      }
      CoversBits(FilterAll(objects), Filter(o));
    }

    /** The collection's filter depends only on which elements it holds, not on order or duplicates. */
    lemma FilterAllSetOnly(objects: seq<E>, others: seq<E>)
      requires Valid()
      requires forall o :: o in objects <==> o in others
      ensures FilterAll(objects) == FilterAll(others)
    {
      forall p: nat
        ensures Bit(FilterAll(objects), p) <==> Bit(FilterAll(others), p)
      {
        FilterAllBits(objects, p);
        FilterAllBits(others, p);
      }
      Extensional(FilterAll(objects), FilterAll(others));
    }
  }
}

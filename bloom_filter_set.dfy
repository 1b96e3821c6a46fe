/**
 * `BloomFilterSet`: a set that keeps a Bloom filter of its elements beside the
 * backing set, so that membership and inclusion tests can answer `false`
 * without consulting the set. Elements are added but never removed.
 */
module BloomSets {
  import opened JavaLang
  import opened Words
  import opened BloomSpec
  import opened Bloom

  /**
   * For a config with at least one hash function, the zero filter reports no
   * element present: an element already in a supplied set is then missed.
   */
  lemma ZeroFilterMissesAll<E>(sc: Scheme<E>, t: E)
    requires sc.Valid() && |sc.hashes| >= 1
    ensures !sc.MayContain(Zeros(sc.Words()), t)
  {
    var p := sc.Positions(t)[0];
    ZerosHaveNoBits(sc.Words(), p);
  }

  /**
   * The loop of `addAll`: adds the bits of every element of `c` to `f`, in
   * order, which OR-s the filter of `c` into `f`.
   */
  method AddEach<E>(f: BloomFilter<E>, c: seq<E>)
    requires f.Valid()
    modifies f.filter
    ensures f.filter[..] == Or(old(f.filter[..]), f.config.Spec().CollectionBits(c))
  {
    ghost var sc := f.config.Spec();
    ghost var start := f.filter[..];
    assert c[..0] == [];
    OrZeros(start);
    for i := 0 to |c|
      invariant f.filter[..] == Or(start, sc.CollectionBits(c[..i]))
    {
      f.Add(c[i]);
      OrCollectionStep(sc, start, c, i);
    }
    assert c[..|c|] == c;
  }

  /** Elements that passed `before` still pass once `e`'s bits are set, and so does `e`. */
  lemma AddCovers<E>(sc: Scheme<E>, before: seq<Word>, olds: set<E>, e: E)
    requires sc.Valid() && |before| == sc.Words()
    requires forall t | t in olds :: sc.MayContain(before, t)
    ensures forall t | t in olds + {e} :: sc.MayContain(SetBits(before, sc.Positions(e)), t)
  {
    var ps := sc.Positions(e);
    var after := SetBits(before, ps);
    SetBitsGrows(before, ps);
    forall t | t in olds + {e}
      ensures sc.MayContain(after, t)
    {
      if t in olds {
        MayContainGrows(sc, before, after, t);
      } else {
        forall j | 0 <= j < |ps|
          ensures BitAt(after, ps[j])
        {
          SetBitsAt(before, ps, ps[j]);
        }
      }
    }
  }

  /** Elements that passed `before` pass its union with the filter of `c`, and so do those of `c`. */
  lemma UnionCovers<E>(sc: Scheme<E>, before: seq<Word>, olds: set<E>, c: seq<E>)
    requires sc.Valid() && |before| == sc.Words()
    requires forall t | t in olds :: sc.MayContain(before, t)
    ensures forall t | t in olds + (set u | u in c) :: sc.MayContain(Or(before, sc.CollectionBits(c)), t)
  {
    var bits := sc.CollectionBits(c);
    OrContains(before, bits);
    forall t | t in olds + (set u | u in c)
      ensures sc.MayContain(Or(before, bits), t)
    {
      if t in olds {
        MayContainGrows(sc, before, Or(before, bits), t);
      } else {
        CollectionMayContain(sc, c, t);
        MayContainGrows(sc, bits, Or(before, bits), t);
      }
    }
  }

  /** The elements of `prev + [e]` are those of `prev` and `e`. */
  lemma AddOneElement<E>(olds: set<E>, prev: seq<E>, e: E)
    requires olds == set t | t in prev
    ensures olds + {e} == set t | t in prev + [e]
  {
    forall t
      ensures t in prev + [e] <==> t in prev || t == e
    {
    }
  }

  /** `c` brings a new element iff its elements are not all in `olds`. */
  lemma SomeAbsent<E>(olds: set<E>, c: seq<E>)
    ensures !((set t | t in c) <= olds) <==> exists t :: t in c && t !in olds
  {
    if !((set t | t in c) <= olds) {
      var t :| t in (set t | t in c) && t !in olds;
      assert t in c;
    }
  }

  /** The elements of `prev + c` are those of `prev` and those of `c`. */
  lemma AddedElements<E>(olds: set<E>, prev: seq<E>, c: seq<E>)
    requires olds == set t | t in prev
    ensures olds + (set t | t in c) == set t | t in prev + c
  {
    forall t
      ensures t in prev + c <==> t in prev || t in c
    {
    }
  }

  class BloomFilterSet<E(==)> {
    /** The backing `Set<E>`. */
    var elements: set<E>
    const filter: BloomFilter<E>
    /** The elements in the order their bits were set. */
    ghost var added: seq<E>

    /** The config of the filter, as a value. */
    function Spec(): Scheme<E>
    {
      filter.config.Spec()
    }

    /**
     * The filter is exactly the filter of the elements added so far, and the
     * backing set holds exactly those elements.
     */
    ghost predicate Valid()
      reads this, filter.filter
    {
      filter.Valid() &&
      filter.filter[..] == Spec().CollectionBits(added) &&
      elements == set t | t in added
    }

    /**
     * Every element of the backing set has all its bits set in the filter: the
     * property `contains` and `containsAll` rely on when they answer `false`.
     */
    ghost predicate Covered()
      reads this, filter.filter
    {
      filter.Valid() && forall t | t in elements :: Spec().MayContain(filter.filter[..], t)
    }

    /** A consistent set has no false negatives. */
    lemma NoFalseNegatives()
      requires Valid()
      ensures Covered()
    {
      forall t | t in elements
        ensures Spec().MayContain(filter.filter[..], t)
      {
        CollectionMayContain(Spec(), added, t);
      }
    }

    /**
     * `new BloomFilterSet(config, supplier)`: the backing set is whatever the
     * supplier returns, the filter is empty. The set is consistent with its
     * filter only when the supplied set is empty.
     */
    constructor (config: BloomConfig<E>, supplied: set<E>)
      requires config.Valid()
      ensures elements == supplied && filter.config == config && fresh(filter) && fresh(filter.filter)
      ensures filter.Valid() && filter.filter[..] == Zeros(config.Spec().Words())
      ensures supplied == {} ==> Valid()
      ensures |config.hashes| >= 1 ==> (Valid() <==> supplied == {})
      ensures |config.hashes| >= 1 ==> (Covered() <==> supplied == {})
    {
      var f := config.Empty();
      elements := supplied;
      filter := f;
      added := [];
      new;
      if |config.hashes| >= 1 && supplied != {} {
        var t :| t in supplied;
        ZeroFilterMissesAll(config.Spec(), t);
        if Valid() {
          NoFalseNegatives();
        }
      }
    }

    /** A set over the supplied elements whose filter has every one of them added. */
    constructor FromElements(config: BloomConfig<E>, supplied: seq<E>)
      requires config.Valid()
      ensures elements == set t | t in supplied && filter.config == config
      ensures fresh(filter) && fresh(filter.filter) && Valid()
    {
      var f := config.Empty();
      AddEach(f, supplied);
      OrCommutative(Zeros(config.Spec().Words()), config.Spec().CollectionBits(supplied));
      OrZeros(config.Spec().CollectionBits(supplied));
      elements := set t | t in supplied;
      filter := f;
      added := supplied;
    }

    /**
     * `add(e)`: sets `e`'s bits and adds it to the set; true iff `e` was absent.
     * A set without false negatives keeps that property, a consistent set stays
     * consistent.
     */
    method Add(e: E) returns (r: bool)
      requires filter.Valid()
      modifies this, filter.filter
      ensures filter.Valid()
      ensures elements == old(elements) + {e}
      ensures filter.filter[..] == SetBits(old(filter.filter[..]), Spec().Positions(e))
      ensures r <==> e !in old(elements)
      ensures old(Covered()) ==> Covered()
      ensures old(Valid()) ==> Valid()
    {
      ghost var sc, before, prev, olds := Spec(), filter.filter[..], added, elements;
      filter.Add(e);
      r := e !in elements;
      elements := elements + {e};
      added := added + [e];
      if old(Covered()) {
        AddCovers(sc, before, olds, e);
      }
      if old(Valid()) {
        CollectionBitsAppend(sc, prev, e);
        AddOneElement(olds, prev, e);
      }
    }

    /**
     * `addAll(c)`: adds every element of `c`; true iff the set changed. The
     * filter becomes the union of the old one and the filter of `c`.
     */
    method AddAll(c: seq<E>) returns (r: bool)
      requires filter.Valid()
      modifies this, filter.filter
      ensures filter.Valid()
      ensures elements == old(elements) + set t | t in c
      ensures filter.filter[..] == Or(old(filter.filter[..]), Spec().CollectionBits(c))
      ensures r <==> exists t :: t in c && t !in old(elements)
      ensures old(Covered()) ==> Covered()
      ensures old(Valid()) ==> Valid()
    {
      ghost var sc, before, prev, olds := Spec(), filter.filter[..], added, elements;
      AddEach(filter, c);
      var incoming := set t | t in c;
      r := !(incoming <= elements);
      SomeAbsent(olds, c);
      elements := elements + incoming;
      added := added + c;
      if old(Covered()) {
        UnionCovers(sc, before, olds, c);
      }
      if old(Valid()) {
        CollectionBitsConcat(sc, prev, c);
        AddedElements(olds, prev, c);
      }
    }

    /** `clear()`: the set becomes empty and the filter all zero, which makes any set consistent. */
    method Clear()
      requires filter.Valid()
      modifies this, filter.filter
      ensures Valid()
      ensures elements == {}
      ensures filter.filter[..] == Zeros(Spec().Words())
    {
      filter.Clear();
      elements := {};
      added := [];
    }

    /**
     * `contains(o)`: false as soon as the filter rejects `o`, otherwise the
     * backing set's answer; on a consistent set, exactly membership.
     */
    method Contains(o: E) returns (r: bool)
      requires filter.Valid()
      ensures r <==> Spec().MayContain(filter.filter[..], o) && o in elements
      ensures Covered() ==> (r <==> o in elements)
    {
      var maybe := filter.ContainsElement(o);
      if !maybe {
        return false;
      }
      r := o in elements;
    }

    /** `containsAll(c)` for a collection that is not a `BloomFilterSet`: delegated to the set. */
    method ContainsAll(c: seq<E>) returns (r: bool)
      ensures r <==> forall t :: t in c ==> t in elements
    {
      r := (set t | t in c) <= elements;
    }

    /**
     * `containsAll(other)` for another `BloomFilterSet`: fails when the configs
     * differ; false as soon as this filter does not contain the other's;
     * otherwise whether every element of the other set is in this one.
     */
    method ContainsAllSet(other: BloomFilterSet<E>) returns (r: Result<bool>)
      requires filter.Valid() && other.filter.Valid()
      ensures r.Failure? <==> filter.config != other.filter.config
      ensures r.Failure? ==> r.error == IllegalArgument
      ensures r.Success? ==>
        (r.value <==> Words.Contains(filter.filter[..], other.filter.filter[..]) && other.elements <= elements)
      ensures r.Success? && Valid() && other.Valid() ==> (r.value <==> other.elements <= elements)
    {
      var covered := filter.Contains(other.filter);
      if covered.Failure? {
        return Failure(covered.error);
      }
      if !covered.value {
        if Valid() && other.Valid() && other.elements <= elements {
          forall t | t in other.added
            ensures t in added
          {
            assert t in other.elements;
          }
          CollectionBitsMonotone(Spec(), other.added, added);
        }
        return Success(false);
      }
      return Success(other.elements <= elements);
    }

    /**
     * `equals(other)` for another `BloomFilterSet`: false as soon as the filters
     * differ (a different config included), otherwise whether the sets are equal.
     * Two consistent sets of one config are equal iff they hold the same elements.
     */
    method Equals(other: BloomFilterSet<E>) returns (r: bool)
      ensures r <==> filter.config == other.filter.config &&
                     filter.filter[..] == other.filter.filter[..] && elements == other.elements
      ensures Valid() && other.Valid() && filter.config == other.filter.config ==>
        (r <==> elements == other.elements)
    {
      var same := filter.Equals(other.filter);
      if !same {
        if Valid() && other.Valid() && filter.config == other.filter.config && elements == other.elements {
          forall t
            ensures t in added <==> t in other.added
          {
            assert t in added <==> t in elements;
            assert t in other.added <==> t in other.elements;
          }
          CollectionBitsSetOnly(Spec(), added, other.added);
        }
        return false;
      }
      r := elements == other.elements;
    }

    /** `size()`: the number of elements of the backing set. */
    method Size() returns (n: nat)
      ensures n == |elements|
    {
      n := |elements|;
    }

    /** `isEmpty()`: the backing set has no element. */
    method IsEmpty() returns (b: bool)
      ensures b <==> elements == {}
    {
      b := |elements| == 0;
    }

    /** `remove(o)`: not supported; nothing changes. */
    method Remove(o: E) returns (r: Result<bool>)
      ensures r == Failure(UnsupportedOperation)
    {
      r := Failure(UnsupportedOperation);
    }

    /** `removeAll(c)`: not supported; nothing changes. */
    method RemoveAll(c: seq<E>) returns (r: Result<bool>)
      ensures r == Failure(UnsupportedOperation)
    {
      r := Failure(UnsupportedOperation);
    }

    /** `retainAll(c)`: not supported; nothing changes. */
    method RetainAll(c: seq<E>) returns (r: Result<bool>)
      ensures r == Failure(UnsupportedOperation)
    {
      r := Failure(UnsupportedOperation);
    }
  }
}

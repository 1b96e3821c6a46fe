/**
 * What a multi-word Bloom filter built from a `BloomConfig` holds, as values.
 *
 * A scheme is the value part of a config: the hash functions, the size in
 * bytes and the index mask `hashFilter`. Each hash function sends an element to
 * the bit index `hash(t) & hashFilter`; adding an element sets those bits, and
 * an element may be present when all of them are set.
 */
module BloomSpec {
  import opened Bits
  import opened JavaLang
  import opened Words

  /** The largest size for which `filterBytes * 8 - 1` evaluates to `8 * filterBytes - 1` in int arithmetic. */
  const MAX_FILTER_BYTES: int := 0x1000_0000

  /**
   * The size check of the `BloomConfig` constructor as written: it rejects sizes
   * below 1 and sizes that are not a multiple of 4, and otherwise yields
   * `hashFilter = filterBytes * 8 - 1` computed with int overflow.
   */
  function CheckSizeAsWritten(filterBytes: Int): (r: Result<Int>)
    ensures r.Failure? <==> filterBytes < 1 || filterBytes % 4 != 0
    ensures r.Failure? ==> r.error == IllegalArgument
  {
    if filterBytes < 1 || filterBytes % 4 != 0 then Failure(IllegalArgument)
    else Success(Wrap(filterBytes * 8 - 1))
  }

  /**
   * The size check with the overflow excluded: sizes above `MAX_FILTER_BYTES` are
   * rejected like the other bad sizes, so `hashFilter` is always `8 * filterBytes - 1`.
   */
  function CheckSize(filterBytes: Int): (r: Result<Int>)
    ensures r.Failure? <==> filterBytes < 1 || filterBytes % 4 != 0 || filterBytes > MAX_FILTER_BYTES
    ensures r.Failure? ==> r.error == IllegalArgument
    ensures r.Success? ==> r.value == filterBytes * 8 - 1 && 0 <= r.value
  {
    if filterBytes < 1 || filterBytes % 4 != 0 || filterBytes > MAX_FILTER_BYTES then Failure(IllegalArgument)
    else Success(Wrap(filterBytes * 8 - 1))
  }

  /** Both checks agree on every size up to `MAX_FILTER_BYTES`. */
  lemma CheckSizeAgrees(filterBytes: Int)
    requires filterBytes <= MAX_FILTER_BYTES
    ensures CheckSize(filterBytes) == CheckSizeAsWritten(filterBytes)
  {
  }

  /**
   * Above `MAX_FILTER_BYTES` the constructor as written accepts the size but the
   * mask overflows to a negative int: for `filterBytes = 0x1000_0004` and the hash
   * value `hashFilter` itself, the bit index `hash & hashFilter` is at most -32,
   * so `indexBit / 32` is a negative array index.
   */
  lemma OverflowGivesNegativeIndex()
    ensures CheckSizeAsWritten(0x1000_0004).Success?
    ensures var hf := CheckSizeAsWritten(0x1000_0004).value;
      hf == -0x7FFF_FFE1 && And(hf, hf) == hf && And(hf, hf) <= -32
  {
    var hf := CheckSizeAsWritten(0x1000_0004).value;
    assert hf == -0x7FFF_FFE1;
    AndIdempotent(Unsigned(hf));
  }

  /** The bit index `hash & hashFilter` for a non-negative mask. */
  function Position(h: Int, hashFilter: Int): (p: nat)
    requires 0 <= hashFilter
    ensures p <= hashFilter
  {
    And(h, hashFilter)
  }

  /** Every position fits the filter: `p / 32` indexes a word of `n` words. */
  predicate Fits(ps: seq<nat>, n: nat)
  {
    forall j | 0 <= j < |ps| :: ps[j] / 32 < n
  }

  /** The positions in `ps` set one after another, as the loop over the hash functions does. */
  function SetBits(w: seq<Word>, ps: seq<nat>): (r: seq<Word>)
    requires Fits(ps, |w|)
    ensures |r| == |w|
  {
    if |ps| == 0 then w else SetBit(SetBits(w, ps[..|ps| - 1]), ps[|ps| - 1])
  }

  /** After setting `ps`, exactly the positions of `ps` and those set before are set. */
  lemma {:induction false} SetBitsAt(w: seq<Word>, ps: seq<nat>, q: nat)
    requires Fits(ps, |w|)
    ensures BitAt(SetBits(w, ps), q) <==> q in ps || BitAt(w, q)
  {
    if |ps| > 0 {
      var init, last := ps[..|ps| - 1], ps[|ps| - 1];
      SetBitsAt(w, init, q);
      SetBitAt(SetBits(w, init), last, q);
      assert ps == init + [last];
    }
  }

  /** Setting positions is OR-ing in the filter that has only those positions. */
  lemma SetBitsIsOr(w: seq<Word>, ps: seq<nat>)
    requires Fits(ps, |w|)
    ensures SetBits(w, ps) == Or(w, SetBits(Zeros(|w|), ps))
  {
    var a, b := SetBits(w, ps), Or(w, SetBits(Zeros(|w|), ps));
    forall q: nat
      ensures BitAt(a, q) <==> BitAt(b, q)
    {
      SetBitsAt(w, ps, q);
      SetBitsAt(Zeros(|w|), ps, q);
      OrAt(w, SetBits(Zeros(|w|), ps), q);
      ZerosHaveNoBits(|w|, q);
    }
    SameBits(a, b);
  }

  /** Setting positions never clears one: the result contains the old filter. */
  lemma SetBitsGrows(w: seq<Word>, ps: seq<nat>)
    requires Fits(ps, |w|)
    ensures Contains(SetBits(w, ps), w)
  {
    forall q: nat | BitAt(w, q)
      ensures BitAt(SetBits(w, ps), q)
    {
      SetBitsAt(w, ps, q);
    }
    ContainsBits(SetBits(w, ps), w);
  }

  /** The empty filter with the positions `ps` set has at most `|ps|` positions set. */
  lemma SetBitsCount(n: nat, ps: seq<nat>)
    requires Fits(ps, n)
    ensures PositionsOf(SetBits(Zeros(n), ps)) == set j | 0 <= j < |ps| :: ps[j]
    ensures |PositionsOf(SetBits(Zeros(n), ps))| <= |ps|
  {
    var w := SetBits(Zeros(n), ps);
    forall q: nat
      ensures q in PositionsOf(w) <==> q in ps
    {
      SetBitsAt(Zeros(n), ps, q);
      ZerosHaveNoBits(n, q);
      if q in ps {
        var j :| 0 <= j < |ps| && ps[j] == q;
        assert q / 32 < n;
        assert q < 32 * n;
      }
    }
    assert PositionsOf(w) == set j | 0 <= j < |ps| :: ps[j];
    IndexImage(ps);
  }

  /** A sequence of length `n` has at most `n` distinct elements. */
  lemma {:induction false} IndexImage(ps: seq<nat>)
    ensures |set j | 0 <= j < |ps| :: ps[j]| <= |ps|
  {
    if |ps| > 0 {
      var init := ps[..|ps| - 1];
      IndexImage(init);
      var a, b := set j | 0 <= j < |ps| :: ps[j], set j | 0 <= j < |init| :: init[j];
      forall x | x in a
        ensures x in b + {ps[|ps| - 1]}
      {
        var j :| 0 <= j < |ps| && ps[j] == x;
        if j < |init| {
          assert init[j] == x;
        }
      }
      var c := b + {ps[|ps| - 1]};
      assert a <= c;
      assert |c| <= |b| + 1;
      SubsetCardinality(a, c);
    }
  }

  lemma SubsetCardinality(a: set<nat>, c: set<nat>)
    requires a <= c
    ensures |a| <= |c|
  {
    assert c == a + (c - a);
  }

  /** Every position of `ps` is set in `w`: `config.contains(filter, t)`. */
  predicate AllSet(w: seq<Word>, ps: seq<nat>)
  {
    forall j | 0 <= j < |ps| :: BitAt(w, ps[j])
  }

  /** Testing the positions one by one is the word-wise subset test against the filter of `ps`. */
  lemma AllSetIffContains(w: seq<Word>, ps: seq<nat>)
    requires Fits(ps, |w|)
    ensures AllSet(w, ps) <==> Contains(w, SetBits(Zeros(|w|), ps))
  {
    var e := SetBits(Zeros(|w|), ps);
    ContainsBits(w, e);
    if AllSet(w, ps) {
      forall q: nat | BitAt(e, q)
        ensures BitAt(w, q)
      {
        SetBitsAt(Zeros(|w|), ps, q);
        ZerosHaveNoBits(|w|, q);
      }
    }
    if Contains(w, e) {
      forall j | 0 <= j < |ps|
        ensures BitAt(w, ps[j])
      {
        SetBitsAt(Zeros(|w|), ps, ps[j]);
      }
    }
  }

  /**
   * The value part of a `BloomConfig`: the hash functions, the size in bytes and
   * the index mask.
   */
  datatype Scheme<-E> = Scheme(hashes: seq<E -> Int>, filterBytes: Int, hashFilter: Int)
  {
    /** A size accepted by `CheckSize` and the mask it yields. */
    predicate Valid()
    {
      CheckSize(filterBytes) == Success(hashFilter)
    }

    /** The number of words, `filterBytes / 4`. */
    function Words(): nat
      requires Valid()
    {
      filterBytes / 4
    }

    /** The bit index of each hash function for `t`, in the order of `hashes`. */
    function Positions(t: E): (ps: seq<nat>)
      requires Valid()
      ensures |ps| == |hashes|
      ensures Fits(ps, Words())
    {
      var ps := seq(|hashes|, j requires 0 <= j < |hashes| => Position(hashes[j](t), hashFilter));
      forall j | 0 <= j < |ps|
        ensures ps[j] / 32 < Words()
      {
        IndexInRange(filterBytes, hashFilter, ps[j]);
      }
      ps
    }

    /** The filter of the single element `t` (`getFilter(t)`). */
    function ElementBits(t: E): (w: seq<Word>)
      requires Valid()
      ensures |w| == Words()
    {
      SetBits(Zeros(Words()), Positions(t))
    }

    /** The filter of all elements of `ts`, added in order (`getFilter(ts)`). */
    function CollectionBits(ts: seq<E>): (w: seq<Word>)
      requires Valid()
      ensures |w| == Words()
    {
      if |ts| == 0 then Zeros(Words())
      else SetBits(CollectionBits(ts[..|ts| - 1]), Positions(ts[|ts| - 1]))
    }

    /** `t` may be in the filter `w`: all its positions are set. */
    predicate MayContain(w: seq<Word>, t: E)
      requires Valid()
    {
      AllSet(w, Positions(t))
    }

    /** Some element of `ts` sets position `q`. */
    ghost predicate Hits(ts: seq<E>, q: nat)
      requires Valid()
    {
      exists t :: t in ts && q in Positions(t)
    }
  }

  /** The bit index is at most `hashFilter`, so its word index is below `filterBytes / 4`. */
  lemma IndexInRange(filterBytes: Int, hashFilter: Int, p: nat)
    requires CheckSize(filterBytes) == Success(hashFilter)
    requires p <= hashFilter
    ensures p / 32 < filterBytes / 4
  {
    var n := filterBytes / 4;
    assert hashFilter == 32 * n - 1;
  }

  /** `getFilter(t)` sets exactly the positions of `t` and no others. */
  lemma ElementBitsAt<E>(sc: Scheme<E>, t: E, q: nat)
    requires sc.Valid()
    ensures BitAt(sc.ElementBits(t), q) <==> q in sc.Positions(t)
  {
    SetBitsAt(Zeros(sc.Words()), sc.Positions(t), q);
    ZerosHaveNoBits(sc.Words(), q);
  }

  /** `getFilter(t)` has at most one position per hash function. */
  lemma ElementBitsCount<E>(sc: Scheme<E>, t: E)
    requires sc.Valid()
    ensures |PositionsOf(sc.ElementBits(t))| <= |sc.hashes|
  {
    SetBitsCount(sc.Words(), sc.Positions(t));
  }

  /** `t` may be contained in a filter iff the filter contains `getFilter(t)`. */
  lemma MayContainIffContains<E>(sc: Scheme<E>, w: seq<Word>, t: E)
    requires sc.Valid() && |w| == sc.Words()
    ensures sc.MayContain(w, t) <==> Contains(w, sc.ElementBits(t))
  {
    AllSetIffContains(w, sc.Positions(t));
  }

  /** Adding one more element sets its positions in the collection's filter. */
  lemma CollectionBitsAppend<E>(sc: Scheme<E>, ts: seq<E>, t: E)
    requires sc.Valid()
    ensures sc.CollectionBits(ts + [t]) == SetBits(sc.CollectionBits(ts), sc.Positions(t))
  {
    assert (ts + [t])[..|ts|] == ts;
  }

  /** Adding element `i` of `c` after `prefix + c[..i]` gives the filter of `prefix + c[..i + 1]`. */
  lemma CollectionBitsStep<E>(sc: Scheme<E>, prefix: seq<E>, c: seq<E>, i: nat)
    requires sc.Valid() && i < |c|
    ensures sc.CollectionBits(prefix + c[..i + 1]) == SetBits(sc.CollectionBits(prefix + c[..i]), sc.Positions(c[i]))
  {
    assert prefix + c[..i + 1] == (prefix + c[..i]) + [c[i]];
    CollectionBitsAppend(sc, prefix + c[..i], c[i]);
  }

  /** Adding one more element OR-s its filter into the collection's filter. */
  lemma CollectionBitsSnoc<E>(sc: Scheme<E>, ts: seq<E>, t: E)
    requires sc.Valid()
    ensures sc.CollectionBits(ts + [t]) == Or(sc.CollectionBits(ts), sc.ElementBits(t))
  {
    assert (ts + [t])[..|ts|] == ts;
    SetBitsIsOr(sc.CollectionBits(ts), sc.Positions(t));
  }

  /** A position of the collection's filter is set iff some element of the collection hits it. */
  lemma {:induction false} CollectionBitsAt<E>(sc: Scheme<E>, ts: seq<E>, q: nat)
    requires sc.Valid()
    ensures BitAt(sc.CollectionBits(ts), q) <==> sc.Hits(ts, q)
  {
    if |ts| == 0 {
      ZerosHaveNoBits(sc.Words(), q);
    } else {
      var init, last := ts[..|ts| - 1], ts[|ts| - 1];
      assert ts == init + [last];
      var before := sc.CollectionBits(init);
      assert sc.CollectionBits(ts) == SetBits(before, sc.Positions(last));
      CollectionBitsAt(sc, init, q);
      SetBitsAt(before, sc.Positions(last), q);
      HitsSnoc(sc, init, last, q);
    }
  }

  lemma HitsSnoc<E>(sc: Scheme<E>, ts: seq<E>, t: E, q: nat)
    requires sc.Valid()
    ensures sc.Hits(ts + [t], q) <==> sc.Hits(ts, q) || q in sc.Positions(t)
  {
    if sc.Hits(ts + [t], q) {
      var u :| u in ts + [t] && q in sc.Positions(u);
      if u != t {
        assert u in ts;
      }
    }
    if sc.Hits(ts, q) {
      var u :| u in ts && q in sc.Positions(u);
      assert u in ts + [t];
    }
    if q in sc.Positions(t) {
      assert t in ts + [t];
    }
  }

  /** The collection's filter depends only on which elements it holds: not on order, not on duplicates. */
  lemma CollectionBitsSetOnly<E>(sc: Scheme<E>, ts: seq<E>, us: seq<E>)
    requires sc.Valid()
    requires forall t :: t in ts <==> t in us
    ensures sc.CollectionBits(ts) == sc.CollectionBits(us)
  {
    forall q: nat
      ensures BitAt(sc.CollectionBits(ts), q) <==> BitAt(sc.CollectionBits(us), q)
    {
      CollectionBitsAt(sc, ts, q);
      CollectionBitsAt(sc, us, q);
    }
    SameBits(sc.CollectionBits(ts), sc.CollectionBits(us));
  }

  /** More elements give a filter that contains the smaller one. */
  lemma CollectionBitsMonotone<E>(sc: Scheme<E>, ts: seq<E>, us: seq<E>)
    requires sc.Valid()
    requires forall t :: t in ts ==> t in us
    ensures Contains(sc.CollectionBits(us), sc.CollectionBits(ts))
  {
    forall q: nat | BitAt(sc.CollectionBits(ts), q)
      ensures BitAt(sc.CollectionBits(us), q)
    {
      CollectionBitsAt(sc, ts, q);
      CollectionBitsAt(sc, us, q);
    }
    ContainsBits(sc.CollectionBits(us), sc.CollectionBits(ts));
  }

  /** No false negatives: every element of the collection may be contained in its filter. */
  lemma CollectionMayContain<E>(sc: Scheme<E>, ts: seq<E>, t: E)
    requires sc.Valid() && t in ts
    ensures sc.MayContain(sc.CollectionBits(ts), t)
  {
    forall j | 0 <= j < |sc.Positions(t)|
      ensures BitAt(sc.CollectionBits(ts), sc.Positions(t)[j])
    {
      CollectionBitsAt(sc, ts, sc.Positions(t)[j]);
    }
  }

  lemma HitsConcat<E>(sc: Scheme<E>, ts: seq<E>, us: seq<E>, q: nat)
    requires sc.Valid()
    ensures sc.Hits(ts + us, q) <==> sc.Hits(ts, q) || sc.Hits(us, q)
  {
    if sc.Hits(ts + us, q) {
      var u :| u in ts + us && q in sc.Positions(u);
      if u !in ts {
        assert u in us;
      }
    }
    if sc.Hits(ts, q) {
      var u :| u in ts && q in sc.Positions(u);
      assert u in ts + us;
    }
    if sc.Hits(us, q) {
      var u :| u in us && q in sc.Positions(u);
      assert u in ts + us;
    }
  }

  /** The filter of `ts + us` is the union of the filters of `ts` and of `us`. */
  lemma CollectionBitsConcat<E>(sc: Scheme<E>, ts: seq<E>, us: seq<E>)
    requires sc.Valid()
    ensures sc.CollectionBits(ts + us) == Or(sc.CollectionBits(ts), sc.CollectionBits(us))
  {
    var a, b, c := sc.CollectionBits(ts + us), sc.CollectionBits(ts), sc.CollectionBits(us);
    forall q: nat
      ensures BitAt(a, q) <==> BitAt(Or(b, c), q)
    {
      CollectionBitsAt(sc, ts + us, q);
      CollectionBitsAt(sc, ts, q);
      CollectionBitsAt(sc, us, q);
      HitsConcat(sc, ts, us, q);
      OrAt(b, c, q);
    }
    SameBits(a, Or(b, c));
  }

  /**
   * Adding element `i` of `c` to a filter `w` already OR-ed with the filter of
   * `c[..i]` gives `w` OR-ed with the filter of `c[..i + 1]`.
   */
  lemma OrCollectionStep<E>(sc: Scheme<E>, w: seq<Word>, c: seq<E>, i: nat)
    requires sc.Valid() && |w| == sc.Words() && i < |c|
    ensures SetBits(Or(w, sc.CollectionBits(c[..i])), sc.Positions(c[i])) ==
            Or(w, sc.CollectionBits(c[..i + 1]))
  {
    var before, ps := sc.CollectionBits(c[..i]), sc.Positions(c[i]);
    assert c[..i + 1] == c[..i] + [c[i]];
    CollectionBitsAppend(sc, c[..i], c[i]);
    var after := sc.CollectionBits(c[..i + 1]);
    assert after == SetBits(before, ps);
    var lhs := SetBits(Or(w, before), ps);
    forall q: nat
      ensures BitAt(lhs, q) <==> BitAt(Or(w, after), q)
    {
      SetBitsAt(Or(w, before), ps, q);
      OrAt(w, before, q);
      OrAt(w, after, q);
      SetBitsAt(before, ps, q);
    }
    SameBits(lhs, Or(w, after));
  }

  /** A filter that contains `w` lets through every element that `w` lets through. */
  lemma MayContainGrows<E>(sc: Scheme<E>, w: seq<Word>, v: seq<Word>, t: E)
    requires sc.Valid() && |w| == sc.Words() && Contains(v, w)
    requires sc.MayContain(w, t)
    ensures sc.MayContain(v, t)
  {
    MayContainIffContains(sc, w, t);
    MayContainIffContains(sc, v, t);
    ContainsTransitive(v, w, sc.ElementBits(t));
  }

  /** The bits of a bit index are bits of `hashFilter`. */
  lemma PositionWithinMask(h: Int, hashFilter: Int)
    requires 0 <= hashFilter
    ensures Covers(hashFilter, Position(h, hashFilter))
  {
    var u, m := Unsigned(h), Unsigned(hashFilter);
    BitAndCovered(u, m);
  }

  lemma BitAndCovered(u: nat, m: nat)
    ensures Covers(m, BitAnd(u, m))
  {
    forall k: nat | Bit(BitAnd(u, m), k)
      ensures Bit(m, k)
    {
      BitAndBit(u, m, k);
    }
    CoversBits(m, BitAnd(u, m));
  }

  /**
   * When `filterBytes * 8` is not a power of two some positions are never set:
   * with `filterBytes = 12` the mask is `0b1011111`, bit 5 of every index is
   * clear and word 1 is never touched.
   */
  lemma TwelveBytesSkipWord1(h: Int)
    ensures CheckSize(12) == Success(95)
    ensures Position(h, 95) / 32 != 1
  {
    var u := Unsigned(h);
    var p := Position(h, 95);
    BitAndBit(u, 95, 5);
    assert !Bit(95, 5);
    if p / 32 == 1 {
      BitFive(p);
    }
  }

  lemma BitFive(p: nat)
    requires 32 <= p < 64
    ensures Bit(p, 5)
  {
    var p1 := p / 2;
    var p2 := p1 / 2;
    var p3 := p2 / 2;
    var p4 := p3 / 2;
    var p5 := p4 / 2;
    assert p5 == 1;
    assert Bit(p5, 0);
    assert Bit(p4, 1);
    assert Bit(p3, 2);
    assert Bit(p2, 3);
    assert Bit(p1, 4);
  }
}

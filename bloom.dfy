/**
 * `BloomConfig` and `BloomFilter`: a multi-word Bloom filter over an `int[]`
 * whose size and hash functions are fixed by the config that created it.
 * Configs are compared by reference, as Java's inherited `Object.equals` does.
 */
module Bloom {
  import opened Bits
  import opened JavaLang
  import opened Words
  import opened Encoding
  import opened BloomSpec
  import opened ByteStreams

  /** The 32 bytes of a SHA-256 digest. */
  type Digest = d: seq<Byte> | |d| == 32 witness seq(32, _ => 0)

  /**
   * The hash functions `withSHA256` builds: function `i` assembles bytes
   * `4i..4i+3` of the digest of the salt followed by the serialized element,
   * least significant first.
   */
  function Sha256Hashes<E>(hashNum: nat, salt: seq<Byte>, digest: seq<Byte> -> Digest,
                           serialize: E -> seq<Byte>): (hs: seq<E -> Int>)
    requires hashNum <= 8
    ensures |hs| == hashNum
  {
    seq(hashNum, i requires 0 <= i < hashNum => (t: E) => LittleEndianInt(digest(salt + serialize(t)), 4 * i))
  }

  /** Hash `i` of `t`, read big-endian, is digest bytes `4i+3, 4i+2, 4i+1, 4i`. */
  lemma Sha256HashBytes<E>(hashNum: nat, salt: seq<Byte>, digest: seq<Byte> -> Digest,
                           serialize: E -> seq<Byte>, i: nat, t: E)
    requires i < hashNum <= 8
    ensures var d := digest(salt + serialize(t));
      Unsigned(Sha256Hashes(hashNum, salt, digest, serialize)[i](t)) ==
        BytesWord([d[4 * i + 3], d[4 * i + 2], d[4 * i + 1], d[4 * i]])
  {
    var h := Sha256Hashes(hashNum, salt, digest, serialize)[i](t);
    WordRoundTrip(Unsigned(h));
  }

  class BloomConfig<E> {
    const hashes: seq<E -> Int>
    const filterBytes: Int
    const hashFilter: Int

    /** The config as a value. */
    function Spec(): Scheme<E>
    {
      Scheme(hashes, filterBytes, hashFilter)
    }

    predicate Valid()
    {
      Spec().Valid()
    }

    constructor (hashes: seq<E -> Int>, filterBytes: Int)
      requires CheckSize(filterBytes).Success?
      ensures this.hashes == hashes && this.filterBytes == filterBytes
      ensures hashFilter == filterBytes * 8 - 1 && Valid()
    {
      this.hashes := hashes;
      this.filterBytes := filterBytes;
      hashFilter := Wrap(filterBytes * 8 - 1);
    }

    /** `new BloomConfig(hashes, filterBytes)`, with the size check failing instead of throwing. */
    static method Create(hashes: seq<E -> Int>, filterBytes: Int) returns (r: Result<BloomConfig<E>>)
      ensures r.Failure? <==> CheckSize(filterBytes).Failure?
      ensures r.Failure? ==> r.error == IllegalArgument
      ensures r.Success? ==>
        fresh(r.value) && r.value.Valid() && r.value.hashes == hashes && r.value.filterBytes == filterBytes
    {
      if CheckSize(filterBytes).Failure? {
        return Failure(IllegalArgument);
      }
      var c := new BloomConfig(hashes, filterBytes);
      return Success(c);
    }

    /** `withSHA256(hashNum, filterBytes, salt)`: 1 to 8 hash functions cut from one digest. */
    static method WithSha256(hashNum: Int, filterBytes: Int, salt: seq<Byte>,
                             digest: seq<Byte> -> Digest, serialize: E -> seq<Byte>)
      returns (r: Result<BloomConfig<E>>)
      ensures r.Failure? <==> hashNum < 1 || 8 < hashNum || CheckSize(filterBytes).Failure?
      ensures r.Failure? ==> r.error == IllegalArgument
      ensures r.Success? ==>
        fresh(r.value) && r.value.Valid() && r.value.filterBytes == filterBytes &&
        r.value.hashes == Sha256Hashes(hashNum, salt, digest, serialize)
    {
      if hashNum < 1 || 8 < hashNum {
        return Failure(IllegalArgument);
      }
      r := Create(Sha256Hashes(hashNum, salt, digest, serialize), filterBytes);
    }

    /** `withSHA256(hashNum, filterBytes)`: the same with an empty salt. */
    static method WithSha256Unsalted(hashNum: Int, filterBytes: Int,
                                     digest: seq<Byte> -> Digest, serialize: E -> seq<Byte>)
      returns (r: Result<BloomConfig<E>>)
      ensures r.Failure? <==> hashNum < 1 || 8 < hashNum || CheckSize(filterBytes).Failure?
      ensures r.Failure? ==> r.error == IllegalArgument
      ensures r.Success? ==>
        fresh(r.value) && r.value.Valid() && r.value.filterBytes == filterBytes &&
        r.value.hashes == Sha256Hashes(hashNum, [], digest, serialize)
    {
      r := WithSha256(hashNum, filterBytes, [], digest, serialize);
    }

    /** `empty()`: a filter of `filterBytes / 4` clear words. */
    method Empty() returns (f: BloomFilter<E>)
      requires Valid()
      ensures fresh(f) && fresh(f.filter) && f.config == this && f.Valid()
      ensures f.filter[..] == Zeros(filterBytes / 4)
    {
      var a := new Word[filterBytes / 4](_ => 0);
      f := new BloomFilter(this, a);
    }

    /** `add(filter, t)`: sets bit `hash(t) & hashFilter` for every hash function, in order. */
    method Add(filter: array<Word>, t: E)
      requires Valid() && filter.Length == Spec().Words()
      modifies filter
      ensures filter[..] == SetBits(old(filter[..]), Spec().Positions(t))
    {
      ghost var ps := Spec().Positions(t);
      for j := 0 to |hashes|
        invariant Fits(ps[..j], filter.Length)
        invariant filter[..] == SetBits(old(filter[..]), ps[..j])
      {
        var indexBit := And(hashes[j](t), hashFilter);
        assert indexBit == ps[j];
        filter[indexBit / 32] := WordOr(filter[indexBit / 32], Mask(indexBit % 32));
        assert ps[..j + 1][..j] == ps[..j];
      }
      assert ps[..|hashes|] == ps;
    }

    /** `contains(filter, t)`: every bit `hash(t) & hashFilter` is set. */
    method Contains(filter: array<Word>, t: E) returns (b: bool)
      requires Valid() && filter.Length == Spec().Words()
      ensures b == Spec().MayContain(filter[..], t)
    {
      ghost var ps := Spec().Positions(t);
      for j := 0 to |hashes|
        invariant forall i | 0 <= i < j :: BitAt(filter[..], ps[i])
      {
        var indexBit := And(hashes[j](t), hashFilter);
        assert indexBit == ps[j];
        MaskTest(filter[indexBit / 32], indexBit % 32);
        if BitAnd(filter[indexBit / 32], Mask(indexBit % 32)) == 0 {
          return false;
        }
      }
      return true;
    }

    /** `getFilter(t)`: a new filter holding just `t`. */
    method GetFilter(t: E) returns (f: BloomFilter<E>)
      requires Valid()
      ensures fresh(f) && fresh(f.filter) && f.config == this && f.Valid()
      ensures f.filter[..] == Spec().ElementBits(t)
    {
      var a := new Word[filterBytes / 4](_ => 0);
      assert a[..] == Zeros(Spec().Words());
      Add(a, t);
      f := new BloomFilter(this, a);
    }

    /** `getFilter(ts)`: a new filter holding every element of `ts`, added in iteration order. */
    method GetFilterAll(ts: seq<E>) returns (f: BloomFilter<E>)
      requires Valid()
      ensures fresh(f) && fresh(f.filter) && f.config == this && f.Valid()
      ensures f.filter[..] == Spec().CollectionBits(ts)
    {
      var a := new Word[filterBytes / 4](_ => 0);
      assert a[..] == Zeros(Spec().Words());
      for i := 0 to |ts|
        invariant a[..] == Spec().CollectionBits(ts[..i])
      {
        Add(a, ts[i]);
        assert ts[..i + 1][..i] == ts[..i];
      }
      assert ts[..|ts|] == ts;
      f := new BloomFilter(this, a);
    }
  }

  class BloomFilter<E> {
    const config: BloomConfig<E>
    const filter: array<Word>

    /** The array has the length the config prescribes. */
    predicate Valid()
    {
      config.Valid() && filter.Length == config.Spec().Words()
    }

    constructor (config: BloomConfig<E>, filter: array<Word>)
      ensures this.config == config && this.filter == filter
    {
      this.config := config;
      this.filter := filter;
    }

    /** `add(element)`: sets the element's bits; no bit is cleared and the element is then reported present. */
    method Add(element: E)
      requires Valid()
      modifies filter
      ensures filter[..] == SetBits(old(filter[..]), config.Spec().Positions(element))
      ensures Words.Contains(filter[..], old(filter[..]))
      ensures config.Spec().MayContain(filter[..], element)
    {
      config.Add(filter, element);
      ghost var ps := config.Spec().Positions(element);
      SetBitsGrows(old(filter[..]), ps);
      forall j | 0 <= j < |ps|
        ensures BitAt(filter[..], ps[j])
      {
        SetBitsAt(old(filter[..]), ps, ps[j]);
      }
    }

    /** `clear()`: every word becomes 0. */
    method Clear()
      modifies filter
      ensures filter[..] == Zeros(filter.Length)
    {
      for i := 0 to filter.Length
        invariant forall k | 0 <= k < i :: filter[k] == 0
      {
        filter[i] := 0;
      }
    }

    /** `contains(element)`: the element may be present. */
    method ContainsElement(element: E) returns (b: bool)
      requires Valid()
      ensures b == config.Spec().MayContain(filter[..], element)
    {
      b := config.Contains(filter, element);
    }

    /**
     * `contains(target)`: fails when the filters come from different configs,
     * otherwise tells whether every word of `target` is a submask of this filter's word.
     */
    method Contains(target: BloomFilter<E>) returns (r: Result<bool>)
      requires Valid() && target.Valid()
      ensures r.Failure? <==> config != target.config
      ensures r.Failure? ==> r.error == IllegalArgument
      ensures r.Success? ==> r.value == Words.Contains(filter[..], target.filter[..])
    {
      if config != target.config {
        return Failure(IllegalArgument);
      }
      var a, b := filter, target.filter;
      for i := 0 to filter.Length
        invariant forall k | 0 <= k < i :: Covers(a[k], b[k])
      {
        if BitAnd(a[i], b[i]) != b[i] {
          return Success(false);
        }
      }
      return Success(true);
    }

    /** `union(target)`: a new filter of the same config whose words are the ORs of the operands' words. */
    method Union(target: BloomFilter<E>) returns (r: Result<BloomFilter<E>>)
      requires Valid() && target.Valid()
      ensures r.Failure? <==> config != target.config
      ensures r.Failure? ==> r.error == IllegalArgument
      ensures r.Success? ==>
        fresh(r.value) && fresh(r.value.filter) && r.value.config == config &&
        r.value.Valid() && r.value.filter[..] == Or(filter[..], target.filter[..])
    {
      if config != target.config {
        return Failure(IllegalArgument);
      }
      var a, b := filter, target.filter;
      var c := new Word[filter.Length](_ => 0);
      for i := 0 to filter.Length
        invariant forall k | 0 <= k < i :: c[k] == WordOr(a[k], b[k])
      {
        c[i] := WordOr(a[i], b[i]);
      }
      var u := new BloomFilter(config, c);
      return Success(u);
    }

    /** `toByteArray()`: four big-endian bytes per word, from which the words read back. */
    function ToByteArray(): (b: seq<Byte>)
      reads filter
      ensures |b| == 4 * filter.Length
      ensures FromBytes(b) == filter[..]
    {
      ToBytesRoundTrip(filter[..]);
      ToBytes(filter[..])
    }

    /** `toByteStream()` as written: a stream over `4 * filter.length` bytes of this filter. */
    method ToByteStream() returns (s: FilterByteStream)
      requires Valid()
      ensures fresh(s) && fresh(s.cach) && s.filter == filter && s.index == 0 && s.Valid()
    {
      s := new FilterByteStream(filter);
    }

    /** `toByteStream()` with the word loaded at each word boundary. */
    method ToWordByteStream() returns (s: WordByteStream)
      requires Valid()
      ensures fresh(s) && fresh(s.cach) && s.filter == filter && s.index == 0 && s.Valid()
    {
      s := new WordByteStream(filter);
    }

    /** `toBinaryString()`: the words from the last to the first, each as 32 binary digits. */
    method ToBinaryString() returns (s: string)
      ensures s == BinaryString(filter[..])
    {
      var sb := "";
      var i := filter.Length - 1;
      while i >= 0
        invariant -1 <= i < filter.Length
        invariant sb == BinaryString(filter[i + 1..])
      {
        var digits := ZeroFill(filter[i], 32);
        assert filter[i..][1..] == filter[i + 1..];
        sb := sb + digits;
        i := i - 1;
      }
      assert filter[0..] == filter[..];
      s := sb;
    }

    /** `clone()`: a new filter of the same config over a copy of the array. */
    method Clone() returns (c: BloomFilter<E>)
      ensures fresh(c) && fresh(c.filter) && c.config == config && c.filter[..] == filter[..]
      ensures Valid() ==> c.Valid()
    {
      var a := new Word[filter.Length](i reads filter requires 0 <= i < filter.Length => filter[i]);
      c := new BloomFilter(config, a);
    }

    /**
     * `equals(other)`: the same config and the same words; for valid filters,
     * the same config and each filter contains the other.
     */
    method Equals(other: BloomFilter<E>) returns (b: bool)
      ensures b <==> config == other.config && filter[..] == other.filter[..]
      ensures Valid() && other.Valid() ==>
        (b <==> config == other.config && Words.Contains(filter[..], other.filter[..]) &&
                Words.Contains(other.filter[..], filter[..]))
    {
      if this == other {
        ContainsReflexive(filter[..]);
        return true;
      }
      if config != other.config {
        return false;
      }
      b := filter[..] == other.filter[..];
      if b {
        ContainsReflexive(filter[..]);
      } else if Words.Contains(filter[..], other.filter[..]) && Words.Contains(other.filter[..], filter[..]) {
        ContainsAntisymmetric(filter[..], other.filter[..]);
      }
    }
  }
}

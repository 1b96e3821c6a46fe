/**
 * The `InputStream` returned by `BloomFilter.toByteStream`: a cursor `index`
 * over the `4 * filter.length` bytes of the filter and a four-byte cache that is
 * refilled at every word boundary. `FilterByteStream` is the stream as written,
 * which refills the cache with the word index; `WordByteStream` refills it with
 * the word itself, as the byte array export does.
 */
module ByteStreams {
  import opened JavaLang
  import opened Encoding

  /** The bytes the stream as written yields for `n` words: the big-endian encodings of 0, 1, ..., n - 1. */
  function IndexBytes(n: nat): (b: seq<Byte>)
    requires n <= MAX_INT
    ensures |b| == 4 * n
  {
    if n == 0 then [] else IndexBytes(n - 1) + WordBytes(n - 1)
  }

  /** Byte `4 * i + k` of `IndexBytes(n)` is byte `k` of the word index `i`. */
  lemma {:induction false} IndexBytesAt(n: nat, i: nat, k: nat)
    requires n <= MAX_INT && i < n && k < 4
    ensures IndexBytes(n)[4 * i + k] == WordBytes(i)[k]
  {
    if i < n - 1 {
      IndexBytesAt(n - 1, i, k);
    }
  }

  /**
   * Whenever some word differs from its index the stream as written does not
   * yield the filter's bytes: for the one-word filter `[1]` byte 3 is 0, while
   * the byte array export has 1 there.
   */
  lemma IndexBytesDiffer()
    ensures IndexBytes(1)[3] == 0 && ToBytes([1])[3] == 1
    ensures IndexBytes(1) != ToBytes([1])
  {
    assert IndexBytes(1) == WordBytes(0);
    assert ToBytes([1]) == WordBytes(1) + ToBytes([]);
  }

  /** `toByteStream()` as written. */
  class FilterByteStream {
    const filter: array<Word>
    var index: int
    const cach: array<Byte>

    /** The cursor is inside the stream and, inside a group, the cache holds the group's four bytes. */
    ghost predicate Valid()
      reads this, cach
    {
      cach.Length == 4 && 4 * filter.Length <= MAX_INT && 0 <= index <= 4 * filter.Length &&
      (index % 4 != 0 ==> cach[..] == WordBytes(index / 4))
    }

    constructor (filter: array<Word>)
      requires 4 * filter.Length <= MAX_INT
      ensures this.filter == filter && index == 0 && fresh(cach)
      ensures Valid()
    {
      this.filter := filter;
      index := 0;
      cach := new Byte[4](_ => 0);
    }

    /**
     * `read()`: the next byte as a value in `0..255`, or -1 once all
     * `4 * filter.length` bytes have been read. Group `i` of four bytes is the
     * big-endian encoding of `i`, whatever the filter holds.
     */
    method Read() returns (r: int)
      requires Valid()
      modifies this, cach
      ensures Valid()
      ensures old(index) == 4 * filter.Length ==> r == -1 && index == old(index)
      ensures old(index) < 4 * filter.Length ==>
        r == IndexBytes(filter.Length)[old(index)] && 0 <= r < 0x100 && index == old(index) + 1
    {
      if index == filter.Length * 4 {
        return -1;
      }
      if index % 4 == 0 {
        var b := WordBytes(index / 4);
        cach[0], cach[1], cach[2], cach[3] := b[0], b[1], b[2], b[3];
        assert cach[..] == b;
      }
      r := cach[index % 4];
      IndexBytesAt(filter.Length, index / 4, index % 4);
      index := index + 1;
      if index % 4 != 0 {
        assert index / 4 == old(index) / 4;
      }
    }
  }

  /** The stream with line 128 loading `filter[index / 4]`: it yields the byte array export. */
  class WordByteStream {
    const filter: array<Word>
    var index: int
    const cach: array<Byte>

    /** As for `FilterByteStream`, with the cache holding the current word's bytes. */
    ghost predicate Valid()
      reads this, cach, filter
    {
      cach.Length == 4 && 4 * filter.Length <= MAX_INT && 0 <= index <= 4 * filter.Length &&
      (index % 4 != 0 ==> cach[..] == WordBytes(filter[index / 4]))
    }

    constructor (filter: array<Word>)
      requires 4 * filter.Length <= MAX_INT
      ensures this.filter == filter && index == 0 && fresh(cach)
      ensures Valid()
    {
      this.filter := filter;
      index := 0;
      cach := new Byte[4](_ => 0);
    }

    /** `read()`: byte `index` of the filter's big-endian bytes, or -1 at the end. */
    method Read() returns (r: int)
      requires Valid()
      modifies this, cach
      ensures Valid()
      ensures old(index) == 4 * filter.Length ==> r == -1 && index == old(index)
      ensures old(index) < 4 * filter.Length ==>
        r == ToBytes(filter[..])[old(index)] && 0 <= r < 0x100 && index == old(index) + 1
    {
      if index == filter.Length * 4 {
        return -1;
      }
      if index % 4 == 0 {
        var b := WordBytes(filter[index / 4]);
        cach[0], cach[1], cach[2], cach[3] := b[0], b[1], b[2], b[3];
        assert cach[..] == b;
      }
      r := cach[index % 4];
      ToBytesAt(filter[..], index / 4, index % 4);
      index := index + 1;
      if index % 4 != 0 {
        assert index / 4 == old(index) / 4;
      }
    }
  }
}

/**
 * External representations of filter words: the big-endian bytes a
 * `java.nio.ByteBuffer` writes by default, the little-endian assembly of an int
 * from four digest bytes, and binary strings.
 */
module Encoding {
  import opened Bits
  import opened JavaLang
  import opened Words

  // ---------------------------------------------------------------- bytes

  /** The four bytes of a word, most significant first (`ByteBuffer.putInt`). */
  function WordBytes(x: Word): (b: seq<Byte>)
    ensures |b| == 4
  {
    var x1 := x / 0x100;
    var x2 := x1 / 0x100;
    [x2 / 0x100, x2 % 0x100, x1 % 0x100, x % 0x100]
  }

  /** The word whose big-endian bytes are `b` (`ByteBuffer.getInt`). */
  function BytesWord(b: seq<Byte>): Word
    requires |b| == 4
  {
    ((b[0] as int * 0x100 + b[1]) * 0x100 + b[2]) * 0x100 + b[3]
  }

  lemma WordRoundTrip(x: Word)
    ensures BytesWord(WordBytes(x)) == x
  {
  }

  lemma BytesRoundTrip(b: seq<Byte>)
    requires |b| == 4
    ensures WordBytes(BytesWord(b)) == b
  {
    var x2 := b[0] as int * 0x100 + b[1];
    var x1 := x2 * 0x100 + b[2];
    var x := x1 * 0x100 + b[3];
    DivModUnique(x, 0x100, x1, b[3]);
    DivModUnique(x1, 0x100, x2, b[2]);
    DivModUnique(x2, 0x100, b[0], b[1]);
  }

  /** The bytes of a whole filter, word 0 first, each word big-endian. */
  function ToBytes(w: seq<Word>): (b: seq<Byte>)
    ensures |b| == 4 * |w|
  {
    if |w| == 0 then [] else WordBytes(w[0]) + ToBytes(w[1..])
  }

  /** Reads a filter back from its bytes, four at a time. */
  function FromBytes(b: seq<Byte>): (w: seq<Word>)
    requires |b| % 4 == 0
    ensures |w| == |b| / 4
  {
    if |b| == 0 then [] else [BytesWord(b[..4])] + FromBytes(b[4..])
  }

  lemma {:induction false} ToBytesRoundTrip(w: seq<Word>)
    ensures FromBytes(ToBytes(w)) == w
  {
    if |w| > 0 {
      var b := ToBytes(w);
      assert b[..4] == WordBytes(w[0]);
      assert b[4..] == ToBytes(w[1..]);
      WordRoundTrip(w[0]);
      ToBytesRoundTrip(w[1..]);
    }
  }

  lemma {:induction false} FromBytesRoundTrip(b: seq<Byte>)
    requires |b| % 4 == 0
    ensures ToBytes(FromBytes(b)) == b
  {
    if |b| > 0 {
      var w := FromBytes(b);
      assert w[0] == BytesWord(b[..4]);
      assert w[1..] == FromBytes(b[4..]);
      BytesRoundTrip(b[..4]);
      FromBytesRoundTrip(b[4..]);
      assert b == b[..4] + b[4..];
    }
  }

  /** Byte `4 * i + k` of a filter is byte `k` of word `i`. */
  lemma {:induction false} ToBytesAt(w: seq<Word>, i: nat, k: nat)
    requires i < |w| && k < 4
    ensures ToBytes(w)[4 * i + k] == WordBytes(w[i])[k]
  {
    if i > 0 {
      ToBytesAt(w[1..], i - 1, k);
    }
  }

  /**
   * `(b[s+3] & 0xff) << 24 | (b[s+2] & 0xff) << 16 | (b[s+1] & 0xff) << 8 | (b[s] & 0xff)`:
   * the int whose bytes, least significant first, are `b[s..s+4]`. The shifted
   * bytes occupy disjoint bits, so their OR is their sum, wrapped into the int range.
   */
  function LittleEndianInt(b: seq<Byte>, s: nat): (r: Int)
    requires s + 4 <= |b|
    ensures WordBytes(Unsigned(r)) == [b[s + 3], b[s + 2], b[s + 1], b[s]]
  {
    var v := ((b[s + 3] as int * 0x100 + b[s + 2]) * 0x100 + b[s + 1]) * 0x100 + b[s];
    UnsignedWrap(v);
    BytesRoundTrip([b[s + 3], b[s + 2], b[s + 1], b[s]]);
    Wrap(v)
  }

  // ------------------------------------------------------- binary strings

  function Digit(b: bool): char
  {
    if b then '1' else '0'
  }

  predicate IsBinary(s: string)
  {
    forall i | 0 <= i < |s| :: s[i] == '0' || s[i] == '1'
  }

  function Repeat(c: char, n: nat): (s: string)
    ensures |s| == n
  {
    seq(n, _ => c)
  }

  /** The `n` low bits of `x` as binary digits, most significant first. */
  function Digits(x: nat, n: nat): (s: string)
    ensures |s| == n && IsBinary(s)
  {
    if n == 0 then [] else Digits(x / 2, n - 1) + [Digit(x % 2 == 1)]
  }

  /** The number a string of binary digits denotes. */
  function FromDigits(s: string): nat
  {
    if |s| == 0 then 0 else 2 * FromDigits(s[..|s| - 1]) + (if s[|s| - 1] == '1' then 1 else 0)
  }

  /** Character `n - 1 - p` of `Digits(x, n)` shows bit `p` of `x`. */
  lemma {:induction false} DigitsAt(x: nat, n: nat, p: nat)
    requires p < n
    ensures Digits(x, n)[n - 1 - p] == Digit(Bit(x, p))
  {
    if p > 0 {
      DigitsAt(x / 2, n - 1, p - 1);
    }
  }

  /** `n` digits spell every value below `2^n`. */
  lemma {:induction false} DigitsRoundTrip(x: nat, n: nat)
    requires x < Pow2(n)
    ensures FromDigits(Digits(x, n)) == x
  {
    if n > 0 {
      var s := Digits(x, n);
      assert s[..n - 1] == Digits(x / 2, n - 1);
      DigitsRoundTrip(x / 2, n - 1);
    }
  }

  /**
   * Leading zeros removed, keeping at least one digit: applied to the 32 (64)
   * digits of a value this is `Integer.toBinaryString` (`Long.toBinaryString`).
   */
  function StripZeros(s: string): (r: string)
    ensures |r| <= |s|
    ensures |s| >= 1 ==> |r| >= 1 && (r[0] != '0' || |r| == 1)
  {
    if |s| > 1 && s[0] == '0' then StripZeros(s[1..]) else s
  }

  /**
   * Padding the stripped digits with zeros to the original length restores
   * them: only leading zeros were removed.
   */
  lemma {:induction false} PadStrip(s: string)
    ensures Repeat('0', |s| - |StripZeros(s)|) + StripZeros(s) == s
  {
    if |s| > 1 && s[0] == '0' {
      PadStrip(s[1..]);
      var n := |s| - |StripZeros(s)|;
      assert Repeat('0', n) == ['0'] + Repeat('0', n - 1);
      assert s == ['0'] + s[1..];
    }
  }

  /**
   * `toBinaryStringZeroFill`: the binary string of `x` without leading zeros,
   * padded on the left with `'0'` to `width` characters.
   */
  method ZeroFill(x: nat, width: nat) returns (s: string)
    ensures s == Digits(x, width)
  {
    var notFilled := StripZeros(Digits(x, width));
    var sb := "";
    var j := width - |notFilled|;
    while j > 0
      invariant 0 <= j <= width - |notFilled|
      invariant sb == Repeat('0', width - |notFilled| - j)
    {
      sb := sb + "0";
      j := j - 1;
    }
    PadStrip(Digits(x, width));
    s := sb + notFilled;
  }

  /** A filter as binary digits: the last word first, each word bit 31 first. */
  function BinaryString(w: seq<Word>): (s: string)
    ensures |s| == 32 * |w| && IsBinary(s)
  {
    if |w| == 0 then [] else BinaryString(w[1..]) + Digits(w[0], 32)
  }

  /** Character `32 * |w| - 1 - p` of the binary string shows filter position `p`. */
  lemma {:induction false} BinaryStringAt(w: seq<Word>, p: nat)
    requires p < 32 * |w|
    ensures BinaryString(w)[32 * |w| - 1 - p] == Digit(BitAt(w, p))
  {
    var rest := BinaryString(w[1..]);
    if p < 32 {
      DigitsAt(w[0], 32, p);
      assert BinaryString(w)[32 * |w| - 1 - p] == Digits(w[0], 32)[31 - p];
    } else {
      BinaryStringAt(w[1..], p - 32);
      assert BinaryString(w)[32 * |w| - 1 - p] == rest[32 * |w[1..]| - 1 - (p - 32)];
      assert (p - 32) / 32 == p / 32 - 1 && (p - 32) % 32 == p % 32;
    }
  }
}

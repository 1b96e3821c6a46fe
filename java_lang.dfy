/**
 * The parts of Java's `int` arithmetic and of its exceptions that the Bloom
 * filter code relies on.
 *
 * A Java `int` is a Dafny `int` restricted to the 32-bit two's complement range.
 * Java's bitwise `&` on two ints works on the unsigned reading of their 32 bits.
 */
module JavaLang {
  import opened Bits

  const MIN_INT: int := -0x8000_0000
  const MAX_INT: int := 0x7FFF_FFFF
  const TWO_32: int := 0x1_0000_0000

  /** A value of the Java type `int`. */
  type Int = x: int | MIN_INT <= x <= MAX_INT

  /** The 32 bits of an `int` (or of an element of an `int[]`) read unsigned. */
  type Word = x: nat | x < TWO_32

  /** The 64 bits of a `long` read unsigned. */
  type LongWord = x: nat | x < 0x1_0000_0000_0000_0000

  /** A byte, as the value `b & 0xff` in `0..255`. */
  type Byte = b: nat | b < 0x100

  /** The exceptions thrown by the modelled code. */
  datatype Exception = IllegalArgument | UnsupportedOperation

  /** A call that either returns a value or throws. */
  datatype Result<+T> = Success(value: T) | Failure(error: Exception)

  /**
   * What a Java int expression yields for the mathematical value `x`: the int
   * congruent to `x` modulo 2^32 (overflow wraps around).
   */
  function Wrap(x: int): (r: Int)
    ensures (r - x) % TWO_32 == 0
    ensures MIN_INT <= x <= MAX_INT ==> r == x
  {
    var u := x % TWO_32;
    if u <= MAX_INT then u else u - TWO_32
  }

  /** The 32 bits of an int read as an unsigned number. */
  function Unsigned(x: Int): (u: Word)
    ensures 0 <= x ==> u == x
    ensures x < 0 ==> u == x + TWO_32
  {
    x % TWO_32
  }

  /** Java's `x & y` on two ints. */
  function And(x: Int, y: Int): (r: Int)
    ensures 0 <= y ==> 0 <= r <= y
  {
    Wrap(BitAnd(Unsigned(x), Unsigned(y)))
  }

  /** Reading back the 32 bits of a wrapped value in `[0, 2^32)` gives the value. */
  lemma UnsignedWrap(v: int)
    requires 0 <= v < TWO_32
    ensures Unsigned(Wrap(v)) == v
  {
  }
}

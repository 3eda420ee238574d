/** Small shared vocabulary: Java's signed byte, the exceptions the storage
    layer raises, and Option/Result wrappers standing in for null and throw. */
module Util {

  /** A Java `byte`: a signed 8-bit value. */
  newtype int8 = x: int | -128 <= x < 128

  /** The Java exceptions raised by the storage layer. */
  datatype Error =
    | IOError            // java.io.IOException (EOFException on a short read)
    | NullPointer        // java.lang.NullPointerException
    | NoSuchElement      // java.util.NoSuchElementException
    | IllegalArgument    // java.lang.IllegalArgumentException
    | IndexOutOfBounds   // java.lang.ArrayIndexOutOfBoundsException
    | ParseError         // java.text.ParseException

  /** A possibly-null reference or value. */
  datatype Option<+T> = None | Some(value: T) {
    function GetOr(default: T): T {
      match this
      case Some(v) => v
      case None => default
    }
  }

  /** A value or the exception thrown instead of returning it. */
  datatype Result<+T> = Ok(value: T) | Err(error: Error)

  /** `n` zero bytes, as `new byte[n]` allocates them. */
  function Zeros(n: nat): (z: seq<int8>)
    ensures |z| == n
    ensures forall k :: 0 <= k < n ==> z[k] == 0
  {
    seq(n, _ => 0)
  }

  function Pow2(k: nat): (p: nat)
    ensures p >= 1
  {
    if k == 0 then 1 else 2 * Pow2(k - 1)
  }

  /** Java's `/` on `int`: truncates toward zero (Dafny's `/` is Euclidean). */
  function JavaDiv(a: int, b: int): (q: int)
    requires b > 0
    ensures a >= 0 ==> 0 <= q * b <= a < q * b + b
    ensures a < 0 ==> q * b - b < a <= q * b <= 0
  {
    if a >= 0 then
      DivBounds(a, b);
      a / b
    else
      DivBounds(-a, b);
      NegMul((-a) / b, b);
      -((-a) / b)
  }

  /** Euclidean division of a natural number brackets it between two
      consecutive multiples of the divisor. */
  lemma DivBounds(a: nat, b: int)
    requires b > 0
    ensures 0 <= (a / b) * b <= a < (a / b) * b + b
  {
    var q := a / b;
    var r := a % b;
    assert a == q * b + r && 0 <= r < b;
    assert q >= 0;
  }

  lemma NegMul(m: int, b: int)
    ensures (-m) * b == -(m * b)
  {
  }

  /** Java's `%` on `int`: the remainder takes the sign of the dividend. */
  function JavaRem(a: int, b: int): (r: int)
    requires b > 0
    ensures a == JavaDiv(a, b) * b + r
    ensures -b < r < b
    ensures a >= 0 ==> 0 <= r
    ensures a < 0 ==> r <= 0
  {
    a - JavaDiv(a, b) * b
  }

  /** The narrowing cast `(byte) x` of a Java `int`: keep the low 8 bits and
      read them as two's complement. */
  function ToByte(x: int): (b: int8)
    ensures (b as int - x) % 256 == 0
  {
    var m := x % 256;
    if m >= 128 then (m - 256) as int8 else m as int8
  }

  /** The unsigned value 0..255 of the bit pattern of a Java byte. */
  function Unsigned(b: int8): (u: int)
    ensures 0 <= u < 256
    ensures (u - b as int) % 256 == 0
  {
    if b < 0 then b as int + 256 else b as int
  }

  // Small facts about sequences and products, stated once so that larger
  // proofs can cite them instead of rediscovering them.

  lemma AppendOne<T>(a: seq<T>, x: T, b: seq<T>)
    ensures (a + [x]) + b == a + ([x] + b)
  {
  }

  lemma HeadTail<T>(s: seq<T>)
    requires s != []
    ensures s == [s[0]] + s[1..]
  {
  }

  lemma MulMonotone(i: nat, j: nat, l: nat)
    requires i <= j
    ensures i * l <= j * l
  {
  }

  lemma MulSucc(i: int, l: int)
    ensures (i + 1) * l == i * l + l
  {
  }
}

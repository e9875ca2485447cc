/**
 The slice of Java semantics the comparator and the matrix utilities rely on:
 32-bit `int` arithmetic, signed `byte` values, the boxed `compareTo`
 methods, and the exceptions the modelled code can raise, carried as values.
 */
module Java {

  const INT_MIN: int := -0x8000_0000
  const INT_MAX: int := 0x7fff_ffff

  /** A Java `int`. */
  type Int32 = x: int | INT_MIN <= x <= INT_MAX

  /** A Java `byte`: signed, -128..127. */
  type Byte = b: int | -128 <= b < 128

  /** The exceptions the modelled code can raise. */
  datatype Exception =
    | ArrayIndexOutOfBounds   // an array read or write outside [0, length)
    | NegativeArraySize       // `new T[n]` with n < 0
    | NoVectors               // the IOException `read` raises on empty input

  /** A value, or the exception that ended the computation. */
  datatype Result<+T> = Ok(value: T) | Throws(exception: Exception) {

    predicate IsFailure() {
      Throws?
    }

    function PropagateFailure<U>(): Result<U>
      requires Throws?
    {
      Throws(exception)
    }

    function Extract(): T
      requires Ok?
    {
      value
    }
  }

  datatype Option<+T> = None | Some(value: T)

  /** The result of Java `int` addition/increment: reduce modulo 2^32 into the int range. */
  function Wrap32(x: int): (r: Int32)
    ensures INT_MIN <= x <= INT_MAX ==> r == x
    ensures (r - x) % 0x1_0000_0000 == 0
  {
    (x - INT_MIN) % 0x1_0000_0000 + INT_MIN
  }

  /** `b & 0xff`: the unsigned value of a byte. */
  function Unsigned(b: Byte): (u: int)
    ensures 0 <= u < 256
    ensures b >= 0 ==> u == b
    ensures b < 0 ==> u == b + 256
  {
    if b < 0 then b + 256 else b
  }

  /** `(byte) u` for an unsigned byte value. */
  function Signed(u: int): (b: Byte)
    requires 0 <= u < 256
    ensures Unsigned(b) == u
  {
    if u < 128 then u else u - 256
  }

  /** `Integer.compareTo`: -1, 0 or 1, never the difference. */
  function IntegerCompare(x: Int32, y: Int32): (r: int)
    ensures r == -1 || r == 0 || r == 1
    ensures r < 0 <==> x < y
    ensures r == 0 <==> x == y
    ensures r > 0 <==> x > y
  {
    if x < y then -1 else if x == y then 0 else 1
  }

  /** `Byte.compareTo`: the signed difference of the two byte values, not just its sign. */
  function ByteCompare(x: Byte, y: Byte): (r: int)
    ensures r == x - y
    ensures -255 <= r <= 255
    ensures r < 0 <==> x < y
    ensures r == 0 <==> x == y
  {
    x - y
  }
}

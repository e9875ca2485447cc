/**
 Big-endian 32-bit integers in byte arrays, the `java.io.DataInput` /
 `DataOutput` convention that Hadoop's `WritableComparator.readInt` follows:
 the four bytes, most significant first, each taken as `b & 0xff`, shifted
 and summed in 32-bit `int` arithmetic.
 */
module BigEndian {
  import opened Java

  /** The four bytes at `start` as an unsigned 32-bit quantity. */
  function UnsignedAt(bytes: seq<Byte>, start: int): (u: int)
    requires 0 <= start && start + 4 <= |bytes|
    ensures 0 <= u < 0x1_0000_0000
  {
    Unsigned(bytes[start]) * 0x100_0000 + Unsigned(bytes[start + 1]) * 0x1_0000
      + Unsigned(bytes[start + 2]) * 0x100 + Unsigned(bytes[start + 3])
  }

  /** True when the four bytes at `start` lie inside the array. */
  predicate IntInBounds(bytes: seq<Byte>, start: int) {
    0 <= start && start + 4 <= |bytes|
  }

  /**
   `readInt(bytes, start)`. Indexing outside the array raises
   ArrayIndexOutOfBoundsException.
   */
  function ReadInt(bytes: seq<Byte>, start: int): (r: Result<Int32>)
    ensures r.Ok? <==> IntInBounds(bytes, start)
    ensures r.Throws? ==> r.exception == ArrayIndexOutOfBounds
    ensures r.Ok? ==> (r.value < 0 <==> bytes[start] < 0)
  {
    if !IntInBounds(bytes, start) then Throws(ArrayIndexOutOfBounds)
    else Ok(Wrap32(UnsignedAt(bytes, start)))
  }

  /** `writeInt(x)`: the four big-endian bytes of a Java int. */
  function WriteInt(x: Int32): (bytes: seq<Byte>)
    ensures |bytes| == 4
  {
    var u := if x < 0 then x + 0x1_0000_0000 else x;
    [Signed(u / 0x100_0000), Signed(u / 0x1_0000 % 0x100),
     Signed(u / 0x100 % 0x100), Signed(u % 0x100)]
  }

  /** `ReadInt` sees only the four bytes it reads. */
  lemma ReadIntOfSlice(bytes: seq<Byte>, start: int)
    requires IntInBounds(bytes, start)
    ensures ReadInt(bytes, start) == ReadInt(bytes[start..start + 4], 0)
  {
    var w := bytes[start..start + 4];
    assert w[0] == bytes[start] && w[1] == bytes[start + 1];
    assert w[2] == bytes[start + 2] && w[3] == bytes[start + 3];
  }

  /** Reading back what `WriteInt` wrote gives the same int, wherever it sits. */
  lemma ReadWriteInt(prefix: seq<Byte>, x: Int32, suffix: seq<Byte>)
    ensures ReadInt(prefix + WriteInt(x) + suffix, |prefix|) == Ok(x)
  {
    var bytes := prefix + WriteInt(x) + suffix;
    var w := WriteInt(x);
    assert bytes[|prefix|..|prefix| + 4] == w;
    ReadIntOfSlice(bytes, |prefix|);
    var u := if x < 0 then x + 0x1_0000_0000 else x;
    Recompose(u);
    assert UnsignedAt(w, 0) == u;
  }

  /** An unsigned 32-bit quantity is the sum of its big-endian digits. */
  lemma Recompose(u: int)
    requires 0 <= u < 0x1_0000_0000
    ensures u == u / 0x100_0000 * 0x100_0000 + u / 0x1_0000 % 0x100 * 0x1_0000
                 + u / 0x100 % 0x100 * 0x100 + u % 0x100
  {
    var q1 := u / 0x100;
    var q2 := q1 / 0x100;
    var q3 := q2 / 0x100;
    assert u == q1 * 0x100 + u % 0x100;
    assert q1 == q2 * 0x100 + q1 % 0x100;
    assert q2 == q3 * 0x100 + q2 % 0x100;
    assert q2 == u / 0x1_0000;
    assert q3 == u / 0x100_0000;
  }

  /** Splitting a value into a quotient and a remainder below 256. */
  lemma DivMod256(n: int, q: int, r: int)
    requires 0 <= r < 0x100 && n == q * 0x100 + r
    ensures n / 0x100 == q && n % 0x100 == r
  {
  }

  /** The big-endian digits of an unsigned 32-bit quantity are its bytes. */
  lemma Digits(b0: int, b1: int, b2: int, b3: int)
    requires 0 <= b0 < 0x100 && 0 <= b1 < 0x100 && 0 <= b2 < 0x100 && 0 <= b3 < 0x100
    ensures var u := b0 * 0x100_0000 + b1 * 0x1_0000 + b2 * 0x100 + b3;
      && u / 0x100_0000 == b0 && u / 0x1_0000 % 0x100 == b1
      && u / 0x100 % 0x100 == b2 && u % 0x100 == b3
  {
    var u := b0 * 0x100_0000 + b1 * 0x1_0000 + b2 * 0x100 + b3;
    var u1 := b0 * 0x1_0000 + b1 * 0x100 + b2;
    var u2 := b0 * 0x100 + b1;
    DivMod256(u, u1, b3);
    DivMod256(u1, u2, b2);
    DivMod256(u2, b0, b1);
    assert u / 0x1_0000 == u1 / 0x100;
    assert u / 0x100_0000 == u2 / 0x100;
  }

  /** Writing back what `ReadInt` read reproduces the four bytes. */
  lemma WriteReadInt(bytes: seq<Byte>, start: int)
    requires IntInBounds(bytes, start)
    ensures WriteInt(ReadInt(bytes, start).value) == bytes[start..start + 4]
  {
    var u := UnsignedAt(bytes, start);
    var x: int := ReadInt(bytes, start).value;
    assert (if x < 0 then x + 0x1_0000_0000 else x) == u;
    Digits(Unsigned(bytes[start]), Unsigned(bytes[start + 1]),
      Unsigned(bytes[start + 2]), Unsigned(bytes[start + 3]));
  }
}

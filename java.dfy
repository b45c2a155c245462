/**
 * The parts of Java's value semantics that the Chop engine relies on: signed
 * bytes, the narrowing cast, truncating integer division, big-endian
 * `ByteBuffer.getInt`/`putLong`/`getLong`, and the exceptions the engine can
 * raise.
 */
module Java {

  /** A Java `byte`: a two's-complement value in -128..127. */
  type JByte = b: int | -128 <= b < 128

  /** A Java `byte[]`. */
  type Bytes = seq<JByte>

  /** `Byte.MAX_VALUE`. */
  const BYTE_MAX: int := 127
  /** `Byte.BYTES` and `Long.BYTES`. */
  const BYTE_BYTES: nat := 1
  const LONG_BYTES: nat := 8

  const INT_MIN: int := -0x8000_0000
  const INT_MAX: int := 0x7fff_ffff
  const LONG_MIN: int := -0x8000_0000_0000_0000
  const LONG_MAX: int := 0x7fff_ffff_ffff_ffff

  /** A Java `long`, such as a `System.currentTimeMillis()` reading. */
  type Long = x: int | LONG_MIN <= x <= LONG_MAX

  /** The exceptions the engine throws, caught or not. */
  datatype Exception =
    | IOException(message: string)
    | ArrayIndexOutOfBounds
    | IndexOutOfBounds
    | StringIndexOutOfBounds
    | UnsupportedOperation
    | NegativeArraySize
    | IllegalArgument
    | BufferUnderflow
    | BufferOverflow
    | NullPointer

  /** The narrowing cast `(byte) x`: the low eight bits of x, read as a signed byte. */
  function ToByte(x: int): (b: JByte)
    ensures (x - b) % 256 == 0
    ensures -128 <= x < 128 ==> b == x
  {
    var m := x % 256;
    if m < 128 then m else m - 256
  }

  /** The value of a byte read as unsigned, as it travels on the wire. */
  function Unsigned(b: JByte): (u: nat)
    ensures u < 256 && ToByte(u) == b
    ensures (u - b) % 256 == 0
  {
    if b < 0 then b + 256 else b
  }

  /** Java's `a / b` for a positive divisor: the quotient is rounded toward zero. */
  function JavaDiv(a: int, b: int): int
    requires b > 0
  {
    if a >= 0 then a / b else -((-a) / b)
  }

  /** Java's `a % b` for a positive divisor: the remainder takes the sign of `a`. */
  function JavaRem(a: int, b: int): int
    requires b > 0
  {
    if a >= 0 then a % b else -((-a) % b)
  }

  /** The identity Java guarantees for `/` and `%`, with the remainder's sign following the dividend. */
  lemma JavaDivRem(a: int, b: int)
    requires b > 0
    ensures JavaDiv(a, b) * b + JavaRem(a, b) == a
    ensures a >= 0 ==> 0 <= JavaRem(a, b) < b
    ensures a < 0 ==> -b < JavaRem(a, b) <= 0
  {
  }

  /** A positive multiple of d is at least d. */
  lemma {:induction false} MulAtLeast(k: int, d: nat)
    requires k >= 1
    ensures k * d >= d
    decreases k
  {
    if k > 1 {
      MulAtLeast(k - 1, d);
      assert k * d == (k - 1) * d + d;
    }
  }

  /** Squaring is monotone on positive numbers. */
  lemma SquareMonotone(i: int, j: int)
    requires 1 <= i <= j
    ensures i * i <= j * j
  {
    if i < j {
      MulAtLeast(j - i, i);
      MulAtLeast(j - i, j);
      assert j * j - i * i == (j - i) * i + (j - i) * j;
    }
  }

  /** Quotient and remainder are the only pair with `x == q * d + r` and `0 <= r < d`. */
  lemma DivModUnique(x: int, d: int, q: int, r: int)
    requires d > 0 && 0 <= r < d && x == q * d + r
    ensures x / d == q && x % d == r
  {
    var q', r' := x / d, x % d;
    assert x == q' * d + r' && 0 <= r' < d;
    if q' < q {
      assert (q - q') * d == r' - r;
      MulAtLeast(q - q', d);
    } else if q < q' {
      assert (q' - q) * d == r - r';
      MulAtLeast(q' - q, d);
    }
  }

  function Pow256(n: nat): (p: nat)
    ensures p >= 1
  {
    if n == 0 then 1 else 256 * Pow256(n - 1)
  }

  /** The unsigned value of a big-endian byte string. */
  function BigEndian(bs: Bytes): (u: nat)
    ensures u < Pow256(|bs|)
  {
    if bs == [] then 0
    else
      var hi := BigEndian(bs[..|bs| - 1]);
      assert hi <= Pow256(|bs| - 1) - 1;
      assert hi * 256 <= Pow256(|bs|) - 256;
      hi * 256 + Unsigned(bs[|bs| - 1])
  }

  /** The n low-order bytes of u, most significant first. */
  function ToBigEndian(u: nat, n: nat): (bs: Bytes)
    ensures |bs| == n
  {
    if n == 0 then [] else ToBigEndian(u / 256, n - 1) + [ToByte(u % 256)]
  }

  lemma {:induction false} BigEndianRoundTrip(u: nat, n: nat)
    requires u < Pow256(n)
    ensures BigEndian(ToBigEndian(u, n)) == u
  {
    if n > 0 {
      var bs := ToBigEndian(u, n);
      assert u / 256 < Pow256(n - 1);
      BigEndianRoundTrip(u / 256, n - 1);
      assert bs[..n - 1] == ToBigEndian(u / 256, n - 1);
      assert bs[n - 1] == ToByte(u % 256);
      UnsignedToByte(u % 256);
    }
  }

  /** A byte value cast to `byte` and read back unsigned is unchanged. */
  lemma UnsignedToByte(m: int)
    requires 0 <= m < 256
    ensures Unsigned(ToByte(m)) == m
  {
    DivModUnique(m, 256, 0, m);
  }

  lemma {:induction false} ToBigEndianInverse(bs: Bytes)
    ensures ToBigEndian(BigEndian(bs), |bs|) == bs
  {
    if bs != [] {
      var n := |bs|;
      var hi := BigEndian(bs[..n - 1]);
      var lo := Unsigned(bs[n - 1]);
      DivModUnique(hi * 256 + lo, 256, hi, lo);
      ToBigEndianInverse(bs[..n - 1]);
      assert bs == bs[..n - 1] + [bs[n - 1]];
    }
  }

  /** `ByteBuffer.getInt`: four bytes, big-endian, as a signed 32-bit value. */
  function GetInt(bs: Bytes): int
    requires |bs| >= 4
  {
    var u := BigEndian(bs[..4]);
    if u > INT_MAX then u - Pow256(4) else u
  }

  /** `ByteBuffer.putInt`: the four bytes of a signed 32-bit value, big-endian. */
  function PutInt(v: int): Bytes
    requires INT_MIN <= v <= INT_MAX
  {
    ToBigEndian(if v < 0 then v + Pow256(4) else v, 4)
  }

  /** `ByteBuffer.putLong`: the eight bytes of a signed 64-bit value, big-endian. */
  function PutLong(v: int): Bytes
    requires LONG_MIN <= v <= LONG_MAX
  {
    ToBigEndian(if v < 0 then v + Pow256(8) else v, 8)
  }

  /** `ByteBuffer.getLong`: eight bytes, big-endian, as a signed 64-bit value. */
  function GetLong(bs: Bytes): int
    requires |bs| >= 8
  {
    var u := BigEndian(bs[..8]);
    if u > LONG_MAX then u - Pow256(8) else u
  }

  /** `getInt` undoes `putInt` and `putInt` undoes `getInt`. */
  lemma IntRoundTrip(bs: Bytes)
    requires |bs| == 4
    ensures INT_MIN <= GetInt(bs) <= INT_MAX && PutInt(GetInt(bs)) == bs
  {
    assert Pow256(4) == 0x1_0000_0000;
    assert bs[..4] == bs;
    ToBigEndianInverse(bs);
  }

  /** A time stamp written with `putLong` is read back unchanged by `getLong`. */
  lemma LongRoundTrip(v: int)
    requires LONG_MIN <= v <= LONG_MAX
    ensures |PutLong(v)| == LONG_BYTES && GetLong(PutLong(v)) == v
  {
    assert Pow256(8) == 0x1_0000_0000_0000_0000;
    var u := if v < 0 then v + Pow256(8) else v;
    BigEndianRoundTrip(u, 8);
    assert PutLong(v)[..8] == PutLong(v);
  }
}

/** Bytes, 32-bit words and Java integer arithmetic as the reader sees them.

    The index file is a sequence of bytes read in little-endian order. A float
    is kept as its IEEE-754 bit pattern: the reader never does arithmetic on
    the floats it reads, it only copies them and tests them against zero. */
module Words {

  type Byte = b: int | 0 <= b < 256

  /** The bit pattern of a 32-bit IEEE-754 float. */
  type Float32 = x: int | 0 <= x < 0x1_0000_0000

  /** Integer.MAX_VALUE */
  const IntMax: int := 0x7fff_ffff

  /** Bit patterns of +0.0f and -0.0f: the only floats for which `x != 0` is false in Java. */
  const PositiveZero: Float32 := 0
  const NegativeZero: Float32 := 0x8000_0000

  /** Java's `/` on integers: truncates toward zero. */
  function JavaDiv(a: int, d: int): (q: int)
    requires d > 0
    ensures a >= 0 ==> q == a / d
    ensures a < 0 ==> q <= 0 && d * q >= a && d * q < a + d
  {
    if a >= 0 then a / d else -((-a) / d)
  }

  /** Java's `%` on integers: the remainder takes the sign of the dividend. */
  function JavaRem(a: int, d: int): (r: int)
    requires d > 0
    ensures a == d * JavaDiv(a, d) + r
    ensures a >= 0 ==> r == a % d
    ensures a < 0 ==> -d < r <= 0
  {
    a - d * JavaDiv(a, d)
  }

  /** The value Java's 32-bit int arithmetic gives for the exact result x:
      the int congruent to x modulo 2^32. */
  function WrapInt(x: int): (r: int)
    ensures -0x8000_0000 <= r <= IntMax
    ensures (x - r) % 0x1_0000_0000 == 0
    ensures -0x8000_0000 <= x <= IntMax ==> r == x
  {
    (x + 0x8000_0000) % 0x1_0000_0000 - 0x8000_0000
  }

  /** `ByteBuffer.getInt(i)` in little-endian order, unsigned. */
  function UInt32At(s: seq<Byte>, i: int): (u: int)
    requires 0 <= i && i + 4 <= |s|
    ensures 0 <= u < 0x1_0000_0000
  {
    var b0: int, b1: int, b2: int, b3: int := s[i], s[i + 1], s[i + 2], s[i + 3];
    b0 + 0x100 * b1 + 0x1_0000 * b2 + 0x100_0000 * b3
  }

  /** `ByteBuffer.getInt(i)` in little-endian order: a signed 32-bit int. */
  function Int32At(s: seq<Byte>, i: int): (k: int)
    requires 0 <= i && i + 4 <= |s|
    ensures -0x8000_0000 <= k <= IntMax
    ensures k >= 0 ==> k == UInt32At(s, i)
    ensures k < 0 ==> k + 0x1_0000_0000 == UInt32At(s, i)
  {
    var u := UInt32At(s, i);
    if u < 0x8000_0000 then u else u - 0x1_0000_0000
  }

  /** `ByteBuffer.getFloat(i)` in little-endian order, as a bit pattern: the
      same four bytes `getInt(i)` reads, taken as unsigned. */
  function Float32At(s: seq<Byte>, i: int): (x: Float32)
    requires 0 <= i && i + 4 <= |s|
    ensures Int32At(s, i) == if x < 0x8000_0000 then x else x - 0x1_0000_0000
  {
    UInt32At(s, i)
  }

  /** Reading a word out of a slice of a sequence reads the same bytes as reading
      it from the sequence at the shifted position. */
  lemma SliceWord(s: seq<Byte>, lo: int, hi: int, i: int)
    requires 0 <= lo <= hi <= |s|
    requires 0 <= i && i + 4 <= hi - lo
    ensures Int32At(s[lo..hi], i) == Int32At(s, lo + i)
    ensures Float32At(s[lo..hi], i) == Float32At(s, lo + i)
  {
    var t := s[lo..hi];
    assert t[i] == s[lo + i] && t[i + 1] == s[lo + i + 1];
    assert t[i + 2] == s[lo + i + 2] && t[i + 3] == s[lo + i + 3];
  }

  /** Java's `v[i] != 0` is false exactly for the two zero bit patterns. */
  predicate IsZeroFloat(x: Float32)
  {
    x == PositiveZero || x == NegativeZero
  }

  /** Every element of the vector is a zero (of either sign). */
  predicate ZeroVector(v: seq<Float32>)
  {
    forall i :: 0 <= i < |v| ==> IsZeroFloat(v[i])
  }

  /** isZeroVec: scans the vector and stops at the first non-zero element. */
  method IsZeroVec(v: seq<Float32>) returns (z: bool)
    ensures z <==> ZeroVector(v)
    ensures !z ==> exists i :: 0 <= i < |v| && !IsZeroFloat(v[i])
  {
    var i := 0;
    while i < |v|
      invariant 0 <= i <= |v|
      invariant forall k :: 0 <= k < i ==> IsZeroFloat(v[k])
    {
      if !IsZeroFloat(v[i]) {
        return false;
      }
      i := i + 1;
    }
    return true;
  }
}

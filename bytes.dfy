/** Byte-level conventions shared by the codec: what a JavaScript `Uint8Array`
    stores, little-endian integers, the `>>>` operator, and the zero-filled
    view of a buffer that `enlarge` produces. */
module Bytes {

  /** One element of a `Uint8Array`. */
  type byte = x: int | 0 <= x < 256

  const TwoTo32: int := 0x1_0000_0000

  /** The value a `Uint8Array` element holds after `a[i] = x` for an integer
      `x`: JavaScript's ToUint8 is reduction modulo 256 (Euclidean). */
  function ToByte(x: int): byte { x % 256 }

  /** `x >>> 8` in JavaScript for an integer `x`: ToUint32 (reduction modulo
      2^32) followed by a logical shift. */
  function ShiftRight8(x: int): (r: int)
    ensures 0 <= r < 0x100_0000
  {
    (x % TwoTo32) / 256
  }

  /** On a number that already fits in 32 bits the shift is a division. */
  lemma ShiftSmall(w: int)
    requires 0 <= w < TwoTo32
    ensures ShiftRight8(w) == w / 256
  {
  }

  /** The unsigned little-endian value of a byte string. */
  function LEValue(bs: seq<byte>): nat
  {
    if |bs| == 0 then 0 else bs[0] + 256 * LEValue(bs[1..])
  }

  /** The `k` least significant base-256 digits of `u`, least significant
      first. */
  function LEBytes(u: nat, k: nat): (r: seq<byte>)
    ensures |r| == k
    decreases k
  {
    if k == 0 then [] else [u % 256] + LEBytes(u / 256, k - 1)
  }

  function Pow256(k: nat): (p: nat)
    ensures p > 0
  {
    if k == 0 then 1 else 256 * Pow256(k - 1)
  }

  /** Digits that cover the whole number read back as that number. */
  lemma {:induction false} LEValueOfLEBytes(u: nat, k: nat)
    requires u < Pow256(k)
    ensures LEValue(LEBytes(u, k)) == u
    decreases k
  {
    if k > 0 {
      assert u / 256 < Pow256(k - 1);
      LEValueOfLEBytes(u / 256, k - 1);
      assert LEBytes(u, k)[1..] == LEBytes(u / 256, k - 1);
    }
  }

  /** Conversely, a byte string is the digits of its own value. */
  lemma {:induction false} LEBytesOfLEValue(x: seq<byte>)
    ensures LEBytes(LEValue(x), |x|) == x
    decreases |x|
  {
    if |x| > 0 {
      var n := LEValue(x);
      assert n == x[0] + 256 * LEValue(x[1..]);
      assert n % 256 == x[0] && n / 256 == LEValue(x[1..]);
      LEBytesOfLEValue(x[1..]);
      assert x == [x[0]] + x[1..];
    }
  }

  /** The value of seven little-endian bytes, spelt out as the source
      writes it with explicit powers of 256. */
  lemma LEValue7(x: seq<byte>)
    requires |x| == 7
    ensures LEValue(x) == x[6] as int * 0x1_0000_0000_0000 + x[5] as int * 0x100_0000_0000
                        + x[4] as int * 0x1_0000_0000 + x[3] as int * 0x100_0000
                        + x[2] as int * 0x1_0000 + x[1] as int * 256 + x[0] as int
  {
    var x1, x2, x3, x4, x5, x6 := x[1..], x[2..], x[3..], x[4..], x[5..], x[6..];
    assert x1[1..] == x2 && x2[1..] == x3 && x3[1..] == x4 && x4[1..] == x5 && x5[1..] == x6;
    assert x6[1..] == [];
    assert LEValue(x6) == x[6];
    assert LEValue(x5) == x[5] + 256 * LEValue(x6);
    assert LEValue(x4) == x[4] + 256 * LEValue(x5);
    assert LEValue(x3) == x[3] + 256 * LEValue(x4);
    assert LEValue(x2) == x[2] + 256 * LEValue(x3);
    assert LEValue(x1) == x[1] + 256 * LEValue(x2);
  }

  /** The value of four little-endian bytes, spelt out. */
  lemma LEValue4(x: seq<byte>)
    requires |x| == 4
    ensures LEValue(x) == x[3] as int * 16777216 + x[2] as int * 65536 + x[1] as int * 256 + x[0] as int
  {
    var x1, x2, x3 := x[1..], x[2..], x[3..];
    assert x1[1..] == x2 && x2[1..] == x3 && x3[1..] == [];
    assert LEValue(x3) == x[3];
    assert LEValue(x2) == x[2] + 256 * LEValue(x3);
    assert LEValue(x1) == x[1] + 256 * LEValue(x2);
  }

  lemma Pow256Of7()
    ensures Pow256(7) == 0x100_0000_0000_0000
  {
    assert Pow256(1) == 256;
    assert Pow256(3) == 0x100_0000;
    assert Pow256(5) == 0x100_0000_0000;
  }

  /** The four bytes that the source's recurring sequence
      `putByte(n); n >>>= 8; putByte(n); n >>>= 8; putByte(n); putByte(n >>> 8)`
      stores. */
  function LE4(n: int): (r: seq<byte>)
    ensures |r| == 4
  {
    [ToByte(n), ToByte(ShiftRight8(n)), ToByte(ShiftRight8(ShiftRight8(n))),
     ToByte(ShiftRight8(ShiftRight8(ShiftRight8(n))))]
  }

  /** The two bytes of `putByte(n); putByte(n >>> 8)`. */
  function LE2(n: int): (r: seq<byte>)
    ensures |r| == 2
  {
    [ToByte(n), ToByte(ShiftRight8(n))]
  }

  /** The value of four little-endian bytes as the source computes it when
      reading a length: `b[3] * 16777216 + b[2] * 65536 + b[1] * 256 + b[0]`. */
  function Uint32Of(b0: byte, b1: byte, b2: byte, b3: byte): (r: nat)
    ensures r < TwoTo32
  {
    b3 * 16777216 + b2 * 65536 + b1 * 256 + b0
  }

  /** One step of `>>> 8` on a value that already fits in 32 bits: the
      low byte splits off and the rest is the quotient. */
  lemma ShiftStep(x: int)
    requires 0 <= x < TwoTo32
    ensures ShiftRight8(x) == x / 256 && x == 256 * (x / 256) + ToByte(x)
  {
  }

  /** Reduction modulo 2^32 keeps the low byte. */
  lemma LowByteMod32(n: int)
    ensures ToByte(n % TwoTo32) == ToByte(n)
  {
    var q, r := n / TwoTo32, n % TwoTo32;
    assert n == TwoTo32 * q + r;
    var s, b := r / 256, r % 256;
    assert r == 256 * s + b;
    assert n == 256 * (16777216 * q + s) + b;
  }

  /** Reading four bytes written by `LE4(n)` gives back `n` modulo 2^32. */
  lemma LE4RoundTrip(n: int)
    ensures Uint32Of(LE4(n)[0], LE4(n)[1], LE4(n)[2], LE4(n)[3]) == n % TwoTo32
  {
    var r := n % TwoTo32;
    LowByteMod32(n);
    assert r % TwoTo32 == r;
    var t1 := ShiftRight8(n);
    assert t1 == r / 256;
    var t2 := ShiftRight8(t1);
    var t3 := ShiftRight8(t2);
    ShiftStep(r);
    ShiftStep(t1);
    ShiftStep(t2);
    assert ToByte(t3) == t3;
    assert LE4(n) == [ToByte(r), ToByte(t1), ToByte(t2), t3];
  }
}

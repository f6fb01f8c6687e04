/** `RPCInt64`, `RPCUint64` and `RPCFloat64` (src/types.ts): wrappers that
    carry a JavaScript-safe integer, or, for a 64-bit value that is not one,
    its exact eight wire bytes. */
module Types {
  import opened Bytes

  /** 2^53 - 1, JavaScript's `Number.MAX_SAFE_INTEGER`. */
  const MaxSafe: int := 0x1F_FFFF_FFFF_FFFF
  const TwoTo48: int := 0x1_0000_0000_0000
  const TwoTo53: int := 0x20_0000_0000_0000

  /** A JavaScript number, as far as these classes inspect it: an integer,
      or anything else (NaN, an infinity, a fraction). */
  datatype Num = Integer(i: int) | NotAnInteger

  /** `Number.isSafeInteger`. */
  predicate IsSafeInteger(n: Num)
  {
    n.Integer? && -MaxSafe <= n.i <= MaxSafe
  }

  type SafeInt = v: int | -MaxSafe <= v <= MaxSafe
  type SafeNat = v: int | 0 <= v <= MaxSafe

  /** The eight bytes of a 64-bit payload. */
  type Bits64 = b: seq<byte> | |b| == 8 witness [0, 0, 0, 0, 0, 0, 0, 0]

  /** The three states an `RPCInt64` can be in: a safe integer (empty
      `bytes`), the NaN marker carrying eight raw bytes, or the NaN marker
      with empty `bytes`. */
  datatype Int64 = Safe(value: SafeInt) | Raw(bytes: Bits64) | Invalid
  {
    /** `toNumber()`: the integer, or NaN. */
    function ToNumber(): Num
    {
      if Safe? then Integer(value) else NotAnInteger
    }

    /** `getBytes()`: the raw bytes, empty unless this is `Raw`. */
    function GetBytes(): seq<byte>
    {
      if Raw? then bytes else []
    }
  }

  /** The same three states for an `RPCUint64`. */
  datatype Uint64 = USafe(value: SafeNat) | URaw(bytes: Bits64) | UInvalid
  {
    function ToNumber(): Num
    {
      if USafe? then Integer(value) else NotAnInteger
    }

    function GetBytes(): seq<byte>
    {
      if URaw? then bytes else []
    }
  }

  /** `RPCFloat64`: an IEEE-754 double, held as its eight little-endian bytes
      (the conversion to and from JavaScript numbers is not modelled). */
  datatype Float64 = Float64(bits: Bits64)
  {
    /** `v === 0`: positive or negative zero. */
    predicate IsZero()
    {
      bits[0] == bits[1] == bits[2] == bits[3] == bits[4] == bits[5] == bits[6] == 0
      && (bits[7] == 0 || bits[7] == 0x80)
    }

    /** `Number.isNaN(v)`: all exponent bits set and a non-zero fraction. */
    predicate IsNaN()
    {
      bits[7] % 0x80 == 0x7F && bits[6] >= 0xF0
      && (bits[6] % 0x10 != 0 || bits[5] != 0 || bits[4] != 0 || bits[3] != 0
          || bits[2] != 0 || bits[1] != 0 || bits[0] != 0)
    }
  }

  /** The float a failed read returns: `new RPCFloat64(NaN)`. */
  const FloatNaN: Float64 := Float64([0, 0, 0, 0, 0, 0, 0xF8, 0x7F])

  /** `new RPCInt64(v)`. */
  function NewInt64(v: Num): (r: Int64)
    ensures r.ToNumber() == (if IsSafeInteger(v) then v else NotAnInteger)
    ensures r.GetBytes() == []
  {
    if IsSafeInteger(v) then Safe(v.i) else Invalid
  }

  /** `new RPCUint64(v)`. */
  function NewUint64(v: Num): (r: Uint64)
    ensures r.ToNumber() == (if IsSafeInteger(v) && v.i >= 0 then v else NotAnInteger)
    ensures r.GetBytes() == []
  {
    if IsSafeInteger(v) && v.i >= 0 then USafe(v.i) else UInvalid
  }

  /** The eight bytes the codec writes after tag 8 for a safe integer
      (src/stream.ts:189-213): a negative `v` is biased by 2^53, the low 48
      bits go out little-endian, byte 6 carries bits 48..52 (with the top
      three bits set for a negative value), byte 7 is 0x80 or 0x7F. */
  function Int64Bytes(v: SafeInt): (b: Bits64)
    ensures b[7] == if v < 0 then 0x7F else 0x80
  {
    var u: nat := if v < 0 then v + TwoTo53 else v;
    var d := LEBytes(u, 7);
    d[..6] + [d[6] % 32 + (if v < 0 then 0xE0 else 0), if v < 0 then 0x7F else 0x80]
  }

  /** The eight bytes the codec writes after tag 11 for a safe unsigned
      integer (src/stream.ts:248-263): byte 7 is zero. */
  function Uint64Bytes(v: SafeNat): (b: Bits64)
    ensures b[7] == 0
  {
    var d := LEBytes(v, 7);
    d[..6] + [d[6] % 32, 0]
  }

  /** The value the negative branch of `RPCInt64.fromBytes` computes before
      negating: the complement of the low 53 bits. `~x & 0x1F` is written
      `31 - x % 32` and `~x & 0xff` is `255 - x` for a byte `x`. */
  function Complement53(b: Bits64): (c: int)
    ensures 0 <= c <= MaxSafe
  {
    (31 - b[6] as int % 32) * TwoTo48 + (255 - b[5] as int) * 0x100_0000_0000
    + (255 - b[4] as int) * 0x1_0000_0000 + (255 - b[3] as int) * 0x100_0000
    + (255 - b[2] as int) * 0x1_0000 + (255 - b[1] as int) * 256 + (255 - b[0] as int)
  }

  /** `RPCInt64.fromBytes` as a value. In the source `(b[6] & 0xE0) === 0`
      and `=== 0xE0` are `b[6] < 0x20` and `b[6] >= 0xE0` for a byte, and
      `(b[2] << 16) | (b[1] << 8) | b[0]` is `b[2] * 65536 + b[1] * 256 + b[0]`. */
  function Int64Of(b: seq<byte>): (r: Int64)
    ensures r == Invalid <==> |b| != 8
    ensures r.Raw? ==> r.bytes == b
    ensures r.Safe? ==> (r.value >= 0 <==> b[7] == 0x80)
  {
    if |b| != 8 then Invalid
    else if b[7] == 128 && b[6] < 0x20 then
      Safe(b[6] as int * TwoTo48 + b[5] as int * 0x100_0000_0000 + b[4] as int * 0x1_0000_0000
           + b[3] as int * 0x100_0000 + b[2] as int * 0x1_0000 + b[1] as int * 256 + b[0] as int)
    else if b[7] == 127 && b[6] >= 0xE0 && Complement53(b) < MaxSafe then
      Safe(-Complement53(b) - 1)
    else
      Raw(b)
  }

  /** `RPCUint64.fromBytes` as a value. */
  function Uint64Of(b: seq<byte>): (r: Uint64)
    ensures r == UInvalid <==> |b| != 8
    ensures r.URaw? ==> r.bytes == b
    ensures r.USafe? ==> b[7] == 0
  {
    if |b| != 8 then UInvalid
    else if b[7] == 0 && b[6] < 0x20 then
      USafe(b[6] as int * TwoTo48 + b[5] as int * 0x100_0000_0000 + b[4] as int * 0x1_0000_0000
            + b[3] as int * 0x100_0000 + b[2] as int * 0x1_0000 + b[1] as int * 256 + b[0] as int)
    else
      URaw(b)
  }

  /** `RPCInt64.fromBytes`, with the loop that copies the escape bytes into
      a fresh array. */
  method Int64FromBytes(bytes: array<byte>) returns (r: Int64)
    ensures r == Int64Of(bytes[..])
  {
    if bytes.Length == 8 {
      var b := bytes[..];
      if b[7] == 128 && b[6] < 0x20 {
        return Int64Of(b);
      }
      if b[7] == 127 && b[6] >= 0xE0 {
        var c := Complement53(b);
        if c < MaxSafe {
          return Safe(-c - 1);
        }
      }
      var copy := new byte[8];
      for i := 0 to 8
        invariant copy[..i] == bytes[..i]
      {
        copy[i] := bytes[i];
      }
      assert copy[..] == bytes[..];
      return Raw(copy[..]);
    } else {
      return Invalid;
    }
  }

  /** `RPCUint64.fromBytes`, with its copy loop. */
  method Uint64FromBytes(bytes: array<byte>) returns (r: Uint64)
    ensures r == Uint64Of(bytes[..])
  {
    if bytes.Length == 8 {
      if bytes[7] == 0 && bytes[6] < 0x20 {
        return Uint64Of(bytes[..]);
      }
      var copy := new byte[8];
      for i := 0 to 8
        invariant copy[..i] == bytes[..i]
      {
        copy[i] := bytes[i];
      }
      assert copy[..] == bytes[..];
      return URaw(copy[..]);
    } else {
      return UInvalid;
    }
  }

  /** Safe positive pattern: byte 7 is 0x80 and byte 6 below 0x20; the value
      is the little-endian number in bytes 0..6, within [0, 2^53 - 1]. */
  lemma Int64OfPositive(b: Bits64)
    requires b[7] == 0x80 && b[6] < 0x20
    ensures Int64Of(b).Safe? && Int64Of(b).value == LEValue(b[..7])
  {
    LEValue7(b[..7]);
  }

  /** Safe negative pattern: byte 7 is 0x7F and byte 6 at least 0xE0; the
      value is `-c - 1` for the complement `c` of the low 53 bits, unless
      that would be -2^53, which stays raw. */
  lemma Int64OfNegative(b: Bits64)
    requires b[7] == 0x7F && b[6] >= 0xE0
    ensures Complement53(b) == MaxSafe - LEValue(b[..6] + [b[6] - 0xE0])
    ensures Int64Of(b) == if b == [0, 0, 0, 0, 0, 0, 0xE0, 0x7F] then Raw(b)
                          else Safe(LEValue(b[..6] + [b[6] - 0xE0]) - TwoTo53)
  {
    var x := b[..6] + [b[6] - 0xE0];
    LEValue7(x);
    if Complement53(b) >= MaxSafe {
      assert forall i | 0 <= i < 6 :: b[i] == 0;
      assert b == [0, 0, 0, 0, 0, 0, 0xE0, 0x7F];
    }
  }

  /** Every input of another length is the empty NaN marker; every other
      eight-byte input that is not a safe pattern keeps its bytes. */
  lemma Int64OfOther(b: seq<byte>)
    requires |b| != 8 || !((b[7] == 0x80 && b[6] < 0x20) || (b[7] == 0x7F && b[6] >= 0xE0))
    ensures Int64Of(b) == if |b| == 8 then Raw(b) else Invalid
    ensures Int64Of(b).ToNumber() == NotAnInteger
  {
  }

  /** The seven base-256 digits of a number up to 2^53 read back as that
      number, and the top digit is below 32. */
  lemma Digits7(u: nat)
    requires u < TwoTo53
    ensures LEValue(LEBytes(u, 7)) == u && LEBytes(u, 7)[6] < 32
  {
    Pow256Of7();
    LEValueOfLEBytes(u, 7);
    LEValue7(LEBytes(u, 7));
  }

  /** `fromBytes` inverts the codec's eight-byte writer on the whole safe
      range. */
  lemma Int64OfBytes(v: SafeInt)
    ensures Int64Of(Int64Bytes(v)) == Safe(v)
  {
    if v >= 0 {
      Int64OfBytesPositive(v);
    } else {
      Int64OfBytesNegative(v);
    }
  }

  lemma Int64OfBytesPositive(v: SafeInt)
    requires v >= 0
    ensures Int64Of(Int64Bytes(v)) == Safe(v)
  {
    var d := LEBytes(v, 7);
    Digits7(v);
    assert d[6] % 32 == d[6];
    var b := Int64Bytes(v);
    assert b == d + [0x80];
    assert b[..7] == d;
    Int64OfPositive(b);
  }

  lemma Int64OfBytesNegative(v: SafeInt)
    requires v < 0
    ensures Int64Of(Int64Bytes(v)) == Safe(v)
  {
    var u: nat := v + TwoTo53;
    var d := LEBytes(u, 7);
    Digits7(u);
    var b := Int64Bytes(v);
    assert b == d[..6] + [d[6] + 0xE0, 0x7F];
    assert b[..6] + [b[6] - 0xE0] == d;
    Int64OfNegative(b);
  }

  /** ... and the writer's bytes are the only ones that decode to a given
      safe integer. */
  lemma Int64BytesOf(b: seq<byte>)
    requires Int64Of(b).Safe?
    ensures b == Int64Bytes(Int64Of(b).value)
  {
    if b[7] == 0x80 {
      Int64BytesOfPositive(b);
    } else {
      Int64BytesOfNegative(b);
    }
  }

  lemma Int64BytesOfPositive(b: Bits64)
    requires b[7] == 0x80 && b[6] < 0x20
    ensures Int64Of(b).Safe? && b == Int64Bytes(Int64Of(b).value)
  {
    var x := b[..7];
    Int64OfPositive(b);
    LEBytesOfLEValue(x);
    PositiveBytes(LEValue(x), x);
    SplitLast(b, 0x80);
  }

  /** Eight bytes as their first six, the low five bits of the seventh,
      and the last, when the seventh is below 32. */
  lemma SplitLast(b: Bits64, last: byte)
    requires b[7] == last && b[6] < 0x20
    ensures b == b[..7][..6] + [b[..7][6] % 32, last]
  {
  }

  lemma PositiveBytes(v: SafeInt, x: seq<byte>)
    requires v >= 0 && x == LEBytes(v, 7)
    ensures Int64Bytes(v) == x[..6] + [x[6] % 32, 0x80]
  {
  }

  lemma Int64BytesOfNegative(b: Bits64)
    requires b[7] == 0x7F && b[6] >= 0xE0 && Int64Of(b).Safe?
    ensures b == Int64Bytes(Int64Of(b).value)
  {
    var x := b[..6] + [b[6] - 0xE0];
    Int64OfNegative(b);
    LEBytesOfLEValue(x);
    NegativeBytes(Int64Of(b).value, x);
    SplitNegative(b, x);
  }

  /** Eight bytes of the negative pattern as the six low bytes, the
      seventh with its top three bits set, and 0x7F. */
  lemma SplitNegative(b: Bits64, x: seq<byte>)
    requires b[7] == 0x7F && b[6] >= 0xE0 && x == b[..6] + [b[6] - 0xE0]
    ensures b == x[..6] + [x[6] % 32 + 0xE0, 0x7F]
  {
    assert x[..6] == b[..6];
  }

  lemma NegativeBytes(v: SafeInt, x: seq<byte>)
    requires v < 0 && x == LEBytes(v + TwoTo53, 7)
    ensures Int64Bytes(v) == x[..6] + [x[6] % 32 + 0xE0, 0x7F]
  {
  }

  lemma Uint64OfBytes(v: SafeNat)
    ensures Uint64Of(Uint64Bytes(v)) == USafe(v)
  {
    var d := LEBytes(v, 7);
    Digits7(v);
    UnsignedBytes(v, d);
    Uint64OfPositive(d[..6] + [d[6] % 32, 0]);
    LowSeven(d);
  }

  lemma UnsignedBytes(v: SafeNat, d: seq<byte>)
    requires d == LEBytes(v, 7)
    ensures Uint64Bytes(v) == d[..6] + [d[6] % 32, 0]
  {
  }

  lemma LowSeven(d: seq<byte>)
    requires |d| == 7 && d[6] < 32
    ensures (d[..6] + [d[6] % 32, 0])[..7] == d
  {
  }

  /** Safe unsigned pattern: byte 7 is zero and byte 6 below 0x20; the value
      is the little-endian number in bytes 0..6. */
  lemma Uint64OfPositive(b: Bits64)
    requires b[7] == 0 && b[6] < 0x20
    ensures Uint64Of(b).USafe? && Uint64Of(b).value == LEValue(b[..7])
  {
    LEValue7(b[..7]);
  }

  /** `RPCUint64.fromBytes` decodes exactly the writer's bytes: it yields a
      safe value iff byte 7 is zero and byte 6 below 0x20, and then the
      input is the writer's encoding of that value. */
  lemma Uint64BytesOf(b: seq<byte>)
    requires |b| == 8
    ensures Uint64Of(b).USafe? <==> b[7] == 0 && b[6] < 0x20
    ensures Uint64Of(b).USafe? ==> b == Uint64Bytes(Uint64Of(b).value)
  {
    if b[7] == 0 && b[6] < 0x20 {
      var x := b[..7];
      LEValue7(x);
      LEBytesOfLEValue(x);
      assert b == x[..6] + [x[6] % 32, 0];
    }
  }
}

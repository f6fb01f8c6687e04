/** UTF-8 as the codec uses it for string payloads: a Dafny `char` is a
    Unicode scalar value, so every string has exactly one encoding, and the
    decoder accepts exactly the encodings of strings (no overlong forms, no
    surrogate code points, nothing above U+10FFFF). */
module Utf8 {
  import opened Bytes
  import opened Wrappers

  predicate IsContinuation(b: byte) { 0x80 <= b < 0xC0 }

  /** The UTF-8 bytes of one scalar value. */
  function EncodeChar(c: char): (r: seq<byte>)
    ensures 1 <= |r| <= 4
  {
    var n := c as int;
    if n < 0x80 then [n]
    else if n < 0x800 then [0xC0 + n / 64, 0x80 + n % 64]
    else if n < 0x10000 then [0xE0 + n / 64 / 64, 0x80 + n / 64 % 64, 0x80 + n % 64]
    else [0xF0 + n / 64 / 64 / 64, 0x80 + n / 64 / 64 % 64, 0x80 + n / 64 % 64, 0x80 + n % 64]
  }

  /** The UTF-8 bytes of a string (the role of `stringToUTF8`). */
  function Encode(s: string): (r: seq<byte>)
    ensures |r| >= |s|
    ensures |r| == 0 <==> |s| == 0
  {
    if |s| == 0 then [] else EncodeChar(s[0]) + Encode(s[1..])
  }

  /** The scalar value at the front of `b` and the number of bytes it takes,
      or `None` when the front of `b` is not a well-formed UTF-8 sequence. */
  function DecodeChar(b: seq<byte>): (r: Option<(char, nat)>)
    requires |b| > 0
    ensures r.Some? ==> 1 <= r.value.1 <= |b| && r.value.1 <= 4
  {
    var b0: int := b[0];
    if b0 < 0x80 then
      Some((b0 as char, 1))
    else if 0xC2 <= b0 < 0xE0 && |b| >= 2 && IsContinuation(b[1]) then
      var n := (b0 - 0xC0) * 64 + (b[1] as int - 0x80);
      Some((n as char, 2))
    else if 0xE0 <= b0 < 0xF0 && |b| >= 3 && IsContinuation(b[1]) && IsContinuation(b[2]) then
      var n := (b0 - 0xE0) * 4096 + (b[1] as int - 0x80) * 64 + (b[2] as int - 0x80);
      if n < 0x800 || 0xD800 <= n < 0xE000 then None else Some((n as char, 3))
    else if 0xF0 <= b0 < 0xF5 && |b| >= 4 && IsContinuation(b[1]) && IsContinuation(b[2])
         && IsContinuation(b[3]) then
      var n := (b0 - 0xF0) * 262144 + (b[1] as int - 0x80) * 4096 + (b[2] as int - 0x80) * 64 + (b[3] as int - 0x80);
      if n < 0x10000 || n >= 0x110000 then None else Some((n as char, 4))
    else
      None
  }

  /** The string whose UTF-8 bytes are `b`, or `None` when `b` is not
      well-formed UTF-8 (the role of `utf8ToString`). */
  function Decode(b: seq<byte>): Option<string>
    decreases |b|
  {
    if |b| == 0 then Some("")
    else match DecodeChar(b)
      case None => None
      case Some((c, k)) =>
        match Decode(b[k..])
        case None => None
        case Some(rest) => Some([c] + rest)
  }

  lemma DecodeEncodeChar(c: char, rest: seq<byte>)
    ensures DecodeChar(EncodeChar(c) + rest) == Some((c, |EncodeChar(c)|))
  {
    var n := c as int;
    var b := EncodeChar(c) + rest;
    if n < 0x80 {
    } else if n < 0x800 {
      assert n == 64 * (n / 64) + n % 64;
    } else if n < 0x10000 {
      var q := n / 64;
      assert n == 64 * q + n % 64;
      assert q == 64 * (q / 64) + q % 64;
    } else {
      var q := n / 64;
      var q2 := q / 64;
      assert n == 64 * q + n % 64;
      assert q == 64 * q2 + q % 64;
      assert q2 == 64 * (q2 / 64) + q2 % 64;
    }
  }

  /** Decoding inverts encoding. */
  lemma {:induction false} DecodeEncode(s: string)
    ensures Decode(Encode(s)) == Some(s)
  {
    if |s| > 0 {
      var e := EncodeChar(s[0]);
      DecodeEncodeChar(s[0], Encode(s[1..]));
      assert (e + Encode(s[1..]))[|e|..] == Encode(s[1..]);
      DecodeEncode(s[1..]);
      assert [s[0]] + s[1..] == s;
    }
  }

  lemma EncodeDecodeChar(b: seq<byte>)
    requires |b| > 0 && DecodeChar(b).Some?
    ensures b[..DecodeChar(b).value.1] == EncodeChar(DecodeChar(b).value.0)
  {
    var b0: int := b[0];
    if b0 < 0x80 {
    } else if 0xC2 <= b0 < 0xE0 && |b| >= 2 && IsContinuation(b[1]) {
      EncodeTwo(b0, b[1]);
      assert b[..2] == [b[0], b[1]];
    } else if 0xE0 <= b0 < 0xF0 && |b| >= 3 && IsContinuation(b[1]) && IsContinuation(b[2]) {
      EncodeThree(b0, b[1], b[2]);
      assert b[..3] == [b[0], b[1], b[2]];
    } else {
      EncodeFour(b0, b[1], b[2], b[3]);
      assert b[..4] == [b[0], b[1], b[2], b[3]];
    }
  }

  /** `n == 64 * q + r` with `r` a base-64 digit determines `n / 64` and `n % 64`. */
  lemma Digit64(n: int, q: int, r: int)
    requires 0 <= r < 64 && n == 64 * q + r
    ensures n / 64 == q && n % 64 == r
  {
  }

  lemma EncodeTwo(b0: int, b1: int)
    requires 0xC2 <= b0 < 0xE0 && 0x80 <= b1 < 0xC0
    ensures var n := (b0 - 0xC0) * 64 + (b1 - 0x80);
            0x80 <= n < 0x800 && EncodeChar(n as char) == [b0, b1]
  {
    var n := (b0 - 0xC0) * 64 + (b1 - 0x80);
    Digit64(n, b0 - 0xC0, b1 - 0x80);
  }

  lemma EncodeThree(b0: int, b1: int, b2: int)
    requires 0xE0 <= b0 < 0xF0 && 0x80 <= b1 < 0xC0 && 0x80 <= b2 < 0xC0
    requires var n := (b0 - 0xE0) * 4096 + (b1 - 0x80) * 64 + (b2 - 0x80);
             0x800 <= n && !(0xD800 <= n < 0xE000)
    ensures var n := (b0 - 0xE0) * 4096 + (b1 - 0x80) * 64 + (b2 - 0x80);
            n < 0x10000 && EncodeChar(n as char) == [b0, b1, b2]
  {
    var q := (b0 - 0xE0) * 64 + (b1 - 0x80);
    var n := 64 * q + (b2 - 0x80);
    Digit64(n, q, b2 - 0x80);
    Digit64(q, b0 - 0xE0, b1 - 0x80);
  }

  lemma EncodeFour(b0: int, b1: int, b2: int, b3: int)
    requires 0xF0 <= b0 < 0xF5 && 0x80 <= b1 < 0xC0 && 0x80 <= b2 < 0xC0 && 0x80 <= b3 < 0xC0
    requires var n := (b0 - 0xF0) * 262144 + (b1 - 0x80) * 4096 + (b2 - 0x80) * 64 + (b3 - 0x80);
             0x10000 <= n < 0x110000
    ensures var n := (b0 - 0xF0) * 262144 + (b1 - 0x80) * 4096 + (b2 - 0x80) * 64 + (b3 - 0x80);
            EncodeChar(n as char) == [b0, b1, b2, b3]
  {
    var q2 := (b0 - 0xF0) * 64 + (b1 - 0x80);
    var q := 64 * q2 + (b2 - 0x80);
    var n := 64 * q + (b3 - 0x80);
    Digit64(n, q, b3 - 0x80);
    Digit64(q, q2, b2 - 0x80);
    Digit64(q2, b0 - 0xF0, b1 - 0x80);
  }

  /** A successful decode is the first scalar value followed by the
      decode of the rest. */
  lemma DecodeCons(b: seq<byte>)
    requires |b| > 0 && Decode(b).Some?
    ensures DecodeChar(b).Some? && Decode(b[DecodeChar(b).value.1..]).Some?
    ensures Decode(b).value == [DecodeChar(b).value.0] + Decode(b[DecodeChar(b).value.1..]).value
  {
  }

  lemma PrefixSuffix(b: seq<byte>, k: nat)
    requires k <= |b|
    ensures b[..k] + b[k..] == b
  {
  }

  lemma EncodeCons(c: char, s: string)
    ensures Encode([c] + s) == EncodeChar(c) + Encode(s)
  {
    assert ([c] + s)[1..] == s;
  }

  /** The decoder accepts nothing but encodings: whatever it decodes to `s`
      is exactly `Encode(s)`, so overlong forms, surrogates and stray
      continuation bytes are rejected. */
  lemma {:induction false} EncodeDecode(b: seq<byte>)
    requires Decode(b).Some?
    ensures Encode(Decode(b).value) == b
    decreases |b|
  {
    if |b| > 0 {
      DecodeCons(b);
      var (c, k) := DecodeChar(b).value;
      var rest := Decode(b[k..]).value;
      EncodeDecode(b[k..]);
      EncodeDecodeChar(b);
      EncodeCons(c, rest);
      PrefixSuffix(b, k);
    }
  }
}

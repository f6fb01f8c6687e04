/** `RPCStream` (src/stream.ts): a growable byte buffer with a read cursor
    and a write cursor. Every `write*` method appends the bytes `Codec`
    says it appends, every `read*` method returns what `Codec` says it
    reads, and `WrittenRoundTrip` connects the two. */
module Stream {
  import opened Bytes
  import opened Types
  import opened Codec
  import opened Wrappers
  import Utf8
  import CodecLemmas

  /** The capacity of a new stream, and the slack `enlarge` adds. */
  const InitialCapacity: nat := 1024

  /** Where the body starts: byte 0 is the version, bytes 1..4 the client
      callback ID, bytes 5..16 are reserved. */
  const BodyStart: nat := 17

  /** `k` zero bytes. */
  function Zeros(k: nat): (z: seq<byte>)
    ensures |z| == k
  {
    seq(k, _ => 0)
  }

  /** The first `n` bytes of `d`, continued with zeros past its end: what a
      buffer holds below `n` once `enlarge` has copied it into a larger,
      zero-filled array. `WindowDef` states it in one piece; the definition
      pads one zero at a time through `WindowSealed` and `WindowPad`, so that
      a method that only appends sees a window as a value of its own. */
  function Window(d: seq<byte>, n: nat): (w: seq<byte>)
    ensures |w| == n
    decreases n - |d|, 2
  {
    WindowSealed(d, n)
  }

  function WindowSealed(d: seq<byte>, n: nat): (w: seq<byte>)
    ensures |w| == n
    decreases n - |d|, 1
  {
    WindowPad(d, n)
  }

  function WindowPad(d: seq<byte>, n: nat): (w: seq<byte>)
    ensures |w| == n
    decreases n - |d|, 0
  {
    if n <= |d| then d[..n] else Window(d + [0], n)
  }

  lemma {:induction false} WindowDef(d: seq<byte>, n: nat)
    ensures Window(d, n) == if n <= |d| then d[..n] else d + Zeros(n - |d|)
    decreases n - |d|
  {
    assert Window(d, n) == WindowSealed(d, n) == WindowPad(d, n);
    if n > |d| {
      WindowDef(d + [0], n);
      assert d + [0] + Zeros(n - |d| - 1) == d + Zeros(n - |d|);
    }
  }

  lemma WindowAt(d: seq<byte>, n: nat, i: nat)
    requires i < n
    ensures Window(d, n)[i] == if i < |d| then d[i] else 0
  {
    WindowDef(d, n);
  }

  /** `d` with the bytes at positions `at .. at + |s|` replaced by `s`. */
  function Overwrite(d: seq<byte>, at: nat, s: seq<byte>): (r: seq<byte>)
    requires at + |s| <= |d|
    ensures |r| == |d|
  {
    d[..at] + s + d[at + |s|..]
  }

  lemma OverwriteAt(d: seq<byte>, at: nat, s: seq<byte>, i: nat)
    requires at + |s| <= |d| && i < |d|
    ensures Overwrite(d, at, s)[i] == if at <= i < at + |s| then s[i - at] else d[i]
  {
  }

  /** The contents of the array after `enlarge(size)`: a larger,
      zero-filled copy when `size` exceeds the capacity, else unchanged. */
  function Enlarged(d: seq<byte>, size: int): (r: seq<byte>)
    ensures |r| >= |d| && |r| >= size
  {
    if size > |d| then d + Zeros(size + InitialCapacity - |d|) else d
  }

  lemma EnlargedAt(d: seq<byte>, size: int, i: nat)
    requires i < |Enlarged(d, size)|
    ensures Enlarged(d, size)[i] == if i < |d| then d[i] else 0
  {
  }

  /** Storing one byte at the write cursor extends the window by it. */
  lemma WindowPut(d: seq<byte>, w: nat, b: byte)
    ensures var e := Enlarged(d, w + 1); Window(e[w := b], w + 1) == Window(d, w) + [b]
  {
    var e := Enlarged(d, w + 1);
    var lhs, rhs := Window(e[w := b], w + 1), Window(d, w) + [b];
    forall i | 0 <= i < w + 1 ensures lhs[i] == rhs[i] {
      WindowAt(e[w := b], w + 1, i);
      if i < w {
        WindowAt(d, w, i);
        EnlargedAt(d, w + 1, i);
      }
    }
  }

  /** Storing `s` at the write cursor extends the window by `s`. */
  lemma WindowPutAll(d: seq<byte>, w: nat, s: seq<byte>)
    ensures var e := Enlarged(d, w + |s|); Window(Overwrite(e, w, s), w + |s|) == Window(d, w) + s
  {
    var e := Enlarged(d, w + |s|);
    var lhs, rhs := Window(Overwrite(e, w, s), w + |s|), Window(d, w) + s;
    assert |lhs| == |rhs|;
    forall i | 0 <= i < |lhs| ensures lhs[i] == rhs[i] {
      WindowAt(Overwrite(e, w, s), w + |s|, i);
      OverwriteAt(e, w, s, i);
      if i < w {
        WindowAt(d, w, i);
        EnlargedAt(d, w + |s|, i);
      }
    }
  }

  /** The buffer after storing `s` at `w` one `putByte` at a time: each
      store first enlarges the buffer to hold it. As with `Window`, the
      definition goes through `PutSealed` and `PutStep`, so that a caller
      sees the new buffer as a value of its own; `PutDef` states one step. */
  function Put(d: seq<byte>, w: nat, s: seq<byte>): (r: seq<byte>)
    decreases |s|, 2
  {
    PutSealed(d, w, s)
  }

  function PutSealed(d: seq<byte>, w: nat, s: seq<byte>): (r: seq<byte>)
    decreases |s|, 1
  {
    PutStep(d, w, s)
  }

  function PutStep(d: seq<byte>, w: nat, s: seq<byte>): (r: seq<byte>)
    decreases |s|, 0
  {
    if |s| == 0 then d else Put(Enlarged(d, w + 1)[w := s[0]], w + 1, s[1..])
  }

  lemma PutDef(d: seq<byte>, w: nat, s: seq<byte>)
    ensures Put(d, w, s) == if |s| == 0 then d else Put(Enlarged(d, w + 1)[w := s[0]], w + 1, s[1..])
  {
    assert Put(d, w, s) == PutSealed(d, w, s) == PutStep(d, w, s);
  }

  /** Storing `a` and then `b` is storing `a + b`. */
  lemma {:induction false} PutAppend(d: seq<byte>, w: nat, a: seq<byte>, b: seq<byte>)
    ensures Put(Put(d, w, a), w + |a|, b) == Put(d, w, a + b)
    decreases |a|
  {
    PutDef(d, w, a);
    PutDef(d, w, a + b);
    if |a| == 0 {
      assert a + b == b;
    } else {
      assert (a + b)[0] == a[0] && (a + b)[1..] == a[1..] + b;
      PutAppend(Enlarged(d, w + 1)[w := a[0]], w + 1, a[1..], b);
    }
  }

  /** Inside the buffer, storing is overwriting: no store needs to grow it. */
  lemma {:induction false} PutInside(d: seq<byte>, w: nat, s: seq<byte>)
    requires w + |s| <= |d|
    ensures Put(d, w, s) == Overwrite(d, w, s)
    decreases |s|
  {
    PutDef(d, w, s);
    if |s| > 0 {
      assert Enlarged(d, w + 1) == d;
      PutInside(d[w := s[0]], w + 1, s[1..]);
      assert Overwrite(d[w := s[0]], w + 1, s[1..]) == Overwrite(d, w, s);
    }
  }

  /** A shorter window is a prefix of a longer one. */
  lemma WindowPrefix(d: seq<byte>, m: nat, n: nat)
    requires m <= n
    ensures Window(d, n)[..m] == Window(d, m)
  {
    forall i | 0 <= i < m ensures Window(d, n)[i] == Window(d, m)[i] {
      WindowAt(d, n, i);
      WindowAt(d, m, i);
    }
  }

  /** Overwriting inside the window and then looking at the window is
      overwriting the window. */
  lemma WindowOverwrite(d: seq<byte>, n: nat, at: nat, s: seq<byte>)
    requires at + |s| <= n <= |d|
    ensures Window(Overwrite(d, at, s), n) == Overwrite(Window(d, n), at, s)
  {
    forall i | 0 <= i < n ensures Window(Overwrite(d, at, s), n)[i] == Overwrite(Window(d, n), at, s)[i] {
      WindowAt(Overwrite(d, at, s), n, i);
      WindowAt(d, n, i);
      OverwriteAt(d, at, s, i);
      OverwriteAt(Window(d, n), at, s, i);
    }
  }

  /** Back-patching the four length bytes that follow a container's tag. */
  lemma PatchLength(prefix: seq<byte>, tag: byte, gap: seq<byte>, len: seq<byte>, count: seq<byte>, body: seq<byte>)
    requires |gap| == 4 && |len| == 4
    ensures Overwrite(prefix + [tag] + gap + count + body, |prefix| + 1, len)
              == prefix + ([tag] + len + count + body)
  {
    var lhs := Overwrite(prefix + [tag] + gap + count + body, |prefix| + 1, len);
    var rhs := prefix + ([tag] + len + count + body);
    assert |lhs| == |rhs|;
    forall i | 0 <= i < |lhs| ensures lhs[i] == rhs[i] {
    }
  }

  /** `(v - (v & 0xFF)) / 256` on a non-negative `v` below 2^53, where
      `v & 0xFF` is `v % 256`: the low byte is dropped. */
  lemma DropLowByte(v: nat)
    ensures (v - v % 256) / 256 == v / 256
  {
    var q, r := v / 256, v % 256;
    assert v - r == 256 * q;
  }

  /** The seven digits of `u`, one division at a time. */
  lemma LEBytes7(u: nat)
    ensures var u1 := u / 256; var u2 := u1 / 256; var u3 := u2 / 256;
            var u4 := u3 / 256; var u5 := u4 / 256; var u6 := u5 / 256;
            LEBytes(u, 7) == [u % 256, u1 % 256, u2 % 256, u3 % 256, u4 % 256, u5 % 256, u6 % 256]
  {
    var u1 := u / 256; var u2 := u1 / 256; var u3 := u2 / 256;
    var u4 := u3 / 256; var u5 := u4 / 256; var u6 := u5 / 256;
    assert LEBytes(u6, 1) == [u6 % 256];
    assert LEBytes(u5, 2) == [u5 % 256] + LEBytes(u6, 1);
    assert LEBytes(u4, 3) == [u4 % 256] + LEBytes(u5, 2);
    assert LEBytes(u3, 4) == [u3 % 256] + LEBytes(u4, 3);
    assert LEBytes(u2, 5) == [u2 % 256] + LEBytes(u3, 4);
    assert LEBytes(u1, 6) == [u1 % 256] + LEBytes(u2, 5);
  }

  /** The value the source's `v` holds after `k` updates in the eight-byte
      branch of `writeInt64` and `writeUint64`: updates 1 to 3 are
      `v = (v - (v & 0xFF)) / 256`, where `v & 0xFF` is `v % 256` because `v`
      is not negative there, and updates 4 and 5 are `v >>>= 8`. The
      definition goes through `ShiftedSealed` and `ShiftedStep` so that a
      method storing these values does not unfold the arithmetic;
      `ShiftedDef` states one step. */
  function Shifted(u: nat, k: nat): int
    decreases k, 2
  {
    ShiftedSealed(u, k)
  }

  function ShiftedSealed(u: nat, k: nat): int
    decreases k, 1
  {
    ShiftedStep(u, k)
  }

  function ShiftedStep(u: nat, k: nat): int
    decreases k, 0
  {
    if k == 0 then u
    else if k <= 3 then var x := Shifted(u, k - 1); (x - x % 256) / 256
    else ShiftRight8(Shifted(u, k - 1))
  }

  lemma ShiftedDef(u: nat, k: nat)
    ensures Shifted(u, k) == if k == 0 then u
                             else if k <= 3 then (Shifted(u, k - 1) - Shifted(u, k - 1) % 256) / 256
                             else ShiftRight8(Shifted(u, k - 1))
  {
    assert Shifted(u, k) == ShiftedSealed(u, k) == ShiftedStep(u, k);
  }

  /** The eight bytes that branch stores for a 53-bit payload `u`: six
      values of `v`, then `(v >>> 8)` masked to five bits with `top` set on
      top of them, then `last`. */
  function Steps53(u: nat, top: int, last: byte): (b: seq<byte>)
    ensures |b| == 8
  {
    [ToByte(Shifted(u, 0)), ToByte(Shifted(u, 1)), ToByte(Shifted(u, 2)), ToByte(Shifted(u, 3)),
     ToByte(Shifted(u, 4)), ToByte(Shifted(u, 5)), ToByte(ShiftRight8(Shifted(u, 5)) % 32 + top), last]
  }

  /** The first three steps divide by 256 exactly. */
  lemma ShiftedLow(u: nat)
    ensures Shifted(u, 1) == u / 256 && Shifted(u, 2) == u / 256 / 256
            && Shifted(u, 3) == u / 256 / 256 / 256
  {
    ShiftedDef(u, 0);
    ShiftedDef(u, 1);
    DropLowByte(u);
    ShiftedDef(u, 2);
    DropLowByte(u / 256);
    ShiftedDef(u, 3);
    DropLowByte(u / 256 / 256);
  }

  /** Below 2^53 the value left after three steps fits in 32 bits, so the
      two logical shifts divide by 256 too. */
  lemma ShiftedHigh(u: nat)
    requires u < TwoTo53
    ensures var u3 := u / 256 / 256 / 256;
            Shifted(u, 4) == u3 / 256 && Shifted(u, 5) == u3 / 256 / 256
            && ShiftRight8(Shifted(u, 5)) == u3 / 256 / 256 / 256
  {
    ShiftedLow(u);
    var u3 := u / 256 / 256 / 256;
    assert u3 < TwoTo32;
    ShiftSmall(u3);
    ShiftedDef(u, 4);
    ShiftSmall(u3 / 256);
    ShiftedDef(u, 5);
    ShiftSmall(u3 / 256 / 256);
  }

  /** The six stored values are the six low digits. */
  lemma ShiftedDigits(u: nat)
    requires u < TwoTo53
    ensures LEBytes(u, 7)[..6] == [ToByte(Shifted(u, 0)), ToByte(Shifted(u, 1)), ToByte(Shifted(u, 2)),
                                   ToByte(Shifted(u, 3)), ToByte(Shifted(u, 4)), ToByte(Shifted(u, 5))]
  {
    ShiftedLow(u);
    ShiftedHigh(u);
    ShiftedDef(u, 0);
    LEBytes7(u);
  }

  /** The shifted value's five low bits are those of the seventh digit. */
  lemma ShiftedTop(u: nat)
    requires u < TwoTo53
    ensures ShiftRight8(Shifted(u, 5)) % 32 == LEBytes(u, 7)[6] % 32
  {
    ShiftedHigh(u);
    LEBytes7(u);
    ModMod(u / 256 / 256 / 256 / 256 / 256 / 256);
  }

  /** The steps compute the seven low digits, byte 6 reduced to five bits. */
  lemma Steps53Digits(u: nat, top: int, last: byte)
    requires u < TwoTo53 && (top == 0 || top == 0xE0)
    ensures var d := LEBytes(u, 7); Steps53(u, top, last) == d[..6] + [d[6] % 32 + top, last]
  {
    ShiftedDigits(u);
    ShiftedTop(u);
    var t := ShiftRight8(Shifted(u, 5)) % 32;
    SmallByte(t + top);
    assert Steps53(u, top, last) == LEBytes(u, 7)[..6] + [t + top, last];
  }

  lemma SmallByte(x: int)
    requires 0 <= x < 256
    ensures ToByte(x) == x
  {
  }

  /** Five bits of the low byte are five bits of the number. */
  lemma ModMod(x: nat)
    ensures x % 256 % 32 == x % 32
  {
    var q, r := x / 256, x % 256;
    assert x == 256 * q + r;
    var s, b := r / 32, r % 32;
    assert r == 32 * s + b;
    assert x == 32 * (8 * q + s) + b;
  }

  /** `writeInt64`'s steps give the signed eight-byte form. */
  lemma Int64Steps(value: Int64, u: nat, top: int, last: byte)
    requires value.Safe? && !(-2147483648 <= value.value < 2147483648)
    requires u == if value.value < 0 then value.value + TwoTo53 else value.value
    requires top == (if value.value < 0 then 0xE0 else 0) && last == if value.value < 0 then 0x7F else 0x80
    ensures EncodeInt64(value) == [8] + Steps53(u, top, last)
  {
    Steps53Digits(u, top, last);
  }

  /** `writeUint64`'s steps give the unsigned eight-byte form. */
  lemma Uint64Steps(value: Uint64)
    requires value.USafe? && value.value >= 4294967296
    ensures EncodeUint64(value) == [11] + Steps53(value.value, 0, 0)
  {
    Steps53Digits(value.value, 0, 0);
  }

  lemma Assoc3<T>(w: seq<T>, a: seq<T>, b: seq<T>, c: seq<T>)
    ensures w + a + b + c == w + (a + b + c)
  {
  }

  lemma Assoc4<T>(w: seq<T>, a: seq<T>, b: seq<T>, c: seq<T>, e: seq<T>)
    ensures w + a + b + c + e == w + (a + b + c + e)
  {
  }

  /** Two single appends are one append of two. */
  lemma Concat2<T>(w: seq<T>, s: seq<T>)
    requires |s| == 2
    ensures w + s == w + [s[0]] + [s[1]]
  {
  }

  /** The tag byte of a non-empty array or map of `n` elements. */
  function ContainerTag(shortBase: byte, longTag: byte, n: nat): (tag: byte)
    requires 0 < n && (n <= 30 ==> shortBase as int + n < 256)
  {
    if n > 30 then longTag else shortBase + n
  }

  /** The element count a long array or map header carries after its length. */
  function CountBytes(n: nat): (c: seq<byte>)
    ensures |c| == if n > 30 then 4 else 0
  {
    if n > 30 then LE4(n) else []
  }

  /** What the back-patch leaves below the write cursor: the four bytes
      skipped after the tag, overwritten by the total length, make the
      container encoding. */
  lemma PatchedWindow(d: seq<byte>, endPos: nat, w0: seq<byte>, gap: seq<byte>,
                      shortBase: byte, longTag: byte, n: nat, body: seq<byte>)
    requires |gap| == 4 && 0 < n && (n <= 30 ==> shortBase as int + n < 256) && endPos <= |d|
    requires Window(d, endPos) == w0 + [ContainerTag(shortBase, longTag, n)] + gap + CountBytes(n) + body
    ensures |Put(d, |w0| + 1, LE4(endPos - |w0|))| == |d|
    ensures Window(Put(d, |w0| + 1, LE4(endPos - |w0|)), endPos) == w0 + Container(shortBase, longTag, n, body)
  {
    var len := LE4(endPos - |w0|);
    assert endPos - |w0| == 5 + |CountBytes(n)| + |body|;
    PutInside(d, |w0| + 1, len);
    WindowOverwrite(d, endPos, |w0| + 1, len);
    PatchContainer(w0, gap, shortBase, longTag, n, body);
  }

  lemma PatchContainer(w0: seq<byte>, gap: seq<byte>, shortBase: byte, longTag: byte, n: nat, body: seq<byte>)
    requires |gap| == 4 && 0 < n && (n <= 30 ==> shortBase as int + n < 256)
    ensures var tag, count := ContainerTag(shortBase, longTag, n), CountBytes(n);
            Overwrite(w0 + [tag] + gap + count + body, |w0| + 1, LE4(5 + |count| + |body|))
              == w0 + Container(shortBase, longTag, n, body)
  {
    var tag, count := ContainerTag(shortBase, longTag, n), CountBytes(n);
    PatchLength(w0, tag, gap, LE4(5 + |count| + |body|), count, body);
    ContainerParts(shortBase, longTag, n, body);
  }

  /** A container is its tag, its total length, its count if any, and its body. */
  lemma ContainerParts(shortBase: byte, longTag: byte, n: nat, body: seq<byte>)
    requires 0 < n && (n <= 30 ==> shortBase as int + n < 256)
    ensures var count := CountBytes(n);
            [ContainerTag(shortBase, longTag, n)] + LE4(5 + |count| + |body|) + count + body
              == Container(shortBase, longTag, n, body)
  {
    if n <= 30 {
      var len := LE4(5 + |body|);
      assert [shortBase + n] + len + [] + body == [shortBase + n] + len + body;
    }
  }

  /** Encoding one more array element appends its encoding. */
  lemma {:induction false} ItemsAppend(a: seq<Value>, x: Value)
    requires forall y | y in a :: Encodable(y)
    requires Encodable(x)
    ensures EncodeItems(a + [x]) == EncodeItems(a) + Encode(x)
  {
    if |a| == 0 {
      assert (a + [x])[1..] == [];
    } else {
      assert (a + [x])[1..] == a[1..] + [x];
      ItemsAppend(a[1..], x);
    }
  }

  /** Encoding one more map entry appends its encoding. */
  lemma {:induction false} EntriesAppend(a: seq<Entry>, x: Entry)
    requires forall e | e in a :: Encodable(e.value)
    requires Encodable(x.value)
    ensures EncodeEntries(a + [x]) == EncodeEntries(a) + EncodeEntry(x)
  {
    if |a| == 0 {
      assert (a + [x])[1..] == [];
    } else {
      assert (a + [x])[1..] == a[1..] + [x];
      EntriesAppend(a[1..], x);
    }
  }

  /** The array loop's step: the encodings written so far, then the next
      element's, are the encoding of one more element. */
  lemma ItemsStep(head: seq<byte>, items: seq<Value>, i: nat)
    requires i < |items| && forall j | 0 <= j <= i :: Encodable(items[j])
    ensures head + EncodeItems(items[..i]) + Encode(items[i]) == head + EncodeItems(items[..i + 1])
  {
    var a := items[..i];
    assert items[..i + 1] == a + [items[i]];
    assert forall y | y in a :: Encodable(y) by {
      forall y | y in a ensures Encodable(y) {
        var j :| 0 <= j < i && a[j] == y;
      }
    }
    ItemsAppend(a, items[i]);
    Assoc(head, EncodeItems(a), Encode(items[i]));
  }

  /** The map loop's step: a key string and a value after the entries
      written so far are the encoding of one more entry. */
  lemma EntriesStep(head: seq<byte>, entries: seq<Entry>, i: nat)
    requires i < |entries| && forall j | 0 <= j <= i :: Encodable(entries[j].value)
    ensures head + EncodeEntries(entries[..i]) + EncodeEntry(entries[i]) == head + EncodeEntries(entries[..i + 1])
  {
    var a := entries[..i];
    assert entries[..i + 1] == a + [entries[i]];
    assert forall e | e in a :: Encodable(e.value) by {
      forall e | e in a ensures Encodable(e.value) {
        var j :| 0 <= j < i && a[j] == e;
      }
    }
    EntriesAppend(a, entries[i]);
    Assoc(head, EncodeEntries(a), EncodeEntry(entries[i]));
  }

  /** What `write` leaves behind, `read` gives back: once the bytes below
      the write cursor `n` are those written before, `w0`, followed by the
      encoding of `v`, reading from where `v` started returns `v` and stops
      at the write cursor. */
  lemma WrittenRoundTrip(d: seq<byte>, n: nat, w0: seq<byte>, v: Value)
    requires Encodable(v) && CodecLemmas.WellFormed(v) && |Encode(v)| < TwoTo32
    requires n <= |d| && Window(d, n) == w0 + Encode(v)
    ensures Decode(d, n, |w0|) == Read(v, true, n)
  {
    WindowDef(d, n);
    assert d[|w0|..|w0| + |Encode(v)|] == (w0 + Encode(v))[|w0|..];
    CodecLemmas.AtSlice(d, |w0|, Encode(v));
    CodecLemmas.RoundTrip(v, d, n, |w0|);
  }

  /** Moving the write cursor back to anywhere inside what `write` just
      appended makes a read from where the value starts fail, and the read
      cursor stays at that start. */
  lemma WrittenTruncated(d: seq<byte>, n: nat, w0: seq<byte>, v: Value, cut: nat)
    requires Encodable(v) && CodecLemmas.WellFormed(v) && |Encode(v)| < TwoTo32
    requires n <= |d| && Window(d, n) == w0 + Encode(v) && |w0| <= cut < n
    ensures !Decode(d, cut, |w0|).ok && Decode(d, cut, |w0|).pos == |w0|
  {
    WindowDef(d, n);
    assert d[|w0|..|w0| + |Encode(v)|] == (w0 + Encode(v))[|w0|..];
    CodecLemmas.AtSlice(d, |w0|, Encode(v));
    CodecLemmas.Truncated(v, d, |w0|, cut);
  }

  /** A window that starts with `w` is `w` followed by the rest of it. */
  lemma SplitWindow(d: seq<byte>, w: seq<byte>, k: nat, n: nat)
    requires k <= n && Window(d, k) == w
    ensures Window(d, n) == w + Window(d, n)[k..]
  {
    WindowPrefix(d, k, n);
    assert Window(d, n) == Window(d, n)[..k] + Window(d, n)[k..];
  }

  /** The stream. `data` is private to the class and `enlarge` replaces it
      with a larger copy, and `getBuffer` returns a copy, so the buffer is
      never shared and is held here as a sequence value. */
  class RPCStream {
    var data: seq<byte>
    var readPos: nat
    var writePos: nat

    /** The capacity never drops below the initial 1024 bytes. */
    predicate Valid()
      reads this
    {
      |data| >= InitialCapacity
    }

    /** The bytes below the write cursor, as a reader sees them (zeros
        stand for positions past the buffer that `enlarge` will zero-fill). */
    function Written(): (w: seq<byte>)
      reads this
      ensures |w| == writePos
    {
      Window(data, writePos)
    }

    /** `new RPCStream()`: version byte 1, a zero callback ID, and both
        cursors at the start of the body. */
    constructor()
      ensures Valid()
      ensures readPos == BodyStart && writePos == BodyStart
      ensures data == [1] + Zeros(InitialCapacity - 1)
      ensures Written() == [1] + Zeros(BodyStart - 1)
    {
      data := [1] + Zeros(InitialCapacity - 1);
      readPos := BodyStart;
      writePos := BodyStart;
      new;
      WindowDef(data, writePos);
    }

    /** `enlarge(size)`: a zero-filled buffer of `size + 1024` bytes holding
        the old contents when `size` exceeds the capacity. */
    method Enlarge(size: int)
      requires Valid()
      modifies this
      ensures Valid() && readPos == old(readPos) && writePos == old(writePos)
      ensures data == Enlarged(old(data), size)
    {
      if size > |data| {
        data := data + Zeros(size + InitialCapacity - |data|);
      }
    }

    /** `putByte(value)`: store `value mod 256` at the write cursor, growing
        the buffer first if needed, and advance the cursor. */
    method PutByte(value: int)
      requires Valid()
      modifies this
      ensures Valid() && readPos == old(readPos)
      ensures writePos == old(writePos) + 1 && writePos <= |data|
      ensures data == Put(old(data), old(writePos), [ToByte(value)])
      ensures Written() == old(Written()) + [ToByte(value)]
    {
      ghost var d, w := data, writePos;
      Enlarge(writePos + 1);
      data := data[writePos := ToByte(value)];
      writePos := writePos + 1;
      WindowPut(d, w, ToByte(value));
      assert [ToByte(value)][1..] == [];
      PutDef(d, w, [ToByte(value)]);
      PutDef(data, w + 1, []);
    }

    /** `putBytes` / `putUint8Bytes`: grow once for the whole run, then
        store the bytes one by one. */
    method PutBytes(value: seq<byte>)
      requires Valid()
      modifies this
      ensures Valid() && readPos == old(readPos)
      ensures writePos == old(writePos) + |value| && writePos <= |data|
      ensures data == Put(Enlarged(old(data), old(writePos) + |value|), old(writePos), value)
      ensures Written() == old(Written()) + value
    {
      ghost var d, w := data, writePos;
      Enlarge(writePos + |value|);
      ghost var e := data;
      for i := 0 to |value|
        invariant Valid() && readPos == old(readPos) && writePos == w + i && |data| == |e|
        invariant data == Overwrite(e, w, value[..i])
      {
        data := data[writePos := value[i]];
        writePos := writePos + 1;
        assert value[..i + 1] == value[..i] + [value[i]];
      }
      assert value[..|value|] == value;
      WindowPutAll(d, w, value);
      PutInside(e, w, value);
    }

    /** The sequence the source repeats for every 32-bit field:
        `putByte(n); n >>>= 8; putByte(n); n >>>= 8; putByte(n); putByte(n >>> 8)`.
        When the four bytes fit in the buffer, only they change. */
    method PutUint32(n: int)
      requires Valid()
      modifies this
      ensures Valid() && readPos == old(readPos)
      ensures writePos == old(writePos) + 4 && writePos <= |data|
      ensures data == Put(old(data), old(writePos), LE4(n))
      ensures Written() == old(Written()) + LE4(n)
    {
      ghost var d, w, w0 := data, writePos, Written();
      ghost var b := LE4(n);
      var x := n;
      PutByte(x);
      x := ShiftRight8(x);
      PutByte(x);
      PutAppend(d, w, [b[0]], [b[1]]);
      assert [b[0]] + [b[1]] == [b[0], b[1]];
      assert data == Put(d, w, [b[0], b[1]]);
      x := ShiftRight8(x);
      PutByte(x);
      PutAppend(d, w, [b[0], b[1]], [b[2]]);
      assert [b[0], b[1]] + [b[2]] == [b[0], b[1], b[2]];
      assert data == Put(d, w, [b[0], b[1], b[2]]);
      PutByte(ShiftRight8(x));
      PutAppend(d, w, [b[0], b[1], b[2]], [b[3]]);
      assert w0 + [b[0]] + [b[1]] + [b[2]] + [b[3]] == w0 + b;
      assert [b[0], b[1], b[2]] + [b[3]] == b;
    }

    function GetReadPos(): (p: nat)
      reads this
      ensures p == readPos
    {
      readPos
    }

    /** `setReadPos(p)`: accepted exactly when `0 <= p <= writePos`. */
    method SetReadPos(p: int) returns (ok: bool)
      modifies this`readPos
      ensures ok <==> 0 <= p <= writePos
      ensures readPos == if ok then p else old(readPos)
    {
      if p >= 0 && p <= writePos {
        readPos := p;
        return true;
      } else {
        return false;
      }
    }

    function GetWritePos(): (p: nat)
      reads this
      ensures p == writePos
    {
      writePos
    }

    /** `setWritePos(p)`: any non-negative position, even past the end of
        the buffer. */
    method SetWritePos(p: int) returns (ok: bool)
      modifies this`writePos
      ensures ok <==> p >= 0
      ensures writePos == if ok then p else old(writePos)
    {
      if p >= 0 {
        writePos := p;
        return true;
      } else {
        return false;
      }
    }

    /** `getBuffer()`: `data.slice(0, writePos)`, which stops at the end of
        the buffer. */
    function GetBuffer(): (b: seq<byte>)
      reads this
      ensures |b| == Min(writePos, |data|)
      ensures b == Written()[..|b|]
      ensures writePos <= |data| ==> b == Written()
    {
      WindowDef(data, writePos);
      data[..Min(writePos, |data|)]
    }

    /** `reset()`: both cursors back to the start of the body. */
    method Reset()
      modifies this`readPos, this`writePos
      ensures readPos == BodyStart && writePos == BodyStart
    {
      writePos := BodyStart;
      readPos := BodyStart;
    }

    /** `getClientCallbackID()`: bytes 1..4 as a little-endian number (the
        source combines the low three bytes with `<<` and `|`, whose bits
        do not overlap, so the sum is the same). */
    function GetClientCallbackID(): (id: nat)
      requires Valid()
      reads this
      ensures id == LEValue(data[1..5]) && id < TwoTo32
    {
      LEValue4(data[1..5]);
      data[4] as int * 16777216 + (data[3] as int * 65536 + data[2] as int * 256 + data[1] as int)
    }

    /** `setClientCallbackID(id)`: writes the four bytes of `id` at
        position 1 through `putByte` and puts the write cursor back. */
    method SetClientCallbackID(id: int)
      requires Valid()
      modifies this
      ensures Valid() && readPos == old(readPos) && writePos == old(writePos)
      ensures data == Overwrite(old(data), 1, LE4(id))
      ensures GetClientCallbackID() == id % TwoTo32
    {
      var originWritePos := writePos;
      writePos := 1;
      PutUint32(id);
      writePos := originWritePos;
      PutInside(old(data), 1, LE4(id));
      LE4RoundTrip(id);
      assert data[1..5] == LE4(id);
    }

    /** `canRead()`: there is a byte to look at before the write cursor. */
    function CanRead(): (r: bool)
      reads this
      ensures r <==> Peek(data, writePos, readPos) != -1
    {
      readPos < writePos
    }

    /** The eight `putByte` calls of the eight-byte branch of `writeInt64`
        and `writeUint64`: six values of `v`, then `(v >>> 8) & 0x1F` with
        the bits `top` set (0xE0 for `| 0xE0`, 0 for `& 0x1F`), then `last`. */
    method PutSteps53(u: nat, top: int, last: byte)
      requires Valid()
      modifies this
      ensures Valid() && readPos == old(readPos) && writePos <= |data|
      ensures Written() == old(Written()) + Steps53(u, top, last)
    {
      ghost var w0 := Written();
      PutFour(Shifted(u, 0), Shifted(u, 1), Shifted(u, 2), Shifted(u, 3));
      PutFour(Shifted(u, 4), Shifted(u, 5), ShiftRight8(Shifted(u, 5)) % 32 + top, last);
      ghost var s := Steps53(u, top, last);
      assert s == s[..4] + s[4..];
    }

    /** Four `putByte` calls in a row. */
    method PutFour(a: int, b: int, c: int, d: int)
      requires Valid()
      modifies this
      ensures Valid() && readPos == old(readPos) && writePos <= |data|
      ensures Written() == old(Written()) + [ToByte(a), ToByte(b), ToByte(c), ToByte(d)]
    {
      ghost var w0 := Written();
      PutByte(a);
      PutByte(b);
      PutByte(c);
      PutByte(d);
      assert w0 + [ToByte(a)] + [ToByte(b)] + [ToByte(c)] + [ToByte(d)]
          == w0 + [ToByte(a), ToByte(b), ToByte(c), ToByte(d)];
    }

    /** `for (let i = 0; i < 8; i++) this.putByte(bytes[i])`, the raw branch
        of `writeInt64` and `writeUint64`, for any number of bytes. */
    method PutEach(bytes: seq<byte>)
      requires Valid()
      modifies this
      ensures Valid() && readPos == old(readPos) && writePos == old(writePos) + |bytes|
      ensures |bytes| > 0 ==> writePos <= |data|
      ensures Written() == old(Written()) + bytes
    {
      ghost var w0 := Written();
      for i := 0 to |bytes|
        invariant Valid() && readPos == old(readPos) && writePos == old(writePos) + i
        invariant i > 0 ==> writePos <= |data|
        invariant Written() == w0 + bytes[..i]
      {
        PutByte(bytes[i]);
        Assoc(w0, bytes[..i], [bytes[i]]);
        assert bytes[..i + 1] == bytes[..i] + [bytes[i]];
      }
      assert bytes[..|bytes|] == bytes;
    }

    method WriteNull()
      requires Valid()
      modifies this
      ensures Valid() && readPos == old(readPos) && writePos <= |data|
      ensures Written() == old(Written()) + Encode(Null)
    {
      PutByte(1);
    }

    method WriteBool(v: bool)
      requires Valid()
      modifies this
      ensures Valid() && readPos == old(readPos) && writePos <= |data|
      ensures Written() == old(Written()) + Encode(Bool(v))
    {
      if v {
        PutByte(2);
      } else {
        PutByte(3);
      }
    }

    /** `writeFloat64`: a zero (of either sign) is the tag alone, NaN is
        refused, anything else is tag 5 and the eight IEEE-754 bytes. */
    method WriteFloat64(value: Float64) returns (ok: bool)
      requires Valid()
      modifies this
      ensures Valid() && readPos == old(readPos)
      ensures ok == Encodable(Float(value))
      ensures ok ==> Written() == old(Written()) + Encode(Float(value)) && writePos <= |data|
      ensures !ok ==> Written() == old(Written()) && writePos == old(writePos)
    {
      ghost var w0 := Written();
      if value.IsZero() {
        PutByte(4);
        return true;
      } else if !value.IsNaN() {
        PutByte(5);
        assert Written() == w0 + [5];
        PutBytes(value.bits);
        assert Written() == w0 + [5] + value.bits;
        Assoc(w0, [5], value.bits);
        return true;
      } else {
        return false;
      }
    }

    /** `writeInt64`: the shortest of the four forms that holds a safe
        value; the NaN marker is written only with its eight raw bytes. */
    method WriteInt64(value: Int64) returns (ok: bool)
      requires Valid()
      modifies this
      ensures Valid() && readPos == old(readPos)
      ensures ok == !value.Invalid?
      ensures ok ==> Written() == old(Written()) + EncodeInt64(value) && writePos <= |data|
      ensures !ok ==> Written() == old(Written()) && writePos == old(writePos)
    {
      ghost var w0 := Written();
      var n := value.ToNumber();
      if n.Integer? && -8 < n.i < 33 {
        PutByte(n.i + 21);
        assert EncodeInt64(value) == [n.i + 21];
        return true;
      } else if n.Integer? && -32768 <= n.i < 32768 {
        var v := n.i + 32768;
        PutByte(6);
        assert Written() == w0 + [6];
        PutByte(v);
        PutByte(ShiftRight8(v));
        assert Written() == w0 + [6] + [LE2(v)[0]] + [LE2(v)[1]];
        Concat2(w0 + [6], LE2(v));
        Assoc(w0, [6], LE2(v));
        assert EncodeInt64(value) == [6] + LE2(v);
        return true;
      } else if n.Integer? && -2147483648 <= n.i < 2147483648 {
        var v := n.i + 2147483648;
        PutByte(7);
        assert Written() == w0 + [7];
        PutUint32(v);
        assert Written() == w0 + [7] + LE4(v);
        Assoc(w0, [7], LE4(v));
        assert EncodeInt64(value) == [7] + LE4(v);
        return true;
      } else if n.Integer? && -MaxSafe <= n.i <= MaxSafe {
        var negative := n.i < 0;
        var v: nat := if negative then n.i + TwoTo53 else n.i;
        ghost var top, last := if negative then 0xE0 else 0, if negative then 0x7F else 0x80;
        PutByte(8);
        assert Written() == w0 + [8];
        if negative {
          PutSteps53(v, 0xE0, 0x7F);
        } else {
          PutSteps53(v, 0, 0x80);
        }
        assert Written() == w0 + [8] + Steps53(v, top, last);
        Assoc(w0, [8], Steps53(v, top, last));
        Int64Steps(value, v, top, last);
        return true;
      } else {
        var bytes := value.GetBytes();
        if n.NotAnInteger? && |bytes| == 8 {
          PutByte(8);
          assert Written() == w0 + [8];
          PutEach(bytes);
          assert Written() == w0 + [8] + bytes;
          Assoc(w0, [8], bytes);
          assert EncodeInt64(value) == [8] + bytes;
          return true;
        } else {
          return false;
        }
      }
    }

    /** `writeUint64`: the same scheme with tags 54..63 and 9..11. */
    method WriteUint64(value: Uint64) returns (ok: bool)
      requires Valid()
      modifies this
      ensures Valid() && readPos == old(readPos)
      ensures ok == !value.UInvalid?
      ensures ok ==> Written() == old(Written()) + EncodeUint64(value) && writePos <= |data|
      ensures !ok ==> Written() == old(Written()) && writePos == old(writePos)
    {
      ghost var w0 := Written();
      var n := value.ToNumber();
      if n.Integer? && n.i < 10 {
        PutByte(n.i + 54);
        assert EncodeUint64(value) == [n.i + 54];
        return true;
      } else if n.Integer? && n.i < 65536 {
        PutByte(9);
        assert Written() == w0 + [9];
        PutByte(n.i);
        PutByte(ShiftRight8(n.i));
        assert Written() == w0 + [9] + [LE2(n.i)[0]] + [LE2(n.i)[1]];
        Concat2(w0 + [9], LE2(n.i));
        Assoc(w0, [9], LE2(n.i));
        assert EncodeUint64(value) == [9] + LE2(n.i);
        return true;
      } else if n.Integer? && n.i < 4294967296 {
        PutByte(10);
        assert Written() == w0 + [10];
        PutUint32(n.i);
        assert Written() == w0 + [10] + LE4(n.i);
        Assoc(w0, [10], LE4(n.i));
        assert EncodeUint64(value) == [10] + LE4(n.i);
        return true;
      } else if n.Integer? && n.i <= MaxSafe {
        var v: nat := n.i;
        PutByte(11);
        assert Written() == w0 + [11];
        PutSteps53(v, 0, 0);
        assert Written() == w0 + [11] + Steps53(v, 0, 0);
        Assoc(w0, [11], Steps53(v, 0, 0));
        Uint64Steps(value);
        return true;
      } else {
        var bytes := value.GetBytes();
        if n.NotAnInteger? && |bytes| == 8 {
          PutByte(11);
          assert Written() == w0 + [11];
          PutEach(bytes);
          assert Written() == w0 + [11] + bytes;
          Assoc(w0, [11], bytes);
          assert EncodeUint64(value) == [11] + bytes;
          return true;
        } else {
          return false;
        }
      }
    }

    /** `writeString`: the empty string is tag 128; otherwise the UTF-8
        bytes framed by a short or long header and a 0 terminator. */
    method WriteString(v: string) returns (ok: bool)
      requires Valid()
      modifies this
      ensures Valid() && readPos == old(readPos) && writePos <= |data|
      ensures ok && Written() == old(Written()) + EncodeString(v)
    {
      ghost var w0 := Written();
      if v == "" {
        PutByte(128);
        return true;
      }
      var strBuffer := Utf8.Encode(v);
      var length := |strBuffer|;
      if length < 63 {
        var tag: byte := length + 128;
        PutByte(tag);
        assert Written() == w0 + [tag];
        PutBytes(strBuffer);
        assert Written() == w0 + [tag] + strBuffer;
        PutByte(0);
        assert Written() == w0 + [tag] + strBuffer + [0];
        Assoc3(w0, [tag], strBuffer, [0]);
        assert EncodeString(v) == [tag] + strBuffer + [0];
        return true;
      } else {
        PutByte(191);
        assert Written() == w0 + [191];
        PutUint32(length);
        PutBytes(strBuffer);
        PutByte(0);
        assert Written() == w0 + [191] + LE4(length) + strBuffer + [0];
        Assoc4(w0, [191], LE4(length), strBuffer, [0]);
        assert EncodeString(v) == [191] + LE4(length) + strBuffer + [0];
        return true;
      }
    }

    /** `writeBytes`: tag 192 for no bytes, else a short or long header and
        the bytes, with no terminator. */
    method WriteBytes(v: seq<byte>) returns (ok: bool)
      requires Valid()
      modifies this
      ensures Valid() && readPos == old(readPos) && writePos <= |data|
      ensures ok && Written() == old(Written()) + EncodeBinary(v)
    {
      ghost var w0 := Written();
      var length := |v|;
      if length == 0 {
        PutByte(192);
        return true;
      } else if length < 63 {
        var tag: byte := length + 192;
        PutByte(tag);
        assert Written() == w0 + [tag];
        PutBytes(v);
        assert Written() == w0 + [tag] + v;
        Assoc(w0, [tag], v);
        assert EncodeBinary(v) == [tag] + v;
        return true;
      } else {
        PutByte(255);
        assert Written() == w0 + [255];
        PutUint32(length);
        PutBytes(v);
        assert Written() == w0 + [255] + LE4(length) + v;
        Assoc3(w0, [255], LE4(length), v);
        assert EncodeBinary(v) == [255] + LE4(length) + v;
        return true;
      }
    }

    /** `writeArray`: the tag, then the write cursor skips four bytes
        (whatever the buffer held there stays for now), the count for more
        than 30 elements, then the elements; a refused element puts the
        write cursor back to where the array started, and on success the
        total length is patched over the four skipped bytes. */
    method WriteArray(items: seq<Value>) returns (ok: bool)
      requires Valid()
      modifies this
      ensures Valid() && readPos == old(readPos)
      ensures ok == Encodable(Array(items))
      ensures ok ==> Written() == old(Written()) + Encode(Array(items)) && writePos <= |data|
      ensures !ok ==> Written() == old(Written()) && writePos == old(writePos)
      decreases Array(items), 1
    {
      var arrLen := |items|;
      if arrLen == 0 {
        PutByte(64);
        return true;
      }
      ghost var w0 := Written();
      var startPos := writePos;
      var gap := OpenContainer(if arrLen > 30 then 95 else arrLen + 64, arrLen);
      ghost var head := w0 + [ContainerTag(64, 95, arrLen)] + gap + CountBytes(arrLen);
      assert Written() == head;
      ok := WriteItems(items);
      if !ok {
        Unwind(startPos, w0, head);
        return false;
      }
      PatchTotal(startPos, w0, gap, 64, 95, arrLen, EncodeItems(items));
      assert Encode(Array(items)) == Container(64, 95, arrLen, EncodeItems(items));
    }

    /** The element loop of `writeArray`: each element in turn, stopping at
        the first one refused. */
    method WriteItems(items: seq<Value>) returns (ok: bool)
      requires Valid()
      modifies this
      ensures Valid() && readPos == old(readPos)
      ensures ok == Encodable(Array(items))
      ensures ok ==> Written() == old(Written()) + EncodeItems(items) && (|items| > 0 ==> writePos <= |data|)
      ensures !ok ==> old(writePos) <= writePos && Window(data, old(writePos)) == old(Written())
      decreases Array(items), 0
    {
      ghost var head := Written();
      var i := 0;
      while i < |items|
        invariant 0 <= i <= |items| && Valid() && readPos == old(readPos)
        invariant forall j | 0 <= j < i :: Encodable(items[j])
        invariant Written() == head + EncodeItems(items[..i])
        invariant old(writePos) <= writePos && (i > 0 ==> writePos <= |data|)
      {
        ok := Write(items[i]);
        if !ok {
          WindowPrefix(data, old(writePos), writePos);
          assert !Encodable(Array(items));
          return false;
        }
        assert Written() == head + EncodeItems(items[..i]) + Encode(items[i]);
        ItemsStep(head, items, i);
        i := i + 1;
      }
      assert items[..|items|] == items;
      return true;
    }

    /** `writeMap`: as `writeArray`, each entry written as its key string
        followed by its value. */
    method WriteMap(entries: seq<Entry>) returns (ok: bool)
      requires Valid()
      modifies this
      ensures Valid() && readPos == old(readPos)
      ensures ok == Encodable(Map(entries))
      ensures ok ==> Written() == old(Written()) + Encode(Map(entries)) && writePos <= |data|
      ensures !ok ==> Written() == old(Written()) && writePos == old(writePos)
      decreases Map(entries), 1
    {
      var mapLen := |entries|;
      if mapLen == 0 {
        PutByte(96);
        return true;
      }
      ghost var w0 := Written();
      var startPos := writePos;
      var gap := OpenContainer(if mapLen > 30 then 127 else mapLen + 96, mapLen);
      ghost var head := w0 + [ContainerTag(96, 127, mapLen)] + gap + CountBytes(mapLen);
      assert Written() == head;
      ok := WriteEntries(entries);
      if !ok {
        Unwind(startPos, w0, head);
        return false;
      }
      PatchTotal(startPos, w0, gap, 96, 127, mapLen, EncodeEntries(entries));
      assert Encode(Map(entries)) == Container(96, 127, mapLen, EncodeEntries(entries));
    }

    /** The entry loop of `writeMap`. */
    method WriteEntries(entries: seq<Entry>) returns (ok: bool)
      requires Valid()
      modifies this
      ensures Valid() && readPos == old(readPos)
      ensures ok == Encodable(Map(entries))
      ensures ok ==> Written() == old(Written()) + EncodeEntries(entries) && (|entries| > 0 ==> writePos <= |data|)
      ensures !ok ==> old(writePos) <= writePos && Window(data, old(writePos)) == old(Written())
      decreases Map(entries), 0
    {
      ghost var head := Written();
      var i := 0;
      while i < |entries|
        invariant 0 <= i <= |entries| && Valid() && readPos == old(readPos)
        invariant forall j | 0 <= j < i :: Encodable(entries[j].value)
        invariant Written() == head + EncodeEntries(entries[..i])
        invariant old(writePos) <= writePos && (i > 0 ==> writePos <= |data|)
      {
        assert entries[i] in entries;
        ok := WriteEntry(entries[i]);
        if !ok {
          WindowPrefix(data, old(writePos), writePos);
          assert !Encodable(Map(entries));
          return false;
        }
        assert Written() == head + EncodeEntries(entries[..i]) + EncodeEntry(entries[i]);
        EntriesStep(head, entries, i);
        i := i + 1;
      }
      assert entries[..|entries|] == entries;
      return true;
    }

    /** A refused element: the write cursor goes back to where the container
        started, which leaves what was written before it. */
    method Unwind(startPos: nat, ghost w0: seq<byte>, ghost head: seq<byte>)
      requires Valid() && startPos == |w0| <= |head| && head[..|w0|] == w0
      requires |head| <= writePos && Window(data, |head|) == head
      modifies this`writePos
      ensures Valid() && writePos == startPos && Written() == w0
    {
      WindowPrefix(data, startPos, |head|);
      var _ := SetWritePos(startPos);
    }

    /** One pass of `writeMap`'s loop: the key as a string, then the value. */
    method WriteEntry(e: Entry) returns (ok: bool)
      requires Valid()
      modifies this
      ensures Valid() && readPos == old(readPos)
      ensures ok == Encodable(e.value)
      ensures ok ==> Written() == old(Written()) + EncodeEntry(e) && writePos <= |data|
      ensures !ok ==> Written() == old(Written()) + EncodeString(e.key)
      decreases e, 3
    {
      ghost var w0 := Written();
      var _ := WriteString(e.key);
      ok := Write(e.value);
      if ok {
        Assoc(w0, EncodeString(e.key), Encode(e.value));
      }
    }

    /** The header of `writeArray` and `writeMap`: the tag, four bytes
        skipped for the total length (`writePos += 4`), and for more than 30
        elements the element count. */
    method OpenContainer(tag: byte, n: nat) returns (ghost gap: seq<byte>)
      requires Valid()
      modifies this
      ensures Valid() && readPos == old(readPos) && |gap| == 4
      ensures Written() == old(Written()) + [tag] + gap + CountBytes(n)
    {
      ghost var w0 := Written();
      var startPos := writePos;
      PutByte(tag);
      assert Written() == w0 + [tag];
      writePos := writePos + 4;
      SplitWindow(data, w0 + [tag], startPos + 1, writePos);
      gap := Written()[startPos + 1..];
      assert Written() == w0 + [tag] + gap;
      if n > 30 {
        PutUint32(n);
      }
    }

    /** The back-patch of `writeArray` and `writeMap`: put the total length
        `endPos - startPos` over the four skipped bytes through `putByte` and
        restore the write cursor. */
    method PatchTotal(startPos: nat, ghost w0: seq<byte>, ghost gap: seq<byte>,
                      ghost shortBase: byte, ghost longTag: byte, ghost n: nat, ghost body: seq<byte>)
      requires Valid() && 0 < n && (n <= 30 ==> shortBase as int + n < 256)
      requires startPos == |w0| && |gap| == 4 && writePos <= |data|
      requires Written() == w0 + [ContainerTag(shortBase, longTag, n)] + gap + CountBytes(n) + body
      modifies this
      ensures Valid() && readPos == old(readPos) && writePos <= |data|
      ensures Written() == w0 + Container(shortBase, longTag, n, body)
    {
      ghost var d := data;
      var endPos := writePos;
      var totalLength := endPos - startPos;
      writePos := startPos + 1;
      PutUint32(totalLength);
      assert data == Put(d, startPos + 1, LE4(totalLength));
      writePos := endPos;
      PatchedWindow(d, endPos, w0, gap, shortBase, longTag, n, body);
    }

    /** `write(v)`: dispatch on the kind of value; anything `write` does not
        support is refused without writing. */
    method Write(v: Value) returns (ok: bool)
      requires Valid()
      modifies this
      ensures Valid() && readPos == old(readPos)
      ensures ok == Encodable(v)
      ensures ok ==> Written() == old(Written()) + Encode(v) && writePos <= |data|
      ensures !ok ==> Written() == old(Written()) && writePos == old(writePos)
      decreases v, 2
    {
      match v
      case Null =>
        WriteNull();
        return true;
      case Bool(b) =>
        WriteBool(b);
        return true;
      case Str(s) =>
        ok := WriteString(s);
      case Int(i) =>
        ok := WriteInt64(i);
      case Uint(u) =>
        ok := WriteUint64(u);
      case Float(f) =>
        ok := WriteFloat64(f);
      case Binary(b) =>
        ok := WriteBytes(b);
      case Array(items) =>
        ok := WriteArray(items);
      case Map(entries) =>
        ok := WriteMap(entries);
      case Other =>
        return false;
    }

    /** `peekByte()`: the byte under the read cursor, -1 when the cursor has
        reached the write cursor (256 stands for the `undefined` read past
        the end of the buffer). */
    method PeekByte() returns (ch: int)
      ensures ch == Peek(data, writePos, readPos)
    {
      if readPos < writePos {
        if readPos < |data| {
          return data[readPos] as int;
        }
        return 256;
      } else {
        return -1;
      }
    }

    /** `readNBytes(n)`: the next `n` bytes when that many are left before
        the write cursor, advancing the read cursor past them; otherwise no
        bytes and no move. */
    method ReadNBytes(n: int) returns (bytes: seq<byte>)
      modifies this`readPos
      ensures Chunk(bytes, readPos) == ReadN(data, writePos, old(readPos), n)
    {
      if n > 0 {
        var end := readPos + n;
        if end <= writePos {
          var ret := data[Min(readPos, |data|)..Min(end, |data|)];
          readPos := end;
          return ret;
        }
      }
      return [];
    }

    method ReadNull() returns (ok: bool)
      modifies this`readPos
      ensures Read((), ok, readPos) == DecodeNull(data, writePos, old(readPos))
    {
      var ch := PeekByte();
      if ch == 1 {
        readPos := readPos + 1;
        return true;
      } else {
        return false;
      }
    }

    method ReadBool() returns (v: bool, ok: bool)
      modifies this`readPos
      ensures Read(v, ok, readPos) == DecodeBool(data, writePos, old(readPos))
    {
      var ch := PeekByte();
      if ch == 2 {
        readPos := readPos + 1;
        return true, true;
      } else if ch == 3 {
        readPos := readPos + 1;
        return false, true;
      } else {
        return false, false;
      }
    }

    /** `readFloat64()`: tag 4 is zero, tag 5 is followed by the eight
        IEEE-754 bytes. */
    method ReadFloat64() returns (v: Float64, ok: bool)
      modifies this`readPos
      ensures Read(v, ok, readPos) == DecodeFloat64(data, writePos, old(readPos))
    {
      var ch := PeekByte();
      if ch == 4 {
        readPos := readPos + 1;
        return Float64([0, 0, 0, 0, 0, 0, 0, 0]), true;
      } else if ch == 5 {
        var bytes := ReadNBytes(9);
        if |bytes| == 9 {
          return Float64(bytes[1..]), true;
        }
      }
      return FloatNaN, false;
    }

    /** `readInt64()`: a one-byte small value, or tag 6, 7 or 8 and the
        two, four or eight bytes after it. */
    method ReadInt64() returns (v: Int64, ok: bool)
      modifies this`readPos
      ensures Read(v, ok, readPos) == DecodeInt64(data, writePos, old(readPos))
    {
      var ch := PeekByte();
      if ch > 13 && ch < 54 {
        readPos := readPos + 1;
        return Safe(ch - 21), true;
      } else if ch == 6 {
        var bytes := ReadNBytes(3);
        if |bytes| == 3 {
          return Safe(bytes[2] as int * 256 + bytes[1] as int - 32768), true;
        }
      } else if ch == 7 {
        var bytes := ReadNBytes(5);
        if |bytes| == 5 {
          return Safe(Uint32Of(bytes[1], bytes[2], bytes[3], bytes[4]) - 2147483648), true;
        }
      } else if ch == 8 {
        var bytes := ReadNBytes(9);
        if |bytes| == 9 {
          return Int64Of(bytes[1..]), true;
        }
      }
      return Invalid, false;
    }

    /** `readUint64()`: the unsigned counterpart with tags 54..63 and 9..11. */
    method ReadUint64() returns (v: Uint64, ok: bool)
      modifies this`readPos
      ensures Read(v, ok, readPos) == DecodeUint64(data, writePos, old(readPos))
    {
      var ch := PeekByte();
      if ch > 53 && ch < 64 {
        readPos := readPos + 1;
        return USafe(ch - 54), true;
      } else if ch == 9 {
        var bytes := ReadNBytes(3);
        if |bytes| == 3 {
          return USafe(bytes[2] as int * 256 + bytes[1] as int), true;
        }
      } else if ch == 10 {
        var bytes := ReadNBytes(5);
        if |bytes| == 5 {
          return USafe(Uint32Of(bytes[1], bytes[2], bytes[3], bytes[4])), true;
        }
      } else if ch == 11 {
        var bytes := ReadNBytes(9);
        if |bytes| == 9 {
          return Uint64Of(bytes[1..]), true;
        }
      }
      return UInvalid, false;
    }

    /** `readString()`: the short form carries the length in its tag, the
        long form in four bytes after tag 191 (and must exceed 62); both end
        in a 0 byte and must be valid UTF-8. A failure restores the cursor. */
    method ReadString() returns (v: string, ok: bool)
      modifies this`readPos
      ensures Read(v, ok, readPos) == DecodeString(data, writePos, old(readPos))
    {
      var ch := PeekByte();
      if ch == 128 {
        readPos := readPos + 1;
        return "", true;
      } else if ch > 128 && ch < 191 {
        var oldReadPos := readPos;
        var length := ch - 128;
        var bytes := ReadNBytes(length + 2);
        if |bytes| == length + 2 && bytes[length + 1] == 0 {
          var s := Utf8.Decode(bytes[1..length + 1]);
          if s.Some? {
            return s.value, true;
          }
        }
        var _ := SetReadPos(oldReadPos);
        return "", false;
      } else if ch == 191 {
        var oldReadPos := readPos;
        var lenBytes := ReadNBytes(5);
        if |lenBytes| == 5 {
          var length := Uint32Of(lenBytes[1], lenBytes[2], lenBytes[3], lenBytes[4]);
          if length > 62 {
            var bytes := ReadNBytes(length + 1);
            if |bytes| == length + 1 && bytes[length] == 0 {
              var s := Utf8.Decode(bytes[..length]);
              if s.Some? {
                return s.value, true;
              }
            }
          }
        }
        var _ := SetReadPos(oldReadPos);
        return "", false;
      }
      return "", false;
    }

    /** `readBytes()`: tag 192 is empty, tags 193..254 carry the length,
        tag 255 is followed by a four-byte length above 62. Only the long
        form restores the cursor on failure. */
    method ReadBytes() returns (v: seq<byte>, ok: bool)
      modifies this`readPos
      ensures Read(v, ok, readPos) == DecodeBinary(data, writePos, old(readPos))
    {
      var ch := PeekByte();
      if ch == 192 {
        readPos := readPos + 1;
        return [], true;
      } else if ch > 192 && ch < 255 {
        var length := ch - 192;
        var bytes := ReadNBytes(length + 1);
        if |bytes| == length + 1 {
          return bytes[1..], true;
        }
      } else if ch == 255 {
        var oldReadPos := readPos;
        var lenBytes := ReadNBytes(5);
        if |lenBytes| == 5 {
          var length := Uint32Of(lenBytes[1], lenBytes[2], lenBytes[3], lenBytes[4]);
          if length > 62 {
            var bytes := ReadNBytes(length);
            if |bytes| == length {
              return bytes, true;
            }
          }
        }
        var _ := SetReadPos(oldReadPos);
        return [], false;
      }
      return [], false;
    }

    /** The header of an array or map whose tag `ch` lies above `base`: the
        count from the tag or, in the long form, from bytes 5..8, and the
        total from bytes 1..4; both stay 0 when the bytes are missing. */
    method ReadHeader(ch: int, base: int) returns (count: nat, total: nat)
      requires ch == Peek(data, writePos, readPos) && base < ch < base + 32
      modifies this`readPos
      ensures Header(count, total, readPos) == ContainerHeader(data, writePos, old(readPos), ch, base)
    {
      if ch < base + 31 {
        count := ch - base;
        total := 0;
        var lenBytes := ReadNBytes(5);
        if |lenBytes| == 5 {
          total := Uint32Of(lenBytes[1], lenBytes[2], lenBytes[3], lenBytes[4]);
        }
      } else {
        count, total := 0, 0;
        var lenBytes := ReadNBytes(9);
        if |lenBytes| == 9 {
          total := Uint32Of(lenBytes[1], lenBytes[2], lenBytes[3], lenBytes[4]);
          count := Uint32Of(lenBytes[5], lenBytes[6], lenBytes[7], lenBytes[8]);
        }
      }
    }

    /** `readArray()`: a container header, then that many values read one
        after another; the whole read fails, with the read cursor back on
        the tag, if an element fails or if the elements do not end exactly
        `totalLen` bytes after the tag. */
    method ReadArray() returns (v: seq<Value>, ok: bool)
      modifies this`readPos
      ensures Read(v, ok, readPos) == DecodeArray(data, writePos, old(readPos))
      decreases Dist(writePos, readPos), 0
    {
      var ch := PeekByte();
      if ch >= 64 && ch < 96 {
        var readStart := readPos;
        if ch == 64 {
          readPos := readPos + 1;
          return [], true;
        }
        var arrLen, totalLen := ReadHeader(ch, 64);
        if arrLen > 0 && totalLen > 4 {
          var items := ReadItems(arrLen);
          if items.Some? && GetReadPos() == readStart + totalLen {
            return items.value, true;
          }
        }
        var _ := SetReadPos(readStart);
      }
      return [], false;
    }

    /** The element loop of `readArray`: `n` values one after another. */
    method ReadItems(n: nat) returns (r: Option<seq<Value>>)
      modifies this`readPos
      ensures r.Some? <==> DecodeItems(data, writePos, old(readPos), n, []).Some?
      ensures r.Some? ==> DecodeItems(data, writePos, old(readPos), n, []) == Some((r.value, readPos))
      decreases Dist(writePos, readPos), 3
    {
      ghost var first := readPos;
      var ret: seq<Value> := [];
      var i := 0;
      while i < n
        invariant 0 <= i <= n && first <= readPos
        invariant DecodeItems(data, writePos, readPos, n - i, ret) == DecodeItems(data, writePos, first, n, [])
        invariant Dist(writePos, readPos) <= Dist(writePos, first)
      {
        ghost var p0 := readPos;
        var x, xok := ReadValue();
        if !xok {
          return None;
        }
        assert Decode(data, writePos, p0) == Read(x, true, readPos);
        assert DecodeItems(data, writePos, p0, n - i, ret) == DecodeItems(data, writePos, readPos, n - i - 1, ret + [x]);
        ret := ret + [x];
        i := i + 1;
      }
      return Some(ret);
    }

    /** `readMap()`: as `readArray`, each entry a key string then a value,
        stored with `Map.set`. */
    method ReadMap() returns (v: seq<Entry>, ok: bool)
      modifies this`readPos
      ensures Read(v, ok, readPos) == DecodeMap(data, writePos, old(readPos))
      decreases Dist(writePos, readPos), 0
    {
      var ch := PeekByte();
      if ch >= 96 && ch < 128 {
        var readStart := readPos;
        if ch == 96 {
          readPos := readPos + 1;
          return [], true;
        }
        var mapLen, totalLen := ReadHeader(ch, 96);
        if mapLen > 0 && totalLen > 4 {
          var entries := ReadEntries(mapLen);
          if entries.Some? && GetReadPos() == readStart + totalLen {
            return entries.value, true;
          }
        }
        var _ := SetReadPos(readStart);
      }
      return [], false;
    }

    /** The entry loop of `readMap`: `n` entries one after another. */
    method ReadEntries(n: nat) returns (r: Option<seq<Entry>>)
      modifies this`readPos
      ensures r.Some? <==> DecodeEntries(data, writePos, old(readPos), n, []).Some?
      ensures r.Some? ==> DecodeEntries(data, writePos, old(readPos), n, []) == Some((r.value, readPos))
      decreases Dist(writePos, readPos), 3
    {
      ghost var first := readPos;
      var ret: seq<Entry> := [];
      var left := n;
      while left > 0
        invariant first <= readPos
        invariant DecodeEntries(data, writePos, readPos, left, ret) == DecodeEntries(data, writePos, first, n, [])
        invariant Dist(writePos, readPos) <= Dist(writePos, first)
      {
        var e, eok := ReadEntryOf(left, ret);
        if !eok {
          return None;
        }
        ret := MapSet(ret, e.key, e.value);
        left := left - 1;
      }
      assert DecodeEntries(data, writePos, readPos, 0, ret) == Some((ret, readPos));
      return Some(ret);
    }

    /** One pass of the entry loop, as a step of `DecodeEntries` with `n`
        entries still to read after those in `acc`. */
    method ReadEntryOf(ghost n: nat, ghost acc: seq<Entry>) returns (e: Entry, ok: bool)
      requires n > 0
      modifies this`readPos
      ensures ok ==> old(readPos) < readPos
      ensures ok ==> DecodeEntries(data, writePos, old(readPos), n, acc)
                     == DecodeEntries(data, writePos, readPos, n - 1, MapSet(acc, e.key, e.value))
      ensures !ok ==> DecodeEntries(data, writePos, old(readPos), n, acc).None?
      decreases Dist(writePos, readPos), 2
    {
      ghost var p0 := readPos;
      e, ok := ReadEntry();
      if ok {
        CodecLemmas.EntriesNext(data, writePos, p0, n, acc, e, readPos);
      } else {
        CodecLemmas.EntriesNone(data, writePos, p0, n, acc);
      }
    }

    /** One pass of `readMap`'s loop: the key string, then the value. */
    method ReadEntry() returns (e: Entry, ok: bool)
      modifies this`readPos
      ensures ok ==> DecodeEntry(data, writePos, old(readPos)) == Some((e, readPos))
      ensures !ok ==> DecodeEntry(data, writePos, old(readPos)).None?
      decreases Dist(writePos, readPos), 1
    {
      var name, nameOk := ReadString();
      if !nameOk {
        return Entry([], Null), false;
      }
      var value, valueOk := ReadValue();
      return Entry(name, value), valueOk;
    }

    /** `read()`: dispatch on the tag under the read cursor. */
    method ReadValue() returns (v: Value, ok: bool)
      modifies this`readPos
      ensures Read(v, ok, readPos) == Decode(data, writePos, old(readPos))
      decreases Dist(writePos, readPos), 2
    {
      var op := PeekByte();
      if op == 1 {
        ok := ReadNull();
        v := Null;
      } else if op == 2 || op == 3 {
        var b;
        b, ok := ReadBool();
        v := Bool(b);
      } else if op == 4 || op == 5 {
        var f;
        f, ok := ReadFloat64();
        v := Float(f);
      } else if 6 <= op <= 8 {
        var i;
        i, ok := ReadInt64();
        v := Int(i);
      } else if 9 <= op <= 11 {
        var u;
        u, ok := ReadUint64();
        v := Uint(u);
      } else if op == 12 || op == 13 {
        v, ok := Null, false;
      } else {
        var cat := Category(op);
        if cat == 0 {
          if op < 54 {
            var i;
            i, ok := ReadInt64();
            v := Int(i);
          } else {
            var u;
            u, ok := ReadUint64();
            v := Uint(u);
          }
        } else if cat == 1 {
          if op < 96 {
            var items;
            items, ok := ReadArray();
            v := Array(items);
          } else {
            var entries;
            entries, ok := ReadMap();
            v := Map(entries);
          }
        } else if cat == 2 {
          var s;
          s, ok := ReadString();
          v := Str(s);
        } else {
          var b;
          b, ok := ReadBytes();
          v := Binary(b);
        }
      }
    }
  }
}

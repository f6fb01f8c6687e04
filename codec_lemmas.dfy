/** What the wire format guarantees: every value `write` accepts is read
    back by `read` exactly, consuming exactly its encoding; a read that
    succeeds does not depend on bytes past where it stops; and a buffer cut
    anywhere inside an encoding reads as a failure that leaves the cursor
    where it was. */
module CodecLemmas {
  import opened Bytes
  import opened Types
  import opened Wrappers
  import opened Codec
  import Utf8

  /** `e` sits in `d` at position `pos`, byte by byte. The definition
      goes through two intermediate predicates so that the verifier, which
      unfolds a recursive definition only a step or two at each use, sees
      no bytes at all where the fact is only passed along; `AtDef` below
      is the one place that opens it. */
  predicate At(d: seq<byte>, pos: nat, e: seq<byte>)
    decreases |e|, 2
  {
    AtSealed(d, pos, e)
  }

  predicate AtSealed(d: seq<byte>, pos: nat, e: seq<byte>)
    decreases |e|, 1
  {
    AtBytes(d, pos, e)
  }

  predicate AtBytes(d: seq<byte>, pos: nat, e: seq<byte>)
    decreases |e|, 0
  {
    if |e| == 0 then pos <= |d| else pos < |d| && d[pos] == e[0] && At(d, pos + 1, e[1..])
  }

  lemma AtDef(d: seq<byte>, pos: nat, e: seq<byte>)
    ensures At(d, pos, e) <==> if |e| == 0 then pos <= |d| else pos < |d| && d[pos] == e[0] && At(d, pos + 1, e[1..])
  {
    assert At(d, pos, e) == AtSealed(d, pos, e);
    assert AtSealed(d, pos, e) == AtBytes(d, pos, e);
  }

  lemma {:induction false} AtSlice(d: seq<byte>, pos: nat, e: seq<byte>)
    ensures At(d, pos, e) <==> pos + |e| <= |d| && d[pos..pos + |e|] == e
    decreases |e|
  {
    AtDef(d, pos, e);
    if |e| > 0 {
      AtSlice(d, pos + 1, e[1..]);
      if pos + |e| <= |d| {
        assert d[pos..pos + |e|] == [d[pos]] + d[pos + 1..pos + 1 + |e[1..]|];
        assert e == [e[0]] + e[1..];
      }
    }
  }

  const NegativeZero: Bits64 := [0, 0, 0, 0, 0, 0, 0, 0x80]

  predicate DistinctKeys(entries: seq<Entry>)
  {
    forall i, j | 0 <= i < j < |entries| :: entries[i].key != entries[j].key
  }

  function Keys(entries: seq<Entry>): set<string>
  {
    set e | e in entries :: e.key
  }

  /** The values that `read` gives back unchanged: the codec writes -0 as
      the zero tag (read back as +0), a map with a repeated key loses the
      earlier value on reading, and raw int bytes that form a safe pattern
      are read back as that safe number. `fromBytes` never produces such
      raw bytes and a JavaScript `Map` never has repeated keys. */
  predicate WellFormed(v: Value)
  {
    match v
    case Float(f) => f.bits != NegativeZero
    case Int(i) => i.Raw? ==> Int64Of(i.bytes) == i
    case Uint(u) => u.URaw? ==> Uint64Of(u.bytes) == u
    case Array(items) => forall x | x in items :: WellFormed(x)
    case Map(entries) => DistinctKeys(entries) && forall e | e in entries :: WellFormed(e.value)
    case _ => true
  }

  // ---------------------------------------------------------------------
  // Reading from a region that holds a known encoding

  lemma ReadNAt(d: seq<byte>, limit: nat, pos: nat, e: seq<byte>, n: nat)
    requires At(d, pos, e) && 0 < n <= |e| && pos + n <= limit
    ensures ReadN(d, limit, pos, n) == Chunk(e[..n], pos + n)
  {
    AtSlice(d, pos, e);
    assert d[pos..pos + n] == d[pos..pos + |e|][..n];
  }

  lemma AtSuffix(d: seq<byte>, pos: nat, e: seq<byte>, k: nat)
    requires At(d, pos, e) && k <= |e|
    ensures At(d, pos + k, e[k..])
  {
    AtSlice(d, pos, e);
    AtSlice(d, pos + k, e[k..]);
    assert d[pos + k..pos + |e|] == d[pos..pos + |e|][k..];
  }

  lemma AtPrefix(d: seq<byte>, pos: nat, e: seq<byte>, k: nat)
    requires At(d, pos, e) && k <= |e|
    ensures At(d, pos, e[..k])
  {
    AtSlice(d, pos, e);
    AtSlice(d, pos, e[..k]);
    assert d[pos..pos + k] == d[pos..pos + |e|][..k];
  }

  lemma PeekAt(d: seq<byte>, limit: nat, pos: nat, e: seq<byte>)
    requires At(d, pos, e) && |e| > 0 && pos < limit
    ensures Peek(d, limit, pos) == e[0] as int
  {
    AtSlice(d, pos, e);
    assert d[pos] == d[pos..pos + |e|][0];
  }

  lemma ReadAllAt(d: seq<byte>, limit: nat, pos: nat, e: seq<byte>)
    requires At(d, pos, e) && 0 < |e| && pos + |e| <= limit
    ensures ReadN(d, limit, pos, |e|) == Chunk(e, pos + |e|)
  {
    ReadNAt(d, limit, pos, e, |e|);
    assert e[..|e|] == e;
  }

  lemma AtSplit(d: seq<byte>, pos: nat, a: seq<byte>, b: seq<byte>)
    requires At(d, pos, a + b)
    ensures At(d, pos, a) && At(d, pos + |a|, b)
  {
    AtPrefix(d, pos, a + b, |a|);
    assert (a + b)[..|a|] == a;
    AtSuffix(d, pos, a + b, |a|);
    assert (a + b)[|a|..] == b;
  }

  /** A tag byte followed by a length written with `LE4` reads back as
      that length. */
  lemma LengthAfterTag(c: seq<byte>, tag: byte, n: nat)
    requires c == [tag] + LE4(n) && n < TwoTo32
    ensures Uint32Of(c[1], c[2], c[3], c[4]) == n
  {
    LE4RoundTrip(n);
  }

  /** A tag, a four-byte length and then `rest`: the tag is under the
      cursor, the five-byte read gives the length back, and `rest` follows. */
  lemma LengthAt(d: seq<byte>, limit: nat, pos: nat, tag: byte, n: nat, rest: seq<byte>)
    requires n < TwoTo32 && At(d, pos, [tag] + LE4(n) + rest) && pos + 5 + |rest| <= limit
    ensures Peek(d, limit, pos) == tag as int
    ensures var c := ReadN(d, limit, pos, 5);
            c.pos == pos + 5 && |c.bytes| == 5 && Uint32Of(c.bytes[1], c.bytes[2], c.bytes[3], c.bytes[4]) == n
    ensures At(d, pos + 5, rest)
  {
    var e := [tag] + LE4(n) + rest;
    PeekAt(d, limit, pos, e);
    ReadNAt(d, limit, pos, e, 5);
    assert e[..5] == [tag] + LE4(n);
    LengthAfterTag(e[..5], tag, n);
    AtSuffix(d, pos, e, 5);
    assert e[5..] == rest;
  }

  lemma TailZero(u: seq<byte>)
    ensures (u + [0])[|u|] == 0 && (u + [0])[..|u|] == u
  {
  }

  // ---------------------------------------------------------------------
  // Round trip, type by type

  /** The four forms `readInt64` accepts, once the tag and the bytes the
      form takes are known to sit under the cursor. */
  lemma Int64Read(d: seq<byte>, limit: nat, pos: nat, e: seq<byte>, i: Int64)
    requires |e| > 0 && Peek(d, limit, pos) == e[0] as int && ReadN(d, limit, pos, |e|) == Chunk(e, pos + |e|)
    requires Int64Form(e, i)
    ensures DecodeInt64(d, limit, pos) == Read(i, true, pos + |e|)
  {
  }

  lemma Uint64Read(d: seq<byte>, limit: nat, pos: nat, e: seq<byte>, u: Uint64)
    requires |e| > 0 && Peek(d, limit, pos) == e[0] as int && ReadN(d, limit, pos, |e|) == Chunk(e, pos + |e|)
    requires Uint64Form(e, u)
    ensures DecodeUint64(d, limit, pos) == Read(u, true, pos + |e|)
  {
  }

  /** The form `writeInt64` chooses for `i`, as `Int64Read` takes it. */
  predicate Int64Form(e: seq<byte>, i: Int64)
  {
    || (|e| == 1 && 13 < e[0] < 54 && i.Safe? && i.value == e[0] as int - 21)
    || (|e| == 3 && e[0] == 6 && i.Safe? && i.value == e[2] as int * 256 + e[1] as int - 32768)
    || (|e| == 5 && e[0] == 7 && i.Safe? && i.value == Uint32Of(e[1], e[2], e[3], e[4]) - 2147483648)
    || (|e| == 9 && e[0] == 8 && i == Int64Of(e[1..]))
  }

  predicate Uint64Form(e: seq<byte>, u: Uint64)
  {
    || (|e| == 1 && 53 < e[0] < 64 && u.USafe? && u.value == e[0] as int - 54)
    || (|e| == 3 && e[0] == 9 && u.USafe? && u.value == e[2] as int * 256 + e[1] as int)
    || (|e| == 5 && e[0] == 10 && u.USafe? && u.value == Uint32Of(e[1], e[2], e[3], e[4]))
    || (|e| == 9 && e[0] == 11 && u == Uint64Of(e[1..]))
  }

  lemma Int64FormOf(i: Int64)
    requires !i.Invalid? && (i.Raw? ==> Int64Of(i.bytes) == i)
    ensures Int64Form(EncodeInt64(i), i)
  {
    match i
    case Safe(v) =>
      if -8 < v < 33 {
      } else if -32768 <= v < 32768 {
        Int64Form16(v);
      } else if -2147483648 <= v < 2147483648 {
        Int64Form32(v);
      } else {
        Int64Form64(v);
      }
    case Raw(b) =>
      assert EncodeInt64(i)[1..] == b;
  }

  lemma Int64Form16(v: SafeInt)
    requires !(-8 < v < 33) && -32768 <= v < 32768
    ensures Int64Form(EncodeInt64(Safe(v)), Safe(v))
  {
    var w := v + 32768;
    var hi, lo := w / 256, w % 256;
    assert w == 256 * hi + lo && hi < 256;
    ShiftSmall(w);
    assert EncodeInt64(Safe(v)) == [6, lo, hi];
  }

  lemma Int64Form32(v: SafeInt)
    requires !(-32768 <= v < 32768) && -2147483648 <= v < 2147483648
    ensures Int64Form(EncodeInt64(Safe(v)), Safe(v))
  {
    var w := v + 2147483648;
    var e := EncodeInt64(Safe(v));
    assert e == [7] + LE4(w);
    LengthAfterTag(e, 7, w);
  }

  lemma Int64Form64(v: SafeInt)
    requires !(-2147483648 <= v < 2147483648)
    ensures Int64Form(EncodeInt64(Safe(v)), Safe(v))
  {
    Int64OfBytes(v);
    assert EncodeInt64(Safe(v))[1..] == Int64Bytes(v);
  }

  lemma Uint64FormOf(u: Uint64)
    requires !u.UInvalid? && (u.URaw? ==> Uint64Of(u.bytes) == u)
    ensures Uint64Form(EncodeUint64(u), u)
  {
    match u
    case USafe(v) =>
      if v < 10 {
      } else if v < 65536 {
        Uint64Form16(v);
      } else if v < 4294967296 {
        Uint64Form32(v);
      } else {
        Uint64Form64(v);
      }
    case URaw(b) =>
      assert EncodeUint64(u)[1..] == b;
  }

  lemma Uint64Form16(v: SafeNat)
    requires 10 <= v < 65536
    ensures Uint64Form(EncodeUint64(USafe(v)), USafe(v))
  {
    ShiftSmall(v);
    assert v == 256 * (v / 256) + v % 256;
  }

  lemma Uint64Form32(v: SafeNat)
    requires 65536 <= v < 4294967296
    ensures Uint64Form(EncodeUint64(USafe(v)), USafe(v))
  {
    var e := EncodeUint64(USafe(v));
    assert e == [10] + LE4(v);
    LengthAfterTag(e, 10, v);
  }

  lemma Uint64Form64(v: SafeNat)
    requires v >= 4294967296
    ensures Uint64Form(EncodeUint64(USafe(v)), USafe(v))
  {
    Uint64OfBytes(v);
    assert EncodeUint64(USafe(v))[1..] == Uint64Bytes(v);
  }

  lemma DecodeEncodeInt64(i: Int64, d: seq<byte>, limit: nat, pos: nat)
    requires !i.Invalid? && (i.Raw? ==> Int64Of(i.bytes) == i)
    requires At(d, pos, EncodeInt64(i)) && pos + |EncodeInt64(i)| <= limit
    ensures DecodeInt64(d, limit, pos) == Read(i, true, pos + |EncodeInt64(i)|)
    ensures 6 <= EncodeInt64(i)[0] <= 8 || 13 < EncodeInt64(i)[0] < 54
  {
    var e := EncodeInt64(i);
    Int64FormOf(i);
    PeekAt(d, limit, pos, e);
    ReadNAt(d, limit, pos, e, |e|);
    assert e[..|e|] == e;
    Int64Read(d, limit, pos, e, i);
  }

  lemma DecodeEncodeUint64(u: Uint64, d: seq<byte>, limit: nat, pos: nat)
    requires !u.UInvalid? && (u.URaw? ==> Uint64Of(u.bytes) == u)
    requires At(d, pos, EncodeUint64(u)) && pos + |EncodeUint64(u)| <= limit
    ensures DecodeUint64(d, limit, pos) == Read(u, true, pos + |EncodeUint64(u)|)
    ensures 9 <= EncodeUint64(u)[0] <= 11 || 53 < EncodeUint64(u)[0] < 64
  {
    var e := EncodeUint64(u);
    Uint64FormOf(u);
    PeekAt(d, limit, pos, e);
    ReadNAt(d, limit, pos, e, |e|);
    assert e[..|e|] == e;
    Uint64Read(d, limit, pos, e, u);
  }

  lemma DecodeEncodeFloat64(f: Float64, d: seq<byte>, limit: nat, pos: nat)
    requires !f.IsNaN() && f.bits != NegativeZero
    requires At(d, pos, Encode(Float(f))) && pos + |Encode(Float(f))| <= limit
    ensures DecodeFloat64(d, limit, pos) == Read(f, true, pos + |Encode(Float(f))|)
  {
    var e := Encode(Float(f));
    PeekAt(d, limit, pos, e);
    if f.IsZero() {
      assert f.bits == [0, 0, 0, 0, 0, 0, 0, 0];
    } else {
      ReadAllAt(d, limit, pos, e);
      assert e[1..] == f.bits;
    }
  }

  lemma DecodeEncodeString(s: string, d: seq<byte>, limit: nat, pos: nat)
    requires |EncodeString(s)| < TwoTo32
    requires At(d, pos, EncodeString(s)) && pos + |EncodeString(s)| <= limit
    ensures DecodeString(d, limit, pos) == Read(s, true, pos + |EncodeString(s)|)
    ensures 128 <= EncodeString(s)[0] < 192
  {
    if s == "" {
      PeekAt(d, limit, pos, EncodeString(s));
    } else {
      var u := Utf8.Encode(s);
      Utf8.DecodeEncode(s);
      if |u| < 63 {
        assert EncodeString(s) == [|u| + 128] + u + [0];
        ShortStringAt(u, s, d, limit, pos);
      } else {
        assert EncodeString(s) == [191] + LE4(|u|) + (u + [0]);
        LongStringAt(u, s, d, limit, pos);
      }
    }
  }

  lemma ShortStringAt(u: seq<byte>, s: string, d: seq<byte>, limit: nat, pos: nat)
    requires 0 < |u| < 63 && Utf8.Decode(u) == Some(s)
    requires At(d, pos, [|u| + 128] + u + [0]) && pos + |u| + 2 <= limit
    ensures DecodeString(d, limit, pos) == Read(s, true, pos + |u| + 2)
  {
    var e := [|u| + 128] + u + [0];
    PeekAt(d, limit, pos, e);
    ReadAllAt(d, limit, pos, e);
    assert e[|u| + 1] == 0 && e[1..|u| + 1] == u;
    ShortStringRead(d, limit, pos, u, s);
  }

  /** The steps of `readString` for the short form, once its read is known. */
  lemma ShortStringRead(d: seq<byte>, limit: nat, pos: nat, u: seq<byte>, s: string)
    requires 0 < |u| < 63 && Peek(d, limit, pos) == |u| + 128
    requires var c := ReadN(d, limit, pos, |u| + 2);
      c.pos == pos + |u| + 2 && |c.bytes| == |u| + 2 && c.bytes[|u| + 1] == 0 && c.bytes[1..|u| + 1] == u
    requires Utf8.Decode(u) == Some(s)
    ensures DecodeString(d, limit, pos) == Read(s, true, pos + |u| + 2)
  {
  }

  lemma LongStringAt(u: seq<byte>, s: string, d: seq<byte>, limit: nat, pos: nat)
    requires |u| >= 63 && Utf8.Decode(u) == Some(s) && |u| + 6 < TwoTo32
    requires At(d, pos, [191] + LE4(|u|) + (u + [0])) && pos + |u| + 6 <= limit
    ensures DecodeString(d, limit, pos) == Read(s, true, pos + |u| + 6)
  {
    LengthAt(d, limit, pos, 191, |u|, u + [0]);
    ReadAllAt(d, limit, pos + 5, u + [0]);
    TailZero(u);
    LongStringRead(d, limit, pos, u, s);
  }

  /** The steps of `readString` for the long form, once its two reads are
      known. */
  lemma LongStringRead(d: seq<byte>, limit: nat, pos: nat, u: seq<byte>, s: string)
    requires Peek(d, limit, pos) == 191
    requires var c := ReadN(d, limit, pos, 5);
      c.pos == pos + 5 && |c.bytes| == 5 && Uint32Of(c.bytes[1], c.bytes[2], c.bytes[3], c.bytes[4]) == |u| && |u| > 62
    requires var c2 := ReadN(d, limit, pos + 5, |u| + 1);
      c2.pos == pos + |u| + 6 && |c2.bytes| == |u| + 1 && c2.bytes[|u|] == 0 && c2.bytes[..|u|] == u
    requires Utf8.Decode(u) == Some(s)
    ensures DecodeString(d, limit, pos) == Read(s, true, pos + |u| + 6)
  {
  }

  lemma DecodeEncodeBinary(b: seq<byte>, d: seq<byte>, limit: nat, pos: nat)
    requires |EncodeBinary(b)| < TwoTo32
    requires At(d, pos, EncodeBinary(b)) && pos + |EncodeBinary(b)| <= limit
    ensures DecodeBinary(d, limit, pos) == Read(b, true, pos + |EncodeBinary(b)|)
    ensures EncodeBinary(b)[0] >= 192
  {
    var e := EncodeBinary(b);
    if |b| == 0 {
      PeekAt(d, limit, pos, e);
    } else if |b| < 63 {
      PeekAt(d, limit, pos, e);
      ReadAllAt(d, limit, pos, e);
      assert e[1..] == b;
      ShortBinaryRead(d, limit, pos, b);
    } else {
      LengthAt(d, limit, pos, 255, |b|, b);
      ReadAllAt(d, limit, pos + 5, b);
      LongBinaryRead(d, limit, pos, b);
    }
  }

  lemma ShortBinaryRead(d: seq<byte>, limit: nat, pos: nat, b: seq<byte>)
    requires 0 < |b| < 63 && Peek(d, limit, pos) == |b| + 192
    requires var c := ReadN(d, limit, pos, |b| + 1);
      c.pos == pos + |b| + 1 && |c.bytes| == |b| + 1 && c.bytes[1..] == b
    ensures DecodeBinary(d, limit, pos) == Read(b, true, pos + |b| + 1)
  {
  }

  lemma LongBinaryRead(d: seq<byte>, limit: nat, pos: nat, b: seq<byte>)
    requires Peek(d, limit, pos) == 255
    requires var c := ReadN(d, limit, pos, 5);
      c.pos == pos + 5 && |c.bytes| == 5 && Uint32Of(c.bytes[1], c.bytes[2], c.bytes[3], c.bytes[4]) == |b| && |b| > 62
    requires ReadN(d, limit, pos + 5, |b|) == Chunk(b, pos + 5 + |b|)
    ensures DecodeBinary(d, limit, pos) == Read(b, true, pos + 5 + |b|)
  {
  }

  // ---------------------------------------------------------------------
  // Maps

  /** Appending an entry whose key is new puts it at the end. */
  lemma {:induction false} MapSetNew(entries: seq<Entry>, key: string, value: Value)
    requires key !in Keys(entries)
    ensures MapSet(entries, key, value) == entries + [Entry(key, value)]
  {
    if |entries| > 0 {
      assert entries[0] in entries;
      assert Keys(entries[1..]) <= Keys(entries) by {
        forall k | k in Keys(entries[1..]) ensures k in Keys(entries) {
          var e :| e in entries[1..] && e.key == k;
          assert e in entries;
        }
      }
      MapSetNew(entries[1..], key, value);
      assert entries == [entries[0]] + entries[1..];
    }
  }

  // ---------------------------------------------------------------------
  // Containers

  /** The header of a container whose count and total were written by
      `Container`. */
  lemma ContainerHeaderAt(d: seq<byte>, limit: nat, pos: nat, shortBase: byte, longTag: byte,
                          n: nat, body: seq<byte>)
    requires 0 < n && shortBase as int + 31 == longTag as int && longTag < 255
    requires |Container(shortBase, longTag, n, body)| < TwoTo32
    requires At(d, pos, Container(shortBase, longTag, n, body))
    requires pos + |Container(shortBase, longTag, n, body)| <= limit
    requires n <= |body|
    ensures var e := Container(shortBase, longTag, n, body);
            var h := ContainerHeader(d, limit, pos, e[0] as int, shortBase as int);
            && shortBase < e[0] <= longTag && Peek(d, limit, pos) == e[0] as int
            && h.count == n && h.total == |e| && At(d, h.pos, body) && h.pos + |body| == pos + |e|
  {
    var e := Container(shortBase, longTag, n, body);
    if n > 30 {
      var head := [longTag] + LE4(9 + |body|) + LE4(n);
      assert e == head + body;
      LongHeaderAt(d, limit, pos, head, body, longTag as int, shortBase as int, 9 + |body|, n);
    } else {
      var head := [shortBase + n] + LE4(5 + |body|);
      assert e == head + body;
      ShortHeaderAt(d, limit, pos, head, body, shortBase + n, shortBase as int, 5 + |body|);
    }
    PeekAt(d, limit, pos, e);
  }

  lemma ShortHeaderAt(d: seq<byte>, limit: nat, pos: nat, head: seq<byte>, body: seq<byte>,
                      tag: byte, base: int, total: nat)
    requires base < tag < base + 31 && total < TwoTo32
    requires head == [tag] + LE4(total) && total == 5 + |body|
    requires At(d, pos, head + body) && pos + total <= limit
    ensures var h := ContainerHeader(d, limit, pos, tag, base);
            h.count == tag - base && h.total == total && h.pos == pos + 5 && At(d, h.pos, body)
  {
    LengthAt(d, limit, pos, tag, total, body);
  }

  lemma LongHeaderAt(d: seq<byte>, limit: nat, pos: nat, head: seq<byte>, body: seq<byte>,
                     tag: int, base: int, total: nat, n: nat)
    requires tag == base + 31 && 0 <= tag < 256 && total < TwoTo32 && n < TwoTo32
    requires head == [tag] + LE4(total) + LE4(n) && total == 9 + |body|
    requires At(d, pos, head + body) && pos + total <= limit
    ensures var h := ContainerHeader(d, limit, pos, tag, base);
            h.count == n && h.total == total && h.pos == pos + 9 && At(d, h.pos, body)
  {
    var e := head + body;
    ReadNAt(d, limit, pos, e, 9);
    assert e[..9] == head;
    LengthAfterTag(head[..5], tag, total);
    LengthAfterTag([tag] + head[5..], tag, n);
    AtSuffix(d, pos, e, 9);
    assert e[9..] == body;
  }

  lemma EncodeItemsLength(items: seq<Value>)
    requires forall x | x in items :: Encodable(x)
    ensures |EncodeItems(items)| >= |items|
  {
    if |items| > 0 {
      EncodeItemsLength(items[1..]);
    }
  }

  lemma EncodeEntriesLength(entries: seq<Entry>)
    requires forall e | e in entries :: Encodable(e.value)
    ensures |EncodeEntries(entries)| >= |entries|
  {
    if |entries| > 0 {
      EncodeEntriesLength(entries[1..]);
    }
  }

  // ---------------------------------------------------------------------
  // How `read` dispatches on the tag byte

  /** The two high bits of a tag byte. */
  lemma CategoryOf(op: int)
    requires 0 <= op < 256
    ensures op < 64 ==> Category(op) == 0
    ensures 64 <= op < 128 ==> Category(op) == 1
    ensures 128 <= op < 192 ==> Category(op) == 2
    ensures 192 <= op ==> Category(op) == 3
  {
  }

  lemma DecodeOfScalar(d: seq<byte>, limit: nat, pos: nat)
    ensures var op := Peek(d, limit, pos);
      && (op == 1 ==> Decode(d, limit, pos) == var r := DecodeNull(d, limit, pos); Read(Null, r.ok, r.pos))
      && (op == 2 || op == 3 ==>
            Decode(d, limit, pos) == var r := DecodeBool(d, limit, pos); Read(Bool(r.value), r.ok, r.pos))
      && (op == 4 || op == 5 ==>
            Decode(d, limit, pos) == var r := DecodeFloat64(d, limit, pos); Read(Float(r.value), r.ok, r.pos))
  {
  }

  lemma DecodeOfInt(d: seq<byte>, limit: nat, pos: nat)
    requires var op := Peek(d, limit, pos); 6 <= op <= 8 || 13 < op < 54
    ensures Decode(d, limit, pos) == var r := DecodeInt64(d, limit, pos); Read(Int(r.value), r.ok, r.pos)
  {
  }

  lemma DecodeOfUint(d: seq<byte>, limit: nat, pos: nat)
    requires var op := Peek(d, limit, pos); 9 <= op <= 11 || 53 < op < 64
    ensures Decode(d, limit, pos) == var r := DecodeUint64(d, limit, pos); Read(Uint(r.value), r.ok, r.pos)
  {
  }

  lemma DecodeOfArray(d: seq<byte>, limit: nat, pos: nat)
    requires 64 <= Peek(d, limit, pos) < 96
    ensures Decode(d, limit, pos) == var r := DecodeArray(d, limit, pos); Read(Array(r.value), r.ok, r.pos)
  {
    CategoryOf(Peek(d, limit, pos));
  }

  lemma DecodeOfMap(d: seq<byte>, limit: nat, pos: nat)
    requires 96 <= Peek(d, limit, pos) < 128
    ensures Decode(d, limit, pos) == var r := DecodeMap(d, limit, pos); Read(Map(r.value), r.ok, r.pos)
  {
    CategoryOf(Peek(d, limit, pos));
  }

  lemma DecodeOfString(d: seq<byte>, limit: nat, pos: nat)
    requires 128 <= Peek(d, limit, pos) < 192
    ensures Decode(d, limit, pos) == var r := DecodeString(d, limit, pos); Read(Str(r.value), r.ok, r.pos)
  {
    CategoryOf(Peek(d, limit, pos));
  }

  lemma DecodeOfBinary(d: seq<byte>, limit: nat, pos: nat)
    requires 192 <= Peek(d, limit, pos) < 256
    ensures Decode(d, limit, pos) == var r := DecodeBinary(d, limit, pos); Read(Binary(r.value), r.ok, r.pos)
  {
    CategoryOf(Peek(d, limit, pos));
  }

  lemma ItemsStep(d: seq<byte>, limit: nat, pos: nat, n: nat, acc: seq<Value>, x: Value, next: nat)
    requires n > 0 && Decode(d, limit, pos) == Read(x, true, next)
    ensures DecodeItems(d, limit, pos, n, acc) == DecodeItems(d, limit, next, n - 1, acc + [x])
  {
  }

  /** One step of the entry loop, after an entry that reads. */
  lemma EntriesNext(d: seq<byte>, limit: nat, pos: nat, n: nat, acc: seq<Entry>, e: Entry, next: nat)
    requires n > 0 && DecodeEntry(d, limit, pos) == Some((e, next))
    ensures DecodeEntries(d, limit, pos, n, acc) == DecodeEntries(d, limit, next, n - 1, MapSet(acc, e.key, e.value))
  {
  }

  /** One step of the entry loop, after an entry that does not read. */
  lemma EntriesNone(d: seq<byte>, limit: nat, pos: nat, n: nat, acc: seq<Entry>)
    requires n > 0 && DecodeEntry(d, limit, pos).None?
    ensures DecodeEntries(d, limit, pos, n, acc).None?
  {
  }

  lemma EntriesStep(d: seq<byte>, limit: nat, pos: nat, n: nat, acc: seq<Entry>, key: string,
                    mid: nat, x: Value, next: nat)
    requires n > 0 && DecodeString(d, limit, pos) == Read(key, true, mid)
    requires Decode(d, limit, mid) == Read(x, true, next)
    ensures DecodeEntries(d, limit, pos, n, acc) == DecodeEntries(d, limit, next, n - 1, MapSet(acc, key, x))
  {
  }

  lemma ConsAppend<T>(acc: seq<T>, s: seq<T>)
    requires |s| > 0
    ensures acc + [s[0]] + s[1..] == acc + s
  {
    assert s == [s[0]] + s[1..];
  }

  // ---------------------------------------------------------------------
  // The facts the round trip passes between its lemmas. None of these is
  // recursive, so a fact one lemma proves reads the same where the next
  // lemma needs it.

  predicate Good(v: Value)
  {
    Encodable(v) && WellFormed(v)
  }

  predicate AllGood(items: seq<Value>)
  {
    forall x | x in items :: Good(x)
  }

  predicate AllGoodValues(entries: seq<Entry>)
  {
    forall e | e in entries :: Good(e.value)
  }

  function Size(v: Value): nat
    requires Encodable(v)
  {
    |Encode(v)|
  }

  function ItemsSize(items: seq<Value>): nat
    requires AllGood(items)
  {
    |EncodeItems(items)|
  }

  function EntriesSize(entries: seq<Entry>): nat
    requires AllGoodValues(entries)
  {
    |EncodeEntries(entries)|
  }

  function KeySize(key: string): nat
  {
    |EncodeString(key)|
  }

  predicate ValueAt(d: seq<byte>, pos: nat, v: Value)
    requires Encodable(v)
  {
    At(d, pos, Encode(v))
  }

  predicate ItemsAt(d: seq<byte>, pos: nat, items: seq<Value>)
    requires AllGood(items)
  {
    At(d, pos, EncodeItems(items))
  }

  predicate EntriesAt(d: seq<byte>, pos: nat, entries: seq<Entry>)
    requires AllGoodValues(entries)
  {
    At(d, pos, EncodeEntries(entries))
  }

  predicate KeyAt(d: seq<byte>, pos: nat, key: string)
  {
    At(d, pos, EncodeString(key))
  }

  /** `read` at `pos` gives `v` back and stops at `end`. */
  predicate ReadsBack(d: seq<byte>, limit: nat, pos: nat, v: Value, end: nat)
  {
    Decode(d, limit, pos) == Read(v, true, end)
  }

  /** The element loop gives `items` back after `acc` and stops at `end`. */
  predicate ItemsReadBack(d: seq<byte>, limit: nat, pos: nat, items: seq<Value>, acc: seq<Value>, end: nat)
  {
    DecodeItems(d, limit, pos, |items|, acc) == Some((acc + items, end))
  }

  predicate EntriesReadBack(d: seq<byte>, limit: nat, pos: nat, entries: seq<Entry>, acc: seq<Entry>,
                            end: nat)
  {
    DecodeEntries(d, limit, pos, |entries|, acc) == Some((acc + entries, end))
  }

  // ---------------------------------------------------------------------
  // Scalars read back

  lemma NullReadsBack(d: seq<byte>, limit: nat, pos: nat)
    requires ValueAt(d, pos, Null) && pos + Size(Null) <= limit
    ensures ReadsBack(d, limit, pos, Null, pos + Size(Null))
  {
    PeekAt(d, limit, pos, Encode(Null));
    DecodeOfScalar(d, limit, pos);
  }

  lemma BoolReadsBack(b: bool, d: seq<byte>, limit: nat, pos: nat)
    requires ValueAt(d, pos, Bool(b)) && pos + Size(Bool(b)) <= limit
    ensures ReadsBack(d, limit, pos, Bool(b), pos + Size(Bool(b)))
  {
    PeekAt(d, limit, pos, Encode(Bool(b)));
    DecodeOfScalar(d, limit, pos);
  }

  lemma FloatReadsBack(f: Float64, d: seq<byte>, limit: nat, pos: nat)
    requires Good(Float(f)) && ValueAt(d, pos, Float(f)) && pos + Size(Float(f)) <= limit
    ensures ReadsBack(d, limit, pos, Float(f), pos + Size(Float(f)))
  {
    PeekAt(d, limit, pos, Encode(Float(f)));
    DecodeOfScalar(d, limit, pos);
    DecodeEncodeFloat64(f, d, limit, pos);
  }

  lemma IntReadsBack(i: Int64, d: seq<byte>, limit: nat, pos: nat)
    requires Good(Int(i)) && ValueAt(d, pos, Int(i)) && pos + Size(Int(i)) <= limit
    ensures ReadsBack(d, limit, pos, Int(i), pos + Size(Int(i)))
  {
    DecodeEncodeInt64(i, d, limit, pos);
    PeekAt(d, limit, pos, EncodeInt64(i));
    DecodeOfInt(d, limit, pos);
  }

  lemma UintReadsBack(u: Uint64, d: seq<byte>, limit: nat, pos: nat)
    requires Good(Uint(u)) && ValueAt(d, pos, Uint(u)) && pos + Size(Uint(u)) <= limit
    ensures ReadsBack(d, limit, pos, Uint(u), pos + Size(Uint(u)))
  {
    DecodeEncodeUint64(u, d, limit, pos);
    PeekAt(d, limit, pos, EncodeUint64(u));
    DecodeOfUint(d, limit, pos);
  }

  lemma StrReadsBack(s: string, d: seq<byte>, limit: nat, pos: nat)
    requires Size(Str(s)) < TwoTo32 && ValueAt(d, pos, Str(s)) && pos + Size(Str(s)) <= limit
    ensures ReadsBack(d, limit, pos, Str(s), pos + Size(Str(s)))
  {
    DecodeEncodeString(s, d, limit, pos);
    PeekAt(d, limit, pos, EncodeString(s));
    DecodeOfString(d, limit, pos);
  }

  lemma BinaryReadsBack(b: seq<byte>, d: seq<byte>, limit: nat, pos: nat)
    requires Size(Binary(b)) < TwoTo32 && ValueAt(d, pos, Binary(b)) && pos + Size(Binary(b)) <= limit
    ensures ReadsBack(d, limit, pos, Binary(b), pos + Size(Binary(b)))
  {
    DecodeEncodeBinary(b, d, limit, pos);
    PeekAt(d, limit, pos, EncodeBinary(b));
    DecodeOfBinary(d, limit, pos);
  }

  // ---------------------------------------------------------------------
  // Containers read back, given their elements read back

  lemma GoodArray(items: seq<Value>)
    requires Good(Array(items))
    ensures AllGood(items)
  {
  }

  lemma GoodMap(entries: seq<Entry>)
    requires Good(Map(entries))
    ensures AllGoodValues(entries) && DistinctKeys(entries)
  {
  }

  lemma EmptyArrayReadsBack(d: seq<byte>, limit: nat, pos: nat)
    requires ValueAt(d, pos, Array([])) && pos + Size(Array([])) <= limit
    ensures ReadsBack(d, limit, pos, Array([]), pos + Size(Array([])))
  {
    PeekAt(d, limit, pos, Encode(Array([])));
    DecodeOfArray(d, limit, pos);
  }

  lemma EmptyMapReadsBack(d: seq<byte>, limit: nat, pos: nat)
    requires ValueAt(d, pos, Map([])) && pos + Size(Map([])) <= limit
    ensures ReadsBack(d, limit, pos, Map([]), pos + Size(Map([])))
  {
    PeekAt(d, limit, pos, Encode(Map([])));
    DecodeOfMap(d, limit, pos);
  }

  lemma ArrayLayout(items: seq<Value>)
    requires |items| > 0 && AllGood(items)
    ensures Encode(Array(items)) == Container(64, 95, |items|, EncodeItems(items))
    ensures |items| <= |EncodeItems(items)|
  {
    EncodeItemsLength(items);
  }

  lemma MapLayout(entries: seq<Entry>)
    requires |entries| > 0 && AllGoodValues(entries)
    ensures Encode(Map(entries)) == Container(96, 127, |entries|, EncodeEntries(entries))
    ensures |entries| <= |EncodeEntries(entries)|
  {
    EncodeEntriesLength(entries);
  }

  /** The header of a non-empty array: its tag, count and total, and
      where its elements start. */
  lemma ArrayHeaderAt(items: seq<Value>, d: seq<byte>, limit: nat, pos: nat) returns (h: Header)
    requires |items| > 0 && AllGood(items) && Size(Array(items)) < TwoTo32
    requires ValueAt(d, pos, Array(items)) && pos + Size(Array(items)) <= limit
    ensures 64 < Peek(d, limit, pos) < 96 && h == ContainerHeader(d, limit, pos, Peek(d, limit, pos), 64)
    ensures h.count == |items| && h.total == Size(Array(items)) && h.total > 4
    ensures h.pos + ItemsSize(items) == pos + Size(Array(items)) && ItemsAt(d, h.pos, items)
    ensures ItemsSize(items) < TwoTo32
  {
    ArrayLayout(items);
    ContainerHeaderAt(d, limit, pos, 64, 95, |items|, EncodeItems(items));
    h := ContainerHeader(d, limit, pos, Peek(d, limit, pos), 64);
  }

  lemma MapHeaderAt(entries: seq<Entry>, d: seq<byte>, limit: nat, pos: nat) returns (h: Header)
    requires |entries| > 0 && AllGoodValues(entries) && Size(Map(entries)) < TwoTo32
    requires ValueAt(d, pos, Map(entries)) && pos + Size(Map(entries)) <= limit
    ensures 96 < Peek(d, limit, pos) < 128 && h == ContainerHeader(d, limit, pos, Peek(d, limit, pos), 96)
    ensures h.count == |entries| && h.total == Size(Map(entries)) && h.total > 4
    ensures h.pos + EntriesSize(entries) == pos + Size(Map(entries)) && EntriesAt(d, h.pos, entries)
    ensures EntriesSize(entries) < TwoTo32
  {
    MapLayout(entries);
    ContainerHeaderAt(d, limit, pos, 96, 127, |entries|, EncodeEntries(entries));
    h := ContainerHeader(d, limit, pos, Peek(d, limit, pos), 96);
  }

  lemma ArrayReadsBack(items: seq<Value>, d: seq<byte>, limit: nat, pos: nat, h: Header, end: nat)
    requires 64 < Peek(d, limit, pos) < 96 && h == ContainerHeader(d, limit, pos, Peek(d, limit, pos), 64)
    requires h.count == |items| > 0 && h.total > 4 && end == pos + h.total
    requires ItemsReadBack(d, limit, h.pos, items, [], end)
    ensures ReadsBack(d, limit, pos, Array(items), end)
  {
    assert [] + items == items;
    DecodeOfArray(d, limit, pos);
  }

  lemma MapReadsBack(entries: seq<Entry>, d: seq<byte>, limit: nat, pos: nat, h: Header, end: nat)
    requires 96 < Peek(d, limit, pos) < 128 && h == ContainerHeader(d, limit, pos, Peek(d, limit, pos), 96)
    requires h.count == |entries| > 0 && h.total > 4 && end == pos + h.total
    requires EntriesReadBack(d, limit, h.pos, entries, [], end)
    ensures ReadsBack(d, limit, pos, Map(entries), end)
  {
    assert [] + entries == entries;
    DecodeOfMap(d, limit, pos);
  }

  // ---------------------------------------------------------------------
  // Elements and entries, one at a time

  /** A non-empty array body is its first element's encoding followed by
      the rest of the body. */
  lemma ItemsSplit(items: seq<Value>, d: seq<byte>, pos: nat)
    requires |items| > 0 && AllGood(items) && ItemsAt(d, pos, items)
    ensures Good(items[0]) && AllGood(items[1..])
    ensures ItemsSize(items) == Size(items[0]) + ItemsSize(items[1..])
    ensures ValueAt(d, pos, items[0]) && ItemsAt(d, pos + Size(items[0]), items[1..])
  {
    assert items[0] in items;
    assert forall y | y in items[1..] :: y in items;
    AtSplit(d, pos, Encode(items[0]), EncodeItems(items[1..]));
  }

  lemma ItemsJoin(items: seq<Value>, d: seq<byte>, limit: nat, pos: nat, next: nat, acc: seq<Value>, end: nat)
    requires |items| > 0 && ReadsBack(d, limit, pos, items[0], next)
    requires ItemsReadBack(d, limit, next, items[1..], acc + [items[0]], end)
    ensures ItemsReadBack(d, limit, pos, items, acc, end)
  {
    ItemsStep(d, limit, pos, |items|, acc, items[0], next);
    ConsAppend(acc, items);
  }

  lemma EntriesSplit(entries: seq<Entry>, d: seq<byte>, pos: nat)
    requires |entries| > 0 && AllGoodValues(entries) && EntriesAt(d, pos, entries)
    ensures Good(entries[0].value) && AllGoodValues(entries[1..])
    ensures EntriesSize(entries)
         == KeySize(entries[0].key) + Size(entries[0].value) + EntriesSize(entries[1..])
    ensures KeyAt(d, pos, entries[0].key)
    ensures ValueAt(d, pos + KeySize(entries[0].key), entries[0].value)
    ensures EntriesAt(d, pos + KeySize(entries[0].key) + Size(entries[0].value), entries[1..])
  {
    EntriesFirstGood(entries);
    assert EncodeEntries(entries) == EncodeEntry(entries[0]) + EncodeEntries(entries[1..]);
    AtSplit(d, pos, EncodeEntry(entries[0]), EncodeEntries(entries[1..]));
    EntryAt(entries[0], d, pos);
  }

  lemma EntriesFirstGood(entries: seq<Entry>)
    requires |entries| > 0 && AllGoodValues(entries)
    ensures Good(entries[0].value) && AllGoodValues(entries[1..])
  {
    assert entries[0] in entries;
    assert forall y | y in entries[1..] :: y in entries;
  }

  lemma EntryAt(e: Entry, d: seq<byte>, pos: nat)
    requires Encodable(e.value) && At(d, pos, EncodeEntry(e))
    ensures |EncodeEntry(e)| == KeySize(e.key) + Size(e.value)
    ensures KeyAt(d, pos, e.key) && ValueAt(d, pos + KeySize(e.key), e.value)
  {
    AtSplit(d, pos, EncodeString(e.key), Encode(e.value));
  }

  /** With distinct keys, the first entry still to be read has a key that
      is new to the entries read so far. */
  lemma KeyIsNew(acc: seq<Entry>, entries: seq<Entry>)
    requires |entries| > 0 && DistinctKeys(acc + entries)
    ensures entries[0].key !in Keys(acc)
    ensures DistinctKeys(acc + [entries[0]] + entries[1..])
  {
    assert acc + [entries[0]] + entries[1..] == acc + entries;
    forall e | e in acc ensures e.key != entries[0].key {
      var j :| 0 <= j < |acc| && acc[j] == e;
      assert (acc + entries)[j] == e && (acc + entries)[|acc|] == entries[0];
    }
  }

  /** Reading an entry whose key is new appends it. */
  lemma EntriesFirst(en: Entry, n: nat, d: seq<byte>, limit: nat, pos: nat, mid: nat, next: nat,
                     acc: seq<Entry>)
    requires n > 0 && en.key !in Keys(acc)
    requires DecodeString(d, limit, pos) == Read(en.key, true, mid)
    requires ReadsBack(d, limit, mid, en.value, next)
    ensures DecodeEntries(d, limit, pos, n, acc) == DecodeEntries(d, limit, next, n - 1, acc + [en])
  {
    EntriesStep(d, limit, pos, n, acc, en.key, mid, en.value, next);
    MapSetNew(acc, en.key, en.value);
  }

  lemma EntriesJoin(entries: seq<Entry>, acc: seq<Entry>, first: Option<(seq<Entry>, nat)>,
                    rest: Option<(seq<Entry>, nat)>, end: nat)
    requires |entries| > 0 && first == rest && rest == Some((acc + [entries[0]] + entries[1..], end))
    ensures first == Some((acc + entries, end))
  {
    ConsAppend(acc, entries);
  }

  lemma KeyReadsBack(key: string, d: seq<byte>, limit: nat, pos: nat)
    requires KeySize(key) < TwoTo32 && KeyAt(d, pos, key) && pos + KeySize(key) <= limit
    ensures DecodeString(d, limit, pos) == Read(key, true, pos + KeySize(key))
  {
    DecodeEncodeString(key, d, limit, pos);
  }

  // ---------------------------------------------------------------------
  // The round trip

  /** Round trip: a value `write` accepts, sitting in the buffer at the read
      cursor with the write cursor at or past its end, is read back by
      `read` as itself, and the cursor ends right after its encoding. */
  lemma RoundTrip(v: Value, d: seq<byte>, limit: nat, pos: nat)
    requires Encodable(v) && WellFormed(v) && |Encode(v)| < TwoTo32
    requires At(d, pos, Encode(v)) && pos + |Encode(v)| <= limit
    ensures Decode(d, limit, pos) == Read(v, true, pos + |Encode(v)|)
  {
    DecodeEncode(v, d, limit, pos);
  }

  lemma {:induction false} DecodeEncode(v: Value, d: seq<byte>, limit: nat, pos: nat)
    requires Good(v) && Size(v) < TwoTo32 && ValueAt(d, pos, v) && pos + Size(v) <= limit
    ensures ReadsBack(d, limit, pos, v, pos + Size(v))
    decreases v, 1
  {
    match v
    case Null => NullReadsBack(d, limit, pos);
    case Bool(b) => BoolReadsBack(b, d, limit, pos);
    case Float(f) => FloatReadsBack(f, d, limit, pos);
    case Int(i) => IntReadsBack(i, d, limit, pos);
    case Uint(u) => UintReadsBack(u, d, limit, pos);
    case Str(s) => StrReadsBack(s, d, limit, pos);
    case Binary(b) => BinaryReadsBack(b, d, limit, pos);
    case Array(items) =>
      GoodArray(items);
      DecodeEncodeArray(items, d, limit, pos);
    case Map(entries) =>
      GoodMap(entries);
      DecodeEncodeMap(entries, d, limit, pos);
  }

  lemma {:induction false} DecodeEncodeArray(items: seq<Value>, d: seq<byte>, limit: nat, pos: nat)
    requires AllGood(items) && Size(Array(items)) < TwoTo32
    requires ValueAt(d, pos, Array(items)) && pos + Size(Array(items)) <= limit
    ensures ReadsBack(d, limit, pos, Array(items), pos + Size(Array(items)))
    decreases Array(items), 0
  {
    if |items| == 0 {
      EmptyArrayReadsBack(d, limit, pos);
    } else {
      var h := ArrayHeaderAt(items, d, limit, pos);
      DecodeEncodeItems(items, d, limit, h.pos, [], pos + Size(Array(items)));
      ArrayReadsBack(items, d, limit, pos, h, pos + Size(Array(items)));
    }
  }

  lemma NoPrefix(entries: seq<Entry>)
    requires DistinctKeys(entries)
    ensures DistinctKeys([] + entries)
  {
    assert [] + entries == entries;
  }

  lemma {:induction false} DecodeEncodeMap(entries: seq<Entry>, d: seq<byte>, limit: nat, pos: nat)
    requires AllGoodValues(entries) && DistinctKeys(entries) && Size(Map(entries)) < TwoTo32
    requires ValueAt(d, pos, Map(entries)) && pos + Size(Map(entries)) <= limit
    ensures ReadsBack(d, limit, pos, Map(entries), pos + Size(Map(entries)))
    decreases Map(entries), 0
  {
    if |entries| == 0 {
      EmptyMapReadsBack(d, limit, pos);
    } else {
      var h := MapHeaderAt(entries, d, limit, pos);
      NoPrefix(entries);
      DecodeEncodeEntries(entries, d, limit, h.pos, [], pos + Size(Map(entries)));
      MapReadsBack(entries, d, limit, pos, h, pos + Size(Map(entries)));
    }
  }

  lemma {:induction false} DecodeEncodeItems(items: seq<Value>, d: seq<byte>, limit: nat, pos: nat,
                                             acc: seq<Value>, end: nat)
    requires AllGood(items) && ItemsSize(items) < TwoTo32
    requires ItemsAt(d, pos, items) && end == pos + ItemsSize(items) && end <= limit
    ensures ItemsReadBack(d, limit, pos, items, acc, end)
    decreases items, 2
  {
    if |items| == 0 {
      assert acc + items == acc;
    } else {
      ItemsSplit(items, d, pos);
      var next := pos + Size(items[0]);
      DecodeEncode(items[0], d, limit, pos);
      DecodeEncodeItems(items[1..], d, limit, next, acc + [items[0]], end);
      ItemsJoin(items, d, limit, pos, next, acc, end);
    }
  }

  lemma {:induction false} DecodeEncodeEntries(entries: seq<Entry>, d: seq<byte>, limit: nat,
                                               pos: nat, acc: seq<Entry>, end: nat)
    requires AllGoodValues(entries) && DistinctKeys(acc + entries) && EntriesSize(entries) < TwoTo32
    requires EntriesAt(d, pos, entries) && end == pos + EntriesSize(entries) && end <= limit
    ensures EntriesReadBack(d, limit, pos, entries, acc, end)
    decreases entries, 2
  {
    if |entries| == 0 {
      assert acc + entries == acc;
    } else {
      var next := FirstEntryReadsBack(entries, d, limit, pos, acc, end);
      DecodeEncodeEntries(entries[1..], d, limit, next, acc + [entries[0]], end);
      EntriesJoin(entries, acc, DecodeEntries(d, limit, pos, |entries|, acc),
                  DecodeEntries(d, limit, next, |entries| - 1, acc + [entries[0]]), end);
    }
  }

  /** Reading the first entry of a map body: its key and value come back
      and the rest of the body starts at `next`. */
  lemma {:induction false} FirstEntryReadsBack(entries: seq<Entry>, d: seq<byte>, limit: nat,
                                               pos: nat, acc: seq<Entry>, end: nat) returns (next: nat)
    requires |entries| > 0
    requires AllGoodValues(entries) && DistinctKeys(acc + entries) && EntriesSize(entries) < TwoTo32
    requires EntriesAt(d, pos, entries) && end == pos + EntriesSize(entries) && end <= limit
    ensures DecodeEntries(d, limit, pos, |entries|, acc)
         == DecodeEntries(d, limit, next, |entries| - 1, acc + [entries[0]])
    ensures AllGoodValues(entries[1..]) && DistinctKeys(acc + [entries[0]] + entries[1..])
    ensures EntriesSize(entries[1..]) < TwoTo32
    ensures EntriesAt(d, next, entries[1..]) && end == next + EntriesSize(entries[1..])
    decreases entries, 1
  {
    var mid;
    mid, next := FirstEntryLayout(entries, d, pos, acc, end);
    FirstEntryReads(entries[0], |entries|, d, limit, pos, mid, next, acc);
  }

  /** Where the key, the value and the rest of a map body lie. */
  lemma FirstEntryLayout(entries: seq<Entry>, d: seq<byte>, pos: nat, acc: seq<Entry>, end: nat)
    returns (mid: nat, next: nat)
    requires |entries| > 0
    requires AllGoodValues(entries) && DistinctKeys(acc + entries) && EntriesSize(entries) < TwoTo32
    requires EntriesAt(d, pos, entries) && end == pos + EntriesSize(entries)
    ensures Good(entries[0].value) && entries[0].key !in Keys(acc)
    ensures KeySize(entries[0].key) < TwoTo32 && KeyAt(d, pos, entries[0].key)
    ensures mid == pos + KeySize(entries[0].key) && next <= end
    ensures Size(entries[0].value) < TwoTo32 && ValueAt(d, mid, entries[0].value)
    ensures next == mid + Size(entries[0].value)
    ensures AllGoodValues(entries[1..]) && DistinctKeys(acc + [entries[0]] + entries[1..])
    ensures EntriesSize(entries[1..]) < TwoTo32
    ensures EntriesAt(d, next, entries[1..]) && end == next + EntriesSize(entries[1..])
  {
    EntriesSplit(entries, d, pos);
    mid := pos + KeySize(entries[0].key);
    next := mid + Size(entries[0].value);
    KeyIsNew(acc, entries);
  }

  /** Reading a key and a value laid out one after the other is one pass of
      the entry loop. */
  lemma {:induction false} FirstEntryReads(en: Entry, n: nat, d: seq<byte>, limit: nat, pos: nat,
                                           mid: nat, next: nat, acc: seq<Entry>)
    requires n > 0 && Good(en.value) && en.key !in Keys(acc)
    requires KeySize(en.key) < TwoTo32 && KeyAt(d, pos, en.key) && mid == pos + KeySize(en.key)
    requires Size(en.value) < TwoTo32 && ValueAt(d, mid, en.value) && next == mid + Size(en.value)
    requires next <= limit
    ensures DecodeEntries(d, limit, pos, n, acc) == DecodeEntries(d, limit, next, n - 1, acc + [en])
    decreases en, 1
  {
    KeyReadsBack(en.key, d, limit, pos);
    DecodeEncode(en.value, d, limit, mid);
    EntriesFirst(en, n, d, limit, pos, mid, next, acc);
  }



  // ---------------------------------------------------------------------
  // A read that succeeds stops before the write cursor, so moving the
  // write cursor further out changes nothing; a cut inside an encoding
  // therefore makes the read fail.

  lemma ReadNExtend(d: seq<byte>, limit: nat, wider: nat, pos: nat, n: int)
    requires limit <= wider && n > 0 && pos + n <= limit
    ensures ReadN(d, wider, pos, n) == ReadN(d, limit, pos, n)
  {
  }

  lemma NullExtend(d: seq<byte>, limit: nat, wider: nat, pos: nat)
    requires limit <= wider && DecodeNull(d, limit, pos).ok
    ensures DecodeNull(d, wider, pos) == DecodeNull(d, limit, pos)
  {
  }

  lemma BoolExtend(d: seq<byte>, limit: nat, wider: nat, pos: nat)
    requires limit <= wider && DecodeBool(d, limit, pos).ok
    ensures DecodeBool(d, wider, pos) == DecodeBool(d, limit, pos)
  {
  }

  lemma FloatExtend(d: seq<byte>, limit: nat, wider: nat, pos: nat)
    requires limit <= wider && DecodeFloat64(d, limit, pos).ok
    ensures DecodeFloat64(d, wider, pos) == DecodeFloat64(d, limit, pos)
  {
    if Peek(d, limit, pos) == 5 {
      ReadNExtend(d, limit, wider, pos, 9);
    }
  }

  lemma IntExtend(d: seq<byte>, limit: nat, wider: nat, pos: nat)
    requires limit <= wider && DecodeInt64(d, limit, pos).ok
    ensures DecodeInt64(d, wider, pos) == DecodeInt64(d, limit, pos)
  {
    var ch := Peek(d, limit, pos);
    if ch == 6 {
      ReadNExtend(d, limit, wider, pos, 3);
    } else if ch == 7 {
      ReadNExtend(d, limit, wider, pos, 5);
    } else if ch == 8 {
      ReadNExtend(d, limit, wider, pos, 9);
    }
  }

  lemma UintExtend(d: seq<byte>, limit: nat, wider: nat, pos: nat)
    requires limit <= wider && DecodeUint64(d, limit, pos).ok
    ensures DecodeUint64(d, wider, pos) == DecodeUint64(d, limit, pos)
  {
    var ch := Peek(d, limit, pos);
    if ch == 9 {
      ReadNExtend(d, limit, wider, pos, 3);
    } else if ch == 10 {
      ReadNExtend(d, limit, wider, pos, 5);
    } else if ch == 11 {
      ReadNExtend(d, limit, wider, pos, 9);
    }
  }

  lemma StringExtend(d: seq<byte>, limit: nat, wider: nat, pos: nat)
    requires limit <= wider && DecodeString(d, limit, pos).ok
    ensures DecodeString(d, wider, pos) == DecodeString(d, limit, pos)
  {
    var ch := Peek(d, limit, pos);
    if 128 < ch < 191 {
      ReadNExtend(d, limit, wider, pos, ch - 128 + 2);
    } else if ch == 191 {
      var c := ReadN(d, limit, pos, 5);
      ReadNExtend(d, limit, wider, pos, 5);
      var len := Uint32Of(c.bytes[1], c.bytes[2], c.bytes[3], c.bytes[4]);
      ReadNExtend(d, limit, wider, c.pos, len + 1);
    }
  }

  lemma BinaryExtend(d: seq<byte>, limit: nat, wider: nat, pos: nat)
    requires limit <= wider && DecodeBinary(d, limit, pos).ok
    ensures DecodeBinary(d, wider, pos) == DecodeBinary(d, limit, pos)
  {
    var ch := Peek(d, limit, pos);
    if 192 < ch < 255 {
      ReadNExtend(d, limit, wider, pos, ch - 192 + 1);
    } else if ch == 255 {
      var c := ReadN(d, limit, pos, 5);
      ReadNExtend(d, limit, wider, pos, 5);
      var len := Uint32Of(c.bytes[1], c.bytes[2], c.bytes[3], c.bytes[4]);
      ReadNExtend(d, limit, wider, c.pos, len);
    }
  }

  lemma HeaderExtend(d: seq<byte>, limit: nat, wider: nat, pos: nat, ch: int, base: int)
    requires limit <= wider && base < ch < base + 32
    requires ContainerHeader(d, limit, pos, ch, base).total > 0
    ensures ContainerHeader(d, wider, pos, ch, base) == ContainerHeader(d, limit, pos, ch, base)
  {
    if ch < base + 31 {
      ReadNExtend(d, limit, wider, pos, 5);
    } else {
      ReadNExtend(d, limit, wider, pos, 9);
    }
  }

  /** A successful `read` gives the same result under any write cursor at
      or beyond the one it ran under. */
  lemma {:induction false} DecodeExtend(d: seq<byte>, limit: nat, wider: nat, pos: nat)
    requires limit <= wider && Decode(d, limit, pos).ok
    ensures Decode(d, wider, pos) == Decode(d, limit, pos)
    decreases Dist(limit, pos), 2
  {
    TaggedExtend(d, limit, wider, pos, Peek(d, limit, pos));
  }

  lemma {:induction false} TaggedExtend(d: seq<byte>, limit: nat, wider: nat, pos: nat, op: int)
    requires limit <= wider && op == Peek(d, limit, pos) && DecodeTagged(d, limit, pos, op).ok
    ensures op == Peek(d, wider, pos)
    ensures DecodeTagged(d, wider, pos, op) == DecodeTagged(d, limit, pos, op)
    decreases Dist(limit, pos), 1
  {
    if op == 1 {
      NullExtend(d, limit, wider, pos);
    } else if op == 2 || op == 3 {
      BoolExtend(d, limit, wider, pos);
    } else if op == 4 || op == 5 {
      FloatExtend(d, limit, wider, pos);
    } else if 6 <= op <= 8 {
      IntExtend(d, limit, wider, pos);
    } else if 9 <= op <= 11 {
      UintExtend(d, limit, wider, pos);
    } else {
      var cat := Category(op);
      if cat == 0 {
        if op < 54 {
          IntExtend(d, limit, wider, pos);
        } else {
          UintExtend(d, limit, wider, pos);
        }
      } else if cat == 1 {
        if op < 96 {
          ArrayExtend(d, limit, wider, pos);
        } else {
          MapExtend(d, limit, wider, pos);
        }
      } else if cat == 2 {
        StringExtend(d, limit, wider, pos);
      } else {
        BinaryExtend(d, limit, wider, pos);
      }
    }
  }

  lemma {:induction false} ArrayExtend(d: seq<byte>, limit: nat, wider: nat, pos: nat)
    requires limit <= wider && DecodeArray(d, limit, pos).ok
    ensures DecodeArray(d, wider, pos) == DecodeArray(d, limit, pos)
    decreases Dist(limit, pos), 0
  {
    var ch := Peek(d, limit, pos);
    if ch != 64 {
      var h := ContainerHeader(d, limit, pos, ch, 64);
      HeaderExtend(d, limit, wider, pos, ch, 64);
      ItemsExtend(d, limit, wider, h.pos, h.count, []);
    }
  }

  lemma {:induction false} MapExtend(d: seq<byte>, limit: nat, wider: nat, pos: nat)
    requires limit <= wider && DecodeMap(d, limit, pos).ok
    ensures DecodeMap(d, wider, pos) == DecodeMap(d, limit, pos)
    decreases Dist(limit, pos), 0
  {
    var ch := Peek(d, limit, pos);
    if ch != 96 {
      var h := ContainerHeader(d, limit, pos, ch, 96);
      HeaderExtend(d, limit, wider, pos, ch, 96);
      EntriesExtend(d, limit, wider, h.pos, h.count, []);
    }
  }

  lemma {:induction false} ItemsExtend(d: seq<byte>, limit: nat, wider: nat, pos: nat, n: nat, acc: seq<Value>)
    requires limit <= wider && DecodeItems(d, limit, pos, n, acc).Some?
    ensures DecodeItems(d, wider, pos, n, acc) == DecodeItems(d, limit, pos, n, acc)
    decreases Dist(limit, pos), 3, n
  {
    if n > 0 {
      var r := Decode(d, limit, pos);
      DecodeExtend(d, limit, wider, pos);
      ItemsExtend(d, limit, wider, r.pos, n - 1, acc + [r.value]);
    }
  }

  lemma {:induction false} EntriesExtend(d: seq<byte>, limit: nat, wider: nat, pos: nat, n: nat, acc: seq<Entry>)
    requires limit <= wider && DecodeEntries(d, limit, pos, n, acc).Some?
    ensures DecodeEntries(d, wider, pos, n, acc) == DecodeEntries(d, limit, pos, n, acc)
    decreases Dist(limit, pos), 3, n
  {
    if n > 0 {
      EntryExtend(d, limit, wider, pos);
      var (e, next) := DecodeEntry(d, limit, pos).value;
      EntriesExtend(d, limit, wider, next, n - 1, MapSet(acc, e.key, e.value));
    }
  }

  lemma {:induction false} EntryExtend(d: seq<byte>, limit: nat, wider: nat, pos: nat)
    requires limit <= wider && DecodeEntry(d, limit, pos).Some?
    ensures DecodeEntry(d, wider, pos) == DecodeEntry(d, limit, pos)
    decreases Dist(limit, pos), 2
  {
    var k := DecodeString(d, limit, pos);
    StringExtend(d, limit, wider, pos);
    DecodeExtend(d, limit, wider, k.pos);
  }

  /** The extension property stated for any read, successful or not. */
  lemma SucceededExtend(d: seq<byte>, limit: nat, wider: nat, pos: nat)
    requires limit <= wider
    ensures Decode(d, limit, pos).ok ==> Decode(d, wider, pos) == Decode(d, limit, pos)
  {
    if Decode(d, limit, pos).ok {
      DecodeExtend(d, limit, wider, pos);
    }
  }

  /** With the write cursor anywhere inside the encoding of a value `write`
      accepts, `read` fails and leaves the read cursor where it was. */
  lemma Truncated(v: Value, d: seq<byte>, pos: nat, cut: nat)
    requires Encodable(v) && WellFormed(v) && |Encode(v)| < TwoTo32
    requires At(d, pos, Encode(v)) && pos <= cut < pos + |Encode(v)|
    ensures !Decode(d, cut, pos).ok && Decode(d, cut, pos).pos == pos
  {
    var full := pos + |Encode(v)|;
    AtSlice(d, pos, Encode(v));
    RoundTrip(v, d, full, pos);
    SucceededExtend(d, cut, full, pos);
  }

  // ---------------------------------------------------------------------
  // When a string, array or map read is refused

  /** A short string is accepted exactly when its whole encoding lies
      before the write cursor, the byte after its contents is 0 and the
      contents are valid UTF-8. */
  lemma ShortStringAccepts(d: seq<byte>, limit: nat, pos: nat)
    requires 128 < Peek(d, limit, pos) < 191
    ensures var len := Peek(d, limit, pos) - 128;
            DecodeString(d, limit, pos).ok <==>
              pos + len + 2 <= limit && pos + len + 2 <= |d| && d[pos + len + 1] == 0 &&
              Utf8.Decode(d[pos + 1..pos + len + 1]).Some?
  {
    var len := Peek(d, limit, pos) - 128;
    var c := ReadN(d, limit, pos, len + 2);
    if pos + len + 2 <= limit && pos + len + 2 <= |d| {
      assert c.bytes[1..len + 1] == d[pos + 1..pos + len + 1];
    }
  }

  /** A short string whose terminator is not 0 is refused and the cursor
      stays. */
  lemma BadTerminator(d: seq<byte>, limit: nat, pos: nat)
    requires 128 < Peek(d, limit, pos) < 191
    requires var len := Peek(d, limit, pos) - 128;
             pos + len + 2 <= limit && pos + len + 2 <= |d| && d[pos + len + 1] != 0
    ensures DecodeString(d, limit, pos) == Read("", false, pos)
  {
    ShortStringAccepts(d, limit, pos);
  }

  /** The long string form declaring at most 62 bytes is refused and the
      cursor stays, even though a short form could hold that string. */
  lemma ShortLongForm(d: seq<byte>, limit: nat, pos: nat)
    requires Peek(d, limit, pos) == 191 && pos + 5 <= limit && pos + 5 <= |d|
    requires Uint32Of(d[pos + 1], d[pos + 2], d[pos + 3], d[pos + 4]) <= 62
    ensures DecodeString(d, limit, pos) == Read("", false, pos)
  {
    var c := ReadN(d, limit, pos, 5);
    assert c.bytes == d[pos..pos + 5];
  }

  /** A non-empty array is accepted exactly when its header has a positive
      count and a total above 4, every element reads, and the elements end
      exactly `total` bytes after the tag. */
  lemma ArrayAccepts(d: seq<byte>, limit: nat, pos: nat)
    requires 64 < Peek(d, limit, pos) < 96
    ensures var h := ContainerHeader(d, limit, pos, Peek(d, limit, pos), 64);
            var items := DecodeItems(d, limit, h.pos, h.count, []);
            DecodeArray(d, limit, pos).ok <==>
              h.count > 0 && h.total > 4 && items.Some? && items.value.1 == pos + h.total
  {
  }

  /** Elements that all read but end anywhere other than `total` bytes
      after the tag make the array read fail with the cursor restored. */
  lemma ArrayTotalMismatch(d: seq<byte>, limit: nat, pos: nat)
    requires 64 < Peek(d, limit, pos) < 96
    requires var h := ContainerHeader(d, limit, pos, Peek(d, limit, pos), 64);
             var items := DecodeItems(d, limit, h.pos, h.count, []);
             items.Some? && items.value.1 != pos + h.total
    ensures DecodeArray(d, limit, pos) == Read([], false, pos)
  {
    ArrayAccepts(d, limit, pos);
  }

  /** The same for a non-empty map and its entries. */
  lemma MapAccepts(d: seq<byte>, limit: nat, pos: nat)
    requires 96 < Peek(d, limit, pos) < 128
    ensures var h := ContainerHeader(d, limit, pos, Peek(d, limit, pos), 96);
            var entries := DecodeEntries(d, limit, h.pos, h.count, []);
            DecodeMap(d, limit, pos).ok <==>
              h.count > 0 && h.total > 4 && entries.Some? && entries.value.1 == pos + h.total
  {
  }

  /** Entries that all read but end anywhere other than `total` bytes
      after the tag make the map read fail with the cursor restored. */
  lemma MapTotalMismatch(d: seq<byte>, limit: nat, pos: nat)
    requires 96 < Peek(d, limit, pos) < 128
    requires var h := ContainerHeader(d, limit, pos, Peek(d, limit, pos), 96);
             var entries := DecodeEntries(d, limit, h.pos, h.count, []);
             entries.Some? && entries.value.1 != pos + h.total
    ensures DecodeMap(d, limit, pos) == Read([], false, pos)
  {
    MapAccepts(d, limit, pos);
  }
}

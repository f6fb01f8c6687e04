/** The wire format of `RPCStream` (src/stream.ts) as pure functions: what
    each `write*` method appends for a value, and what each `read*` method
    returns, and where it leaves the read cursor, for a buffer `d` whose
    write cursor is `limit` and whose read cursor is `pos`. */
module Codec {
  import opened Bytes
  import opened Types
  import opened Wrappers
  import Utf8

  /** A value as the stream's `write` dispatcher sees it. `Other` stands for
      every JavaScript value `write` refuses: numbers, `undefined`, and
      objects that are none of the supported classes. */
  datatype Value =
    | Null
    | Bool(b: bool)
    | Float(f: Float64)
    | Int(i: Int64)
    | Uint(u: Uint64)
    | Str(s: string)
    | Binary(data: seq<byte>)
    | Array(items: seq<Value>)
    | Map(entries: seq<Entry>)
    | Other

  /** One key/value pair of a `Map<string, any>`, in insertion order. */
  datatype Entry = Entry(key: string, value: Value)

  /** The outcome of a `read*` method: the value it returns, its `ok` flag,
      and the read cursor it leaves behind. */
  datatype Read<T> = Read(value: T, ok: bool, pos: nat)

  /** The values `write` accepts: no NaN float, no int that is the empty NaN
      marker, and nothing unsupported anywhere inside a container. */
  predicate Encodable(v: Value)
  {
    match v
    case Null => true
    case Bool(_) => true
    case Float(f) => !f.IsNaN()
    case Int(i) => !i.Invalid?
    case Uint(u) => !u.UInvalid?
    case Str(_) => true
    case Binary(_) => true
    case Array(items) => forall x | x in items :: Encodable(x)
    case Map(entries) => forall e | e in entries :: Encodable(e.value)
    case Other => false
  }

  /** Bytes 1..4 of an array or map: the total length, counted from the tag
      byte to the end of the last element; then, for more than 30 elements,
      the element count. */
  function Container(shortBase: byte, longTag: byte, n: nat, body: seq<byte>): (e: seq<byte>)
    requires 0 < n && (n <= 30 ==> shortBase as int + n < 256)
  {
    if n > 30 then [longTag] + LE4(9 + |body|) + LE4(n) + body
    else [shortBase + n] + LE4(5 + |body|) + body
  }

  /** What `writeInt64` appends (src/stream.ts:167-226). */
  function EncodeInt64(i: Int64): (e: seq<byte>)
    requires !i.Invalid?
  {
    match i
    case Safe(v) =>
      if -8 < v < 33 then [v + 21]
      else if -32768 <= v < 32768 then [6] + LE2(v + 32768)
      else if -2147483648 <= v < 2147483648 then [7] + LE4(v + 2147483648)
      else [8] + Int64Bytes(v)
    case Raw(b) => [8] + b
  }

  /** What `writeUint64` appends (src/stream.ts:228-276). */
  function EncodeUint64(u: Uint64): (e: seq<byte>)
    requires !u.UInvalid?
  {
    match u
    case USafe(v) =>
      if v < 10 then [v + 54]
      else if v < 65536 then [9] + LE2(v)
      else if v < 4294967296 then [10] + LE4(v)
      else [11] + Uint64Bytes(v)
    case URaw(b) => [11] + b
  }

  /** What `writeString` appends (src/stream.ts:278-317). */
  function EncodeString(s: string): (e: seq<byte>)
  {
    if s == "" then [128]
    else
      var u := Utf8.Encode(s);
      if |u| < 63 then [|u| + 128] + u + [0]
      else [191] + LE4(|u|) + u + [0]
  }

  /** What `writeBytes` appends (src/stream.ts:319-348). */
  function EncodeBinary(b: seq<byte>): (e: seq<byte>)
  {
    if |b| == 0 then [192]
    else if |b| < 63 then [|b| + 192] + b
    else [255] + LE4(|b|) + b
  }

  /** What `write` appends for a value it accepts. */
  function Encode(v: Value): (e: seq<byte>)
    requires Encodable(v)
  {
    match v
    case Null => [1]
    case Bool(b) => if b then [2] else [3]
    case Float(f) => if f.IsZero() then [4] else [5] + f.bits
    case Int(i) => EncodeInt64(i)
    case Uint(u) => EncodeUint64(u)
    case Str(s) => EncodeString(s)
    case Binary(b) => EncodeBinary(b)
    case Array(items) =>
      if |items| == 0 then [64] else Container(64, 95, |items|, EncodeItems(items))
    case Map(entries) =>
      if |entries| == 0 then [96] else Container(96, 127, |entries|, EncodeEntries(entries))
  }

  /** The elements of an array, one after the other. */
  function EncodeItems(items: seq<Value>): (e: seq<byte>)
    requires forall x | x in items :: Encodable(x)
  {
    if |items| == 0 then [] else Encode(items[0]) + EncodeItems(items[1..])
  }

  /** The entries of a map in insertion order, each as its key string
      followed by its value. */
  function EncodeEntries(entries: seq<Entry>): (e: seq<byte>)
    requires forall e | e in entries :: Encodable(e.value)
  {
    if |entries| == 0 then [] else EncodeEntry(entries[0]) + EncodeEntries(entries[1..])
  }

  /** One entry: its key as a string, then its value. */
  function EncodeEntry(e: Entry): (bytes: seq<byte>)
    requires Encodable(e.value)
  {
    EncodeString(e.key) + Encode(e.value)
  }

  // ---------------------------------------------------------------------
  // Reading

  /** `peekByte`: the byte under the read cursor, -1 when nothing is left
      before the write cursor, and 256 in place of the `undefined` a read
      past the end of the array gives (it compares unequal to every tag
      and `(undefined >>> 6) & 3` is 0, as `(256 >>> 6) & 3` is). */
  function Peek(d: seq<byte>, limit: nat, pos: nat): (ch: int)
    ensures -1 <= ch <= 256
    ensures ch == -1 <==> pos >= limit
  {
    if pos < limit then (if pos < |d| then d[pos] as int else 256) else -1
  }

  function Min(a: nat, b: nat): nat { if a <= b then a else b }

  /** The slice `readNBytes` returns and the cursor it leaves. */
  datatype Chunk = Chunk(bytes: seq<byte>, pos: nat)

  /** `readNBytes(n)`: when `n > 0` and `n` bytes are left before the write
      cursor, the cursor moves by `n` and the slice of the array between old
      and new cursor comes back (short when it runs past the array);
      otherwise nothing moves and the slice is empty. */
  function ReadN(d: seq<byte>, limit: nat, pos: nat, n: int): (c: Chunk)
    ensures n > 0 && pos + n <= limit ==> c.pos == pos + n
    ensures n > 0 && pos + n <= limit && pos + n <= |d| ==> c.bytes == d[pos..pos + n]
    ensures !(n > 0 && pos + n <= limit) ==> c == Chunk([], pos)
    ensures |c.bytes| <= if n > 0 then n else 0
  {
    if n > 0 && pos + n <= limit then Chunk(d[Min(pos, |d|)..Min(pos + n, |d|)], pos + n)
    else Chunk([], pos)
  }

  /** `(op >>> 6) & 0x03` in the `read` dispatcher. */
  function Category(op: int): int
  {
    (op % TwoTo32) / 64 % 4
  }

  /** `readNull` (src/stream.ts:488-495). */
  function DecodeNull(d: seq<byte>, limit: nat, pos: nat): (r: Read<()>)
    ensures r.ok ==> r.pos == pos + 1 <= limit
    ensures !r.ok ==> r.pos == pos
  {
    if Peek(d, limit, pos) == 1 then Read((), true, pos + 1) else Read((), false, pos)
  }

  /** `readBool` (src/stream.ts:497-509). */
  function DecodeBool(d: seq<byte>, limit: nat, pos: nat): (r: Read<bool>)
    ensures r.ok ==> r.pos == pos + 1 <= limit
    ensures !r.ok ==> r == Read(false, false, pos)
  {
    var ch := Peek(d, limit, pos);
    if ch == 2 then Read(true, true, pos + 1)
    else if ch == 3 then Read(false, true, pos + 1)
    else Read(false, false, pos)
  }

  /** `readFloat64` (src/stream.ts:511-526). */
  function DecodeFloat64(d: seq<byte>, limit: nat, pos: nat): (r: Read<Float64>)
    ensures r.ok ==> pos < r.pos <= limit
    ensures !r.ok ==> r.pos == pos || |d| < r.pos <= limit
  {
    var ch := Peek(d, limit, pos);
    if ch == 4 then Read(Float64([0, 0, 0, 0, 0, 0, 0, 0]), true, pos + 1)
    else if ch == 5 then
      var c := ReadN(d, limit, pos, 9);
      if |c.bytes| == 9 then Read(Float64(c.bytes[1..]), true, c.pos)
      else Read(FloatNaN, false, c.pos)
    else Read(FloatNaN, false, pos)
  }

  /** `readInt64` (src/stream.ts:528-571). */
  function DecodeInt64(d: seq<byte>, limit: nat, pos: nat): (r: Read<Int64>)
    ensures r.ok ==> pos < r.pos <= limit
    ensures !r.ok ==> r.pos == pos || |d| < r.pos <= limit
  {
    var ch := Peek(d, limit, pos);
    if 13 < ch < 54 then Read(Safe(ch - 21), true, pos + 1)
    else if ch == 6 then
      var c := ReadN(d, limit, pos, 3);
      if |c.bytes| == 3 then Read(Safe(c.bytes[2] as int * 256 + c.bytes[1] as int - 32768), true, c.pos)
      else Read(Invalid, false, c.pos)
    else if ch == 7 then
      var c := ReadN(d, limit, pos, 5);
      if |c.bytes| == 5 then
        Read(Safe(Uint32Of(c.bytes[1], c.bytes[2], c.bytes[3], c.bytes[4]) - 2147483648), true, c.pos)
      else Read(Invalid, false, c.pos)
    else if ch == 8 then
      var c := ReadN(d, limit, pos, 9);
      if |c.bytes| == 9 then Read(Int64Of(c.bytes[1..]), true, c.pos)
      else Read(Invalid, false, c.pos)
    else Read(Invalid, false, pos)
  }

  /** `readUint64` (src/stream.ts:573-614). */
  function DecodeUint64(d: seq<byte>, limit: nat, pos: nat): (r: Read<Uint64>)
    ensures r.ok ==> pos < r.pos <= limit
    ensures !r.ok ==> r.pos == pos || |d| < r.pos <= limit
  {
    var ch := Peek(d, limit, pos);
    if 53 < ch < 64 then Read(USafe(ch - 54), true, pos + 1)
    else if ch == 9 then
      var c := ReadN(d, limit, pos, 3);
      if |c.bytes| == 3 then Read(USafe(c.bytes[2] as int * 256 + c.bytes[1] as int), true, c.pos)
      else Read(UInvalid, false, c.pos)
    else if ch == 10 then
      var c := ReadN(d, limit, pos, 5);
      if |c.bytes| == 5 then Read(USafe(Uint32Of(c.bytes[1], c.bytes[2], c.bytes[3], c.bytes[4])), true, c.pos)
      else Read(UInvalid, false, c.pos)
    else if ch == 11 then
      var c := ReadN(d, limit, pos, 9);
      if |c.bytes| == 9 then Read(Uint64Of(c.bytes[1..]), true, c.pos)
      else Read(UInvalid, false, c.pos)
    else Read(UInvalid, false, pos)
  }

  /** `readString` (src/stream.ts:616-656): every failure puts the cursor
      back where it was. */
  function DecodeString(d: seq<byte>, limit: nat, pos: nat): (r: Read<string>)
    ensures r.ok ==> pos < r.pos <= limit
    ensures !r.ok ==> r == Read("", false, pos)
  {
    var ch := Peek(d, limit, pos);
    if ch == 128 then Read("", true, pos + 1)
    else if 128 < ch < 191 then
      var len := ch - 128;
      var c := ReadN(d, limit, pos, len + 2);
      if |c.bytes| == len + 2 && c.bytes[len + 1] == 0 then
        match Utf8.Decode(c.bytes[1..len + 1])
        case Some(s) => Read(s, true, c.pos)
        case None => Read("", false, pos)
      else Read("", false, pos)
    else if ch == 191 then
      var c := ReadN(d, limit, pos, 5);
      if |c.bytes| == 5 then
        var len := Uint32Of(c.bytes[1], c.bytes[2], c.bytes[3], c.bytes[4]);
        if len > 62 then
          var c2 := ReadN(d, limit, c.pos, len + 1);
          if |c2.bytes| == len + 1 && c2.bytes[len] == 0 then
            match Utf8.Decode(c2.bytes[..len])
            case Some(s) => Read(s, true, c2.pos)
            case None => Read("", false, pos)
          else Read("", false, pos)
        else Read("", false, pos)
      else Read("", false, pos)
    else Read("", false, pos)
  }

  /** `readBytes` (src/stream.ts:658-690): only the long form puts the cursor
      back on failure. */
  function DecodeBinary(d: seq<byte>, limit: nat, pos: nat): (r: Read<seq<byte>>)
    ensures r.ok ==> pos < r.pos <= limit
    ensures !r.ok ==> r.pos == pos || |d| < r.pos <= limit
  {
    var ch := Peek(d, limit, pos);
    if ch == 192 then Read([], true, pos + 1)
    else if 192 < ch < 255 then
      var len := ch - 192;
      var c := ReadN(d, limit, pos, len + 1);
      if |c.bytes| == len + 1 then Read(c.bytes[1..], true, c.pos)
      else Read([], false, c.pos)
    else if ch == 255 then
      var c := ReadN(d, limit, pos, 5);
      if |c.bytes| == 5 then
        var len := Uint32Of(c.bytes[1], c.bytes[2], c.bytes[3], c.bytes[4]);
        if len > 62 then
          var c2 := ReadN(d, limit, c.pos, len);
          if |c2.bytes| == len then Read(c2.bytes, true, c2.pos)
          else Read([], false, pos)
        else Read([], false, pos)
      else Read([], false, pos)
    else Read([], false, pos)
  }

  function Dist(limit: nat, pos: nat): nat
  {
    if pos <= limit then limit - pos else 0
  }

  /** The element count, the declared total length and the cursor after
      the header of an array or map whose tag `ch` lies above `base`
      (`base` + 31 is the long form). A header that cannot be read leaves
      the total at 0, as the source's initial `totalLen = 0` does. */
  datatype Header = Header(count: nat, total: nat, pos: nat)

  function ContainerHeader(d: seq<byte>, limit: nat, pos: nat, ch: int, base: int): (h: Header)
    requires base < ch < base + 32
    ensures h.total > 0 ==> h.pos > pos && h.pos <= limit
  {
    if ch < base + 31 then
      var c := ReadN(d, limit, pos, 5);
      if |c.bytes| == 5 then Header(ch - base, Uint32Of(c.bytes[1], c.bytes[2], c.bytes[3], c.bytes[4]), c.pos)
      else Header(ch - base, 0, c.pos)
    else
      var c := ReadN(d, limit, pos, 9);
      if |c.bytes| == 9 then
        Header(Uint32Of(c.bytes[5], c.bytes[6], c.bytes[7], c.bytes[8]),
               Uint32Of(c.bytes[1], c.bytes[2], c.bytes[3], c.bytes[4]), c.pos)
      else Header(0, 0, c.pos)
  }

  /** `read` (src/stream.ts:813-859): peek the tag, then dispatch on it. */
  function Decode(d: seq<byte>, limit: nat, pos: nat): (r: Read<Value>)
    ensures r.ok ==> pos < r.pos <= limit
    ensures !r.ok ==> r.pos == pos || |d| < r.pos <= limit
    ensures Peek(d, limit, pos) == 12 || Peek(d, limit, pos) == 13 ==> r == Read(Null, false, pos)
    decreases Dist(limit, pos), 2
  {
    DecodeTagged(d, limit, pos, Peek(d, limit, pos))
  }

  /** The `switch` of `read` on the tag `op` under the read cursor. */
  function DecodeTagged(d: seq<byte>, limit: nat, pos: nat, op: int): (r: Read<Value>)
    requires op == Peek(d, limit, pos)
    ensures r.ok ==> pos < r.pos <= limit
    ensures !r.ok ==> r.pos == pos || |d| < r.pos <= limit
    ensures op == 12 || op == 13 ==> r == Read(Null, false, pos)
    decreases Dist(limit, pos), 1
  {
    if op == 1 then
      var r := DecodeNull(d, limit, pos); Read(Null, r.ok, r.pos)
    else if op == 2 || op == 3 then
      var r := DecodeBool(d, limit, pos); Read(Bool(r.value), r.ok, r.pos)
    else if op == 4 || op == 5 then
      var r := DecodeFloat64(d, limit, pos); Read(Float(r.value), r.ok, r.pos)
    else if 6 <= op <= 8 then
      var r := DecodeInt64(d, limit, pos); Read(Int(r.value), r.ok, r.pos)
    else if 9 <= op <= 11 then
      var r := DecodeUint64(d, limit, pos); Read(Uint(r.value), r.ok, r.pos)
    else if op == 12 || op == 13 then
      Read(Null, false, pos)
    else
      var cat := Category(op);
      if cat == 0 then
        if op < 54 then
          var r := DecodeInt64(d, limit, pos); Read(Int(r.value), r.ok, r.pos)
        else
          var r := DecodeUint64(d, limit, pos); Read(Uint(r.value), r.ok, r.pos)
      else if cat == 1 then
        if op < 96 then
          var r := DecodeArray(d, limit, pos); Read(Array(r.value), r.ok, r.pos)
        else
          var r := DecodeMap(d, limit, pos); Read(Map(r.value), r.ok, r.pos)
      else if cat == 2 then
        var r := DecodeString(d, limit, pos); Read(Str(r.value), r.ok, r.pos)
      else
        var r := DecodeBinary(d, limit, pos); Read(Binary(r.value), r.ok, r.pos)
  }

  /** `readArray` (src/stream.ts:692-748): the count and total come from
      the header, the elements are read one by one, and the bytes consumed
      must equal the declared total; every failure puts the cursor back. */
  function DecodeArray(d: seq<byte>, limit: nat, pos: nat): (r: Read<seq<Value>>)
    ensures r.ok ==> pos < r.pos <= limit
    ensures !r.ok ==> r == Read([], false, pos)
    decreases Dist(limit, pos), 0
  {
    var ch := Peek(d, limit, pos);
    if 64 <= ch < 96 then
      if ch == 64 then Read([], true, pos + 1)
      else
        var h := ContainerHeader(d, limit, pos, ch, 64);
        if h.count > 0 && h.total > 4 then
          match DecodeItems(d, limit, h.pos, h.count, [])
          case Some((items, end)) =>
            if end == pos + h.total then Read(items, true, end) else Read([], false, pos)
          case None => Read([], false, pos)
        else Read([], false, pos)
    else Read([], false, pos)
  }

  /** The element loop of `readArray`: `n` more elements after those in
      `acc`, or `None` as soon as one fails. */
  function DecodeItems(d: seq<byte>, limit: nat, pos: nat, n: nat, acc: seq<Value>)
    : (r: Option<(seq<Value>, nat)>)
    ensures r.Some? ==> pos <= r.value.1 <= limit || (n == 0 && r.value.1 == pos)
    ensures r.Some? ==> |r.value.0| == |acc| + n
    decreases Dist(limit, pos), 3, n
  {
    if n == 0 then Some((acc, pos))
    else
      var r := Decode(d, limit, pos);
      if !r.ok then None else DecodeItems(d, limit, r.pos, n - 1, acc + [r.value])
  }

  /** `Map.set`: a new key goes at the end, an existing key keeps its place
      and takes the new value. */
  function MapSet(entries: seq<Entry>, key: string, value: Value): (r: seq<Entry>)
  {
    if |entries| == 0 then [Entry(key, value)]
    else if entries[0].key == key then [Entry(key, value)] + entries[1..]
    else [entries[0]] + MapSet(entries[1..], key, value)
  }

  /** `readMap` (src/stream.ts:750-811). */
  function DecodeMap(d: seq<byte>, limit: nat, pos: nat): (r: Read<seq<Entry>>)
    ensures r.ok ==> pos < r.pos <= limit
    ensures !r.ok ==> r == Read([], false, pos)
    decreases Dist(limit, pos), 0
  {
    var ch := Peek(d, limit, pos);
    if 96 <= ch < 128 then
      if ch == 96 then Read([], true, pos + 1)
      else
        var h := ContainerHeader(d, limit, pos, ch, 96);
        if h.count > 0 && h.total > 4 then
          match DecodeEntries(d, limit, h.pos, h.count, [])
          case Some((entries, end)) =>
            if end == pos + h.total then Read(entries, true, end) else Read([], false, pos)
          case None => Read([], false, pos)
        else Read([], false, pos)
    else Read([], false, pos)
  }

  /** The entry loop of `readMap`: `n` more entries after those in `acc`,
      or `None` as soon as one fails. */
  function DecodeEntries(d: seq<byte>, limit: nat, pos: nat, n: nat, acc: seq<Entry>)
    : (r: Option<(seq<Entry>, nat)>)
    ensures r.Some? ==> pos <= r.value.1 <= limit || (n == 0 && r.value.1 == pos)
    decreases Dist(limit, pos), 3, n
  {
    if n == 0 then Some((acc, pos))
    else
      match DecodeEntry(d, limit, pos)
      case None => None
      case Some((e, next)) => DecodeEntries(d, limit, next, n - 1, MapSet(acc, e.key, e.value))
  }

  /** One pass of that loop: a key string, then a value. */
  function DecodeEntry(d: seq<byte>, limit: nat, pos: nat): (r: Option<(Entry, nat)>)
    ensures r.Some? ==> pos < r.value.1 <= limit
    decreases Dist(limit, pos), 2
  {
    var k := DecodeString(d, limit, pos);
    if !k.ok then None
    else
      var v := Decode(d, limit, k.pos);
      if !v.ok then None else Some((Entry(k.value, v.value), v.pos))
  }
}

/** `RPCError` (src/error.ts): a kind code, a message and a debug trail
    that `addDebug` extends one line at a time. The source's `string | null`
    fields are `Option<string>`, `null` being `None`. */
module Errors {
  import opened Wrappers

  const KindNone: int := 0
  const KindProtocol: int := 1
  const KindTransport: int := 2
  const KindReply: int := 3
  const KindReplyPanic: int := 4
  const KindRuntimePanic: int := 5
  const KindKernelPanic: int := 6
  const KindSecurityLimit: int := 7

  /** The kind codes in declaration order: `None` first, then the seven
      kinds the factories produce. */
  function Kinds(): (ks: seq<int>)
    ensures |ks| == 8 && forall i | 0 <= i < 8 :: ks[i] == i
  {
    [KindNone, KindProtocol, KindTransport, KindReply, KindReplyPanic,
     KindRuntimePanic, KindKernelPanic, KindSecurityLimit]
  }

  /** A string that counts as a debug line: neither `null` nor `""`. */
  predicate Present(d: Option<string>)
  {
    d.Some? && d.value != ""
  }

  /** The trail after `addDebug(d)`: unchanged when `d` is absent or empty,
      `d` itself when the trail is absent or empty, and otherwise the old
      trail, a newline and `d`. */
  function AppendDebug(trail: Option<string>, d: Option<string>): (r: Option<string>)
    ensures !Present(d) ==> r == trail
    ensures Present(d) ==> Present(r)
  {
    if !Present(d) then trail
    else if !Present(trail) then d
    else Some(trail.value + "\n" + d.value)
  }

  /** The trail after `addDebug` with each of `ds` in turn. */
  function Trail(trail: Option<string>, ds: seq<Option<string>>): Option<string>
    decreases |ds|
  {
    if |ds| == 0 then trail else Trail(AppendDebug(trail, ds[0]), ds[1..])
  }

  /** The debug lines among `ds`, in order. */
  function Lines(ds: seq<Option<string>>): (xs: seq<string>)
    ensures forall x | x in xs :: x != ""
    decreases |ds|
  {
    if |ds| == 0 then []
    else if Present(ds[0]) then [ds[0].value] + Lines(ds[1..])
    else Lines(ds[1..])
  }

  /** Strings joined with newlines between them. */
  function Join(xs: seq<string>): string
    decreases |xs|
  {
    if |xs| == 0 then ""
    else if |xs| == 1 then xs[0]
    else xs[0] + "\n" + Join(xs[1..])
  }

  /** A string cut at every newline: the inverse of `Join` on lines that
      hold no newline. */
  function Split(s: string): (xs: seq<string>)
    ensures |xs| >= 1
    decreases |s|
  {
    if |s| == 0 then [""]
    else if s[0] == '\n' then [""] + Split(s[1..])
    else var r := Split(s[1..]); [[s[0]] + r[0]] + r[1..]
  }

  lemma {:induction false} JoinSnoc(xs: seq<string>, y: string)
    requires |xs| > 0
    ensures Join(xs + [y]) == Join(xs) + "\n" + y
    decreases |xs|
  {
    if |xs| == 1 {
      assert xs + [y] == [xs[0], y];
      assert [xs[0], y][1..] == [y];
    } else {
      assert (xs + [y])[1..] == xs[1..] + [y];
      JoinSnoc(xs[1..], y);
    }
  }

  /** Whatever the trail starts as, `addDebug` over `ds` ends with the
      starting trail (when present) and the debug lines of `ds` joined by
      newlines; with no debug line the trail is untouched. */
  lemma {:induction false} TrailJoins(trail: Option<string>, ds: seq<Option<string>>)
    ensures Trail(trail, ds) == if |Lines(ds)| == 0 then trail
                                else if Present(trail) then Some(Join([trail.value] + Lines(ds)))
                                else Some(Join(Lines(ds)))
    decreases |ds|
  {
    if |ds| > 0 {
      var next := AppendDebug(trail, ds[0]);
      TrailJoins(next, ds[1..]);
      var rest := Lines(ds[1..]);
      if Present(ds[0]) {
        var d := ds[0].value;
        assert Lines(ds) == [d] + rest;
        if Present(trail) {
          assert next == Some(trail.value + "\n" + d);
          JoinMerge(trail.value, d, rest);
        } else {
          assert next == Some(d);
          if |rest| == 0 {
            assert [d] + rest == [d];
          }
        }
      } else {
        assert Lines(ds) == rest;
      }
    }
  }

  /** One `addDebug` step on a present trail: joining the merged line onto
      the rest is joining the trail, the line and the rest. */
  lemma JoinMerge(t: string, d: string, rest: seq<string>)
    ensures Join([t] + ([d] + rest)) == if |rest| == 0 then t + "\n" + d else Join([t + "\n" + d] + rest)
  {
    var a, b := [t] + ([d] + rest), [d] + rest;
    assert a[0] == t && a[1..] == b && |a| > 1;
    assert Join(a) == t + "\n" + Join(b);
    if |rest| == 0 {
      assert b == [d];
    } else {
      var c, j := [t + "\n" + d] + rest, Join(rest);
      assert b[0] == d && b[1..] == rest && |b| > 1;
      assert Join(b) == d + "\n" + j;
      assert c[0] == t + "\n" + d && c[1..] == rest && |c| > 1;
      assert Join(c) == t + "\n" + d + "\n" + j;
      Assoc(t + "\n", d + "\n", j);
      Assoc(t + "\n", d, "\n");
    }
  }

  /** Joining a non-empty head onto more lines: the head's lines, a
      newline, then the rest. */
  lemma {:induction false} JoinFront(xs: seq<string>, ys: seq<string>)
    requires |xs| > 0 && |ys| > 0
    ensures Join(xs + ys) == Join(xs) + "\n" + Join(ys)
    decreases |xs|
  {
    if |xs| == 1 {
      assert (xs + ys)[1..] == ys;
    } else {
      assert (xs + ys)[1..] == xs[1..] + ys;
      JoinFront(xs[1..], ys);
    }
  }

  /** A line with no newline in it, then a newline, splits there. */
  lemma {:induction false} SplitLine(x: string, s: string)
    requires forall i | 0 <= i < |x| :: x[i] != '\n'
    ensures Split(x + "\n" + s) == [x] + Split(s)
    decreases |x|
  {
    if |x| == 0 {
      assert x + "\n" + s == "\n" + s;
      assert ("\n" + s)[1..] == s;
    } else {
      assert (x + "\n" + s)[1..] == x[1..] + "\n" + s;
      SplitLine(x[1..], s);
      assert [x[0]] + x[1..] == x;
    }
  }

  /** A line with no newline in it splits to itself. */
  lemma {:induction false} SplitOne(x: string)
    requires forall i | 0 <= i < |x| :: x[i] != '\n'
    ensures Split(x) == [x]
    decreases |x|
  {
    if |x| > 0 {
      SplitOne(x[1..]);
      assert [x[0]] + x[1..] == x;
    }
  }

  /** Splitting the trail at its newlines gives back the lines that were
      added, as long as none of them holds a newline itself. */
  lemma {:induction false} SplitJoin(xs: seq<string>)
    requires |xs| > 0
    requires forall x | x in xs :: forall i | 0 <= i < |x| :: x[i] != '\n'
    ensures Split(Join(xs)) == xs
    decreases |xs|
  {
    if |xs| == 1 {
      SplitOne(xs[0]);
    } else {
      SplitJoin(xs[1..]);
      SplitLine(xs[0], Join(xs[1..]));
      assert [xs[0]] + xs[1..] == xs;
    }
  }

  class RPCError {
    const kind: int
    const message: Option<string>
    var debug: Option<string>

    /** `new RPCError(kind, message, debug)`. */
    constructor(kind: int, message: Option<string>, debug: Option<string>)
      ensures this.kind == kind && this.message == message && this.debug == debug
    {
      this.kind := kind;
      this.message := message;
      this.debug := debug;
    }

    function GetKind(): (k: int)
      ensures k == kind
    {
      kind
    }

    function GetMessage(): (m: Option<string>)
      ensures m == message
    {
      message
    }

    function GetDebug(): (d: Option<string>)
      reads this
      ensures d == debug
    {
      debug
    }

    /** `addDebug(debug)`: extends the trail in place and returns the same
        error; kind and message are constants. */
    method AddDebug(d: Option<string>) returns (r: RPCError)
      modifies this
      ensures r == this && debug == AppendDebug(old(debug), d)
    {
      if d.Some? && d.value != "" {
        if debug == None || debug == Some("") {
          debug := d;
        } else {
          debug := Some(debug.value + "\n");
          debug := Some(debug.value + d.value);
        }
      }
      return this;
    }
  }

  /** The factories: the kind, the message, and an empty debug trail. */
  method NewProtocolError(message: string) returns (e: RPCError)
    ensures fresh(e) && e.kind == KindProtocol && e.message == Some(message) && e.debug == Some("")
  {
    e := new RPCError(KindProtocol, Some(message), Some(""));
  }

  method NewTransportError(message: string) returns (e: RPCError)
    ensures fresh(e) && e.kind == KindTransport && e.message == Some(message) && e.debug == Some("")
  {
    e := new RPCError(KindTransport, Some(message), Some(""));
  }

  method NewReplyError(message: string) returns (e: RPCError)
    ensures fresh(e) && e.kind == KindReply && e.message == Some(message) && e.debug == Some("")
  {
    e := new RPCError(KindReply, Some(message), Some(""));
  }

  method NewReplyPanic(message: string) returns (e: RPCError)
    ensures fresh(e) && e.kind == KindReplyPanic && e.message == Some(message) && e.debug == Some("")
  {
    e := new RPCError(KindReplyPanic, Some(message), Some(""));
  }

  method NewRuntimePanic(message: string) returns (e: RPCError)
    ensures fresh(e) && e.kind == KindRuntimePanic && e.message == Some(message) && e.debug == Some("")
  {
    e := new RPCError(KindRuntimePanic, Some(message), Some(""));
  }

  method NewKernelPanic(message: string) returns (e: RPCError)
    ensures fresh(e) && e.kind == KindKernelPanic && e.message == Some(message) && e.debug == Some("")
  {
    e := new RPCError(KindKernelPanic, Some(message), Some(""));
  }

  method NewSecurityLimitError(message: string) returns (e: RPCError)
    ensures fresh(e) && e.kind == KindSecurityLimit && e.message == Some(message) && e.debug == Some("")
  {
    e := new RPCError(KindSecurityLimit, Some(message), Some(""));
  }
}

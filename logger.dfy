/** `Logger` and `LogSubscription` (src/logger.ts): a five-bit level mask,
    a registry of subscriptions with increasing ids, and routing of each
    message either to the subscriptions' callbacks or to the console.
    Emission is modelled by returning where the message goes, not by
    printing it; the timestamp is a parameter. */
module Logging {
  import opened Wrappers

  const LogLevelOff: int := 0
  const LogLevelFatal: int := 1
  const LogLevelError: int := 3
  const LogLevelWarn: int := 7
  const LogLevelInfo: int := 15
  const LogLevelAll: int := 31

  const MaskFatal: int := 1
  const MaskError: int := 2
  const MaskWarn: int := 4
  const MaskInfo: int := 8
  const MaskDebug: int := 16

  const MaxSafeInteger: int := 9007199254740991

  /** `Number.isSafeInteger` on an integer. */
  predicate IsSafeInteger(x: int)
  {
    -MaxSafeInteger <= x <= MaxSafeInteger
  }

  /** A callback the caller installed, known by an identity of its own. */
  type Handler = nat

  /** Where one copy of a message goes. */
  datatype Sink = Console | Callback(handler: Handler)

  /** The bit of weight `p` (a power of two) in a non-negative `x`: set when
      the remainder modulo `2p` reaches `p`. */
  function Bit(x: int, p: int): int
    requires p > 0
  {
    if x % (2 * p) >= p then 1 else 0
  }

  /** `level & mask` for a level in `[0, 31]`: `&` works on the low 32 bits
      of two's complement, and a five-bit level keeps only the low five
      bits of the mask, which are those of `mask % 32` whatever its sign;
      the result has a bit wherever both do. */
  function LevelAnd(level: int, mask: int): (r: int)
    requires 0 <= level <= LogLevelAll
    ensures 0 <= r <= level
  {
    var m := mask % 32;
    var r := (if Bit(level, 16) == 1 && Bit(m, 16) == 1 then 16 else 0)
           + (if Bit(level, 8) == 1 && Bit(m, 8) == 1 then 8 else 0)
           + (if Bit(level, 4) == 1 && Bit(m, 4) == 1 then 4 else 0)
           + (if Bit(level, 2) == 1 && Bit(m, 2) == 1 then 2 else 0)
           + (if Bit(level, 1) == 1 && Bit(m, 1) == 1 then 1 else 0);
    Digits(level);
    r
  }

  /** A five-bit number is the sum of its bits. */
  lemma Digits(x: int)
    requires 0 <= x < 32
    ensures x == 16 * Bit(x, 16) + 8 * Bit(x, 8) + 4 * Bit(x, 4) + 2 * Bit(x, 2) + Bit(x, 1)
  {
    var r16, r8, r4, r2 := x % 16, x % 8, x % 4, x % 2;
    assert x == 16 * Bit(x, 16) + r16;
    assert r16 == 8 * Bit(x, 8) + r8;
    assert r8 == 4 * Bit(x, 4) + r4;
    assert r4 == 2 * Bit(x, 2) + r2;
  }

  /** The test at the head of `log`. */
  predicate Emits(level: int, mask: int)
    requires 0 <= level <= LogLevelAll
  {
    IsSafeInteger(mask) && LevelAnd(level, mask) > 0
  }

  /** One severity's mask fires exactly when its bit is set in the level. */
  lemma SeverityBit(level: int, p: int)
    requires 0 <= level <= LogLevelAll && p in {1, 2, 4, 8, 16}
    ensures Emits(level, p) <==> Bit(level, p) == 1
  {
    assert p % 32 == p;
    if p == 16 {
      assert Bit(p, 16) == 1 && Bit(p, 8) == 0 && Bit(p, 4) == 0 && Bit(p, 2) == 0 && Bit(p, 1) == 0;
    } else if p == 8 {
      assert Bit(p, 16) == 0 && Bit(p, 8) == 1 && Bit(p, 4) == 0 && Bit(p, 2) == 0 && Bit(p, 1) == 0;
    } else if p == 4 {
      assert Bit(p, 16) == 0 && Bit(p, 8) == 0 && Bit(p, 4) == 1 && Bit(p, 2) == 0 && Bit(p, 1) == 0;
    } else if p == 2 {
      assert Bit(p, 16) == 0 && Bit(p, 8) == 0 && Bit(p, 4) == 0 && Bit(p, 2) == 1 && Bit(p, 1) == 0;
    } else {
      assert Bit(p, 16) == 0 && Bit(p, 8) == 0 && Bit(p, 4) == 0 && Bit(p, 2) == 0 && Bit(p, 1) == 1;
    }
  }

  /** Level `i` lets through exactly the severities whose bit is set in
      `i`: the masks that fire add up to the level. */
  lemma LevelIsItsSeverities(level: int)
    requires 0 <= level <= LogLevelAll
    ensures (if Emits(level, MaskDebug) then MaskDebug else 0) + (if Emits(level, MaskInfo) then MaskInfo else 0)
            + (if Emits(level, MaskWarn) then MaskWarn else 0) + (if Emits(level, MaskError) then MaskError else 0)
            + (if Emits(level, MaskFatal) then MaskFatal else 0) == level
  {
    SeverityBit(level, 16);
    SeverityBit(level, 8);
    SeverityBit(level, 4);
    SeverityBit(level, 2);
    SeverityBit(level, 1);
    Digits(level);
  }

  /** The named levels: each lets through its own severity and the more
      severe ones, and nothing less severe. */
  lemma NamedLevels()
    ensures !Emits(LogLevelOff, MaskFatal)
    ensures Emits(LogLevelFatal, MaskFatal) && !Emits(LogLevelFatal, MaskError)
    ensures Emits(LogLevelError, MaskError) && Emits(LogLevelError, MaskFatal) && !Emits(LogLevelError, MaskWarn)
    ensures Emits(LogLevelWarn, MaskWarn) && Emits(LogLevelWarn, MaskError) && !Emits(LogLevelWarn, MaskInfo)
    ensures Emits(LogLevelInfo, MaskInfo) && Emits(LogLevelInfo, MaskWarn) && !Emits(LogLevelInfo, MaskDebug)
    ensures Emits(LogLevelAll, MaskDebug) && Emits(LogLevelAll, MaskFatal)
  {
    SeverityBit(LogLevelOff, MaskFatal);
    SeverityBit(LogLevelFatal, MaskFatal);
    SeverityBit(LogLevelFatal, MaskError);
    SeverityBit(LogLevelError, MaskError);
    SeverityBit(LogLevelError, MaskFatal);
    SeverityBit(LogLevelError, MaskWarn);
    SeverityBit(LogLevelWarn, MaskWarn);
    SeverityBit(LogLevelWarn, MaskError);
    SeverityBit(LogLevelWarn, MaskInfo);
    SeverityBit(LogLevelInfo, MaskInfo);
    SeverityBit(LogLevelInfo, MaskWarn);
    SeverityBit(LogLevelInfo, MaskDebug);
    SeverityBit(LogLevelAll, MaskDebug);
    SeverityBit(LogLevelAll, MaskFatal);
  }

  /** The sinks of one emitted message when there are subscriptions: one
      per subscription, its callback for that severity when it has one,
      else the console. */
  function Deliver(hs: seq<Option<Handler>>): (sinks: seq<Sink>)
    ensures |sinks| == |hs|
    ensures forall i | 0 <= i < |hs| :: sinks[i] == if hs[i].Some? then Callback(hs[i].value) else Console
    decreases |hs|
  {
    if |hs| == 0 then []
    else [if hs[0].Some? then Callback(hs[0].value) else Console] + Deliver(hs[1..])
  }

  /** The first position of `id` in `ids`, or `|ids|` when it is not there. */
  function IndexOf(ids: seq<int>, id: int): (k: nat)
    ensures k <= |ids|
    ensures k < |ids| <==> id in ids
    ensures k < |ids| ==> ids[k] == id
    ensures forall j | 0 <= j < k :: ids[j] != id
    decreases |ids|
  {
    if |ids| == 0 then 0
    else if ids[0] == id then 0
    else 1 + IndexOf(ids[1..], id)
  }

  predicate Increasing(ids: seq<int>)
  {
    forall i, j | 0 <= i < j < |ids| :: ids[i] < ids[j]
  }

  /** With increasing ids, the first entry with a given id is the only one,
      so after it is taken out no entry that carried that id is left. */
  lemma GoneAfterRemove<T>(subs: seq<T>, ids: seq<int>, x: T, id: int)
    requires |ids| == |subs| && Increasing(ids)
    requires forall i | 0 <= i < |subs| && subs[i] == x :: ids[i] == id
    ensures var k := IndexOf(ids, id);
            x !in (if id in ids then subs[..k] + subs[k + 1..] else subs)
  {
    var k := IndexOf(ids, id);
    if id in ids {
      var r := subs[..k] + subs[k + 1..];
      forall j | 0 <= j < |r| ensures r[j] != x {
        var j' := if j < k then j else j + 1;
        assert r[j] == subs[j'];
        if j < k {
          assert ids[j'] != id;
        } else {
          assert ids[k] < ids[j'];
        }
      }
    } else {
      forall j | 0 <= j < |subs| ensures subs[j] != x {
        assert ids[j] != id;
      }
    }
  }

  /** A new id above all the others keeps the ids increasing. */
  lemma AppendKeepsIncreasing(ids: seq<int>, x: int)
    requires Increasing(ids) && forall i | 0 <= i < |ids| :: ids[i] < x
    ensures Increasing(ids + [x])
  {
  }

  /** Taking one element out keeps the ids increasing. */
  lemma RemoveKeepsIncreasing(ids: seq<int>, k: nat)
    requires Increasing(ids) && k < |ids|
    ensures Increasing(ids[..k] + ids[k + 1..])
  {
    var r := ids[..k] + ids[k + 1..];
    forall i, j | 0 <= i < j < |r| ensures r[i] < r[j] {
      var i' := if i < k then i else i + 1;
      var j' := if j < k then j else j + 1;
      assert r[i] == ids[i'] && r[j] == ids[j'];
    }
  }

  /** The ids of a list of subscriptions. */
  function IdsOf(subs: seq<LogSubscription>): (ids: seq<int>)
    reads subs
    ensures |ids| == |subs| && forall i | 0 <= i < |subs| :: ids[i] == subs[i].id
  {
    seq(|subs|, i requires 0 <= i < |subs| reads subs => subs[i].id)
  }

  /** Each subscription's callback for a message of severity `mask`. */
  function HandlersOf(subs: seq<LogSubscription>, mask: int): (hs: seq<Option<Handler>>)
    reads subs
    ensures |hs| == |subs| && forall i | 0 <= i < |subs| :: hs[i] == subs[i].HandlerFor(mask)
  {
    seq(|subs|, i requires 0 <= i < |subs| reads subs => subs[i].HandlerFor(mask))
  }

  class LogSubscription {
    var id: int
    var logger: Logger?
    var onDebug: Option<Handler>
    var onInfo: Option<Handler>
    var onWarn: Option<Handler>
    var onError: Option<Handler>
    var onFatal: Option<Handler>

    /** `new LogSubscription()`: id 0, unlinked, no callbacks. */
    constructor()
      ensures id == 0 && logger == null && Unhooked()
    {
      id := 0;
      logger := null;
      onDebug, onInfo, onWarn, onError, onFatal := None, None, None, None, None;
    }

    predicate Unhooked()
      reads this
    {
      onDebug == None && onInfo == None && onWarn == None && onError == None && onFatal == None
    }

    /** The `switch` in `log`: the callback for one of the five masks,
        none for any other value. */
    function HandlerFor(mask: int): (h: Option<Handler>)
      reads this
      ensures mask !in {MaskDebug, MaskInfo, MaskWarn, MaskError, MaskFatal} ==> h == None
    {
      if mask == MaskDebug then onDebug
      else if mask == MaskInfo then onInfo
      else if mask == MaskWarn then onWarn
      else if mask == MaskError then onError
      else if mask == MaskFatal then onFatal
      else None
    }

    /** `close()`: false when unlinked; otherwise whatever removing its id
        from the logger gives, after which the subscription is unlinked, so
        a second `close` gives false. */
    method Close() returns (ok: bool)
      requires logger != null ==> logger.Valid()
      modifies this, logger
      ensures id == (if old(logger) == null then old(id) else 0)
      ensures logger == null && (old(logger) != null ==> Unhooked())
      ensures old(logger) == null ==> !ok
      ensures old(logger) != null ==> ok == (old(id) in old(IdsOf(logger.subscriptions))) && old(logger).Valid()
      ensures old(logger) != null ==> var k := IndexOf(old(IdsOf(logger.subscriptions)), old(id));
                                     old(logger).subscriptions ==
                                       if ok then old(logger.subscriptions)[..k] + old(logger.subscriptions)[k + 1..]
                                       else old(logger.subscriptions)
      ensures old(logger) != null ==> old(logger).level == old(logger.level) && old(logger).seed == old(logger.seed)
      ensures old(logger) == null ==> unchanged(this)
    {
      if logger == null {
        return false;
      }
      var l := logger;
      ghost var subs, ids := l.subscriptions, IdsOf(l.subscriptions);
      ok := l.RemoveSubscription(id);
      GoneAfterRemove(subs, ids, this, id);
      Unlink();
    }

    /** What `subscribe` sets on the new subscription: its id and logger. */
    method Link(id: int, logger: Logger)
      modifies this
      ensures this.id == id && this.logger == logger
      ensures onDebug == old(onDebug) && onInfo == old(onInfo) && onWarn == old(onWarn)
              && onError == old(onError) && onFatal == old(onFatal)
    {
      this.id := id;
      this.logger := logger;
    }

    /** The tail of `close`: id 0, no logger, no callbacks. */
    method Unlink()
      modifies this
      ensures id == 0 && logger == null && Unhooked()
    {
      id := 0;
      logger := null;
      onDebug, onInfo, onWarn, onError, onFatal := None, None, None, None, None;
    }
  }

  class Logger {
    var level: int
    var subscriptions: seq<LogSubscription>
    var seed: int

    /** The level is a five-bit mask, and the subscriptions' ids are
        increasing, above 1 and at most the seed. */
    predicate Valid()
      reads this, subscriptions
    {
      0 <= level <= LogLevelAll && seed >= 1
      && Increasing(IdsOf(subscriptions))
      && forall i | 0 <= i < |subscriptions| :: 1 < subscriptions[i].id <= seed
    }

    /** `new Logger()`: every severity, no subscriptions, seed 1. */
    constructor()
      ensures Valid() && level == LogLevelAll && subscriptions == [] && seed == 1
    {
      level := LogLevelAll;
      subscriptions := [];
      seed := 1;
    }

    /** `setLevel(level)`: accepted exactly for an integer in `[0, 31]`. */
    method SetLevel(l: int) returns (ok: bool)
      modifies this`level
      ensures ok <==> LogLevelOff <= l <= LogLevelAll
      ensures level == if ok then l else old(level)
    {
      if IsSafeInteger(l) && l >= LogLevelOff && l <= LogLevelAll {
        level := l;
        return true;
      } else {
        return false;
      }
    }

    /** `removeSubscription(id)`: the first subscription with that id is
        spliced out; false, and nothing changes, when there is none. */
    method RemoveSubscription(id: int) returns (ok: bool)
      requires Valid()
      modifies this`subscriptions
      ensures Valid()
      ensures ok <==> id in old(IdsOf(subscriptions))
      ensures var k := IndexOf(old(IdsOf(subscriptions)), id);
              subscriptions == if ok then old(subscriptions)[..k] + old(subscriptions)[k + 1..] else old(subscriptions)
    {
      ghost var ids := IdsOf(subscriptions);
      var i := 0;
      while i < |subscriptions|
        invariant 0 <= i <= |subscriptions| && subscriptions == old(subscriptions)
        invariant forall j | 0 <= j < i :: ids[j] != id
      {
        if subscriptions[i].id == id {
          assert IndexOf(ids, id) == i;
          Splice(i);
          return true;
        }
        i := i + 1;
      }
      return false;
    }

    /** `splice(i, 1)` on the subscription list. */
    method Splice(i: nat)
      requires Valid() && i < |subscriptions|
      modifies this`subscriptions
      ensures Valid() && subscriptions == old(subscriptions)[..i] + old(subscriptions)[i + 1..]
    {
      ghost var ids := IdsOf(subscriptions);
      RemoveKeepsIncreasing(ids, i);
      assert IdsOf(subscriptions[..i] + subscriptions[i + 1..]) == ids[..i] + ids[i + 1..];
      subscriptions := subscriptions[..i] + subscriptions[i + 1..];
    }

    /** `subscribe()`: the next seed becomes the id of a new subscription
        linked to this logger and appended to the list. */
    method Subscribe() returns (s: LogSubscription)
      requires Valid()
      modifies this`seed, this`subscriptions
      ensures Valid() && fresh(s)
      ensures seed == old(seed) + 1 && s.id == seed && s.logger == this && s.Unhooked()
      ensures subscriptions == old(subscriptions) + [s]
    {
      seed := seed + 1;
      s := new LogSubscription();
      ghost var ids := IdsOf(subscriptions);
      s.Link(seed, this);
      assert IdsOf(subscriptions) == ids;
      Push(s);
    }

    /** `push(ret)` on the subscription list, for a subscription whose id is
        the seed just taken. */
    method Push(s: LogSubscription)
      requires 0 <= level <= LogLevelAll && seed > 1 && Increasing(IdsOf(subscriptions))
      requires forall i | 0 <= i < |subscriptions| :: 1 < subscriptions[i].id < seed
      requires s.id == seed
      modifies this`subscriptions
      ensures Valid() && subscriptions == old(subscriptions) + [s]
    {
      ghost var ids := IdsOf(subscriptions);
      assert IdsOf(subscriptions + [s]) == ids + [seed];
      AppendKeepsIncreasing(ids, seed);
      subscriptions := subscriptions + [s];
    }

    /** What `log(outputLevel, tag, msg)` does with a message: nothing when
        the level filters it out; the console once when nobody subscribed;
        otherwise one delivery per subscription. */
    function Routes(mask: int): (sinks: seq<Sink>)
      requires Valid()
      reads this, subscriptions
      ensures !Emits(level, mask) ==> sinks == []
      ensures Emits(level, mask) && |subscriptions| == 0 ==> sinks == [Console]
      ensures Emits(level, mask) && |subscriptions| > 0 ==>
                |sinks| == |subscriptions|
                && forall i | 0 <= i < |subscriptions| ::
                     sinks[i] == if subscriptions[i].HandlerFor(mask).Some?
                                 then Callback(subscriptions[i].HandlerFor(mask).value) else Console
    {
      if !Emits(level, mask) then []
      else if |subscriptions| == 0 then [Console]
      else Deliver(HandlersOf(subscriptions, mask))
    }

    /** `log(outputLevel, tag, msg)`: the text every sink receives is the
        timestamp `now`, the tag, the message and a newline. */
    method Log(mask: int, tag: string, msg: string, now: string) returns (text: string, sinks: seq<Sink>)
      requires Valid()
      ensures text == now + tag + msg + "\n"
      ensures sinks == Routes(mask)
    {
      text := now + tag + msg + "\n";
      sinks := [];
      var lvl := level;
      if IsSafeInteger(mask) && LevelAnd(lvl, mask) > 0 {
        if |subscriptions| == 0 {
          sinks := [Console];
        } else {
          sinks := Fanout(mask);
        }
      }
    }

    /** The loop of `log` over the subscriptions: each one's callback for
        the severity, or the console when it has none. */
    method Fanout(mask: int) returns (sinks: seq<Sink>)
      ensures sinks == Deliver(HandlersOf(subscriptions, mask))
    {
      ghost var hs := HandlersOf(subscriptions, mask);
      sinks := [];
      for i := 0 to |subscriptions|
        invariant sinks == Deliver(hs[..i])
      {
        var fn := subscriptions[i].HandlerFor(mask);
        var sink := if fn.Some? then Callback(fn.value) else Console;
        DeliverSnoc(hs[..i], fn);
        assert hs[..i + 1] == hs[..i] + [fn];
        sinks := sinks + [sink];
      }
      assert hs[..|subscriptions|] == hs;
    }

    method Debug(msg: string, now: string) returns (text: string, sinks: seq<Sink>)
      requires Valid()
      ensures text == now + " Debug: " + msg + "\n" && sinks == Routes(MaskDebug)
    {
      text, sinks := Log(MaskDebug, " Debug: ", msg, now);
    }

    method Info(msg: string, now: string) returns (text: string, sinks: seq<Sink>)
      requires Valid()
      ensures text == now + " Info: " + msg + "\n" && sinks == Routes(MaskInfo)
    {
      text, sinks := Log(MaskInfo, " Info: ", msg, now);
    }

    method Warn(msg: string, now: string) returns (text: string, sinks: seq<Sink>)
      requires Valid()
      ensures text == now + " Warn: " + msg + "\n" && sinks == Routes(MaskWarn)
    {
      text, sinks := Log(MaskWarn, " Warn: ", msg, now);
    }

    method Error(msg: string, now: string) returns (text: string, sinks: seq<Sink>)
      requires Valid()
      ensures text == now + " Error: " + msg + "\n" && sinks == Routes(MaskError)
    {
      text, sinks := Log(MaskError, " Error: ", msg, now);
    }

    method Fatal(msg: string, now: string) returns (text: string, sinks: seq<Sink>)
      requires Valid()
      ensures text == now + " Fatal: " + msg + "\n" && sinks == Routes(MaskFatal)
    {
      text, sinks := Log(MaskFatal, " Fatal: ", msg, now);
    }
  }

  /** One more subscription, one more delivery. */
  lemma {:induction false} DeliverSnoc(hs: seq<Option<Handler>>, h: Option<Handler>)
    ensures Deliver(hs + [h]) == Deliver(hs) + [if h.Some? then Callback(h.value) else Console]
  {
    var l, r := Deliver(hs + [h]), Deliver(hs) + [if h.Some? then Callback(h.value) else Console];
    assert |l| == |r|;
    forall i | 0 <= i < |l| ensures l[i] == r[i] {
      if i < |hs| {
        assert (hs + [h])[i] == hs[i];
      }
    }
  }
}

/** `RPCClient` (src/client.ts): a URL, an optional transport, a check
    timer and the tick counter that paces reconnection. The transport is
    not modelled; what the client asks of it is recorded as a trace of
    calls, and what the timer callback learns from it is a parameter of
    each tick. */
module Client {

  /** What a tick learns from the transport: `isConnected()`, `isClosed()`,
      or neither (connecting or closing). */
  datatype NetStatus = Connected | Closed | Transitioning

  /** A call the client makes on its transport. */
  datatype NetCall = Connect(url: string) | Disconnect

  predicate StartsWith(s: string, prefix: string)
  {
    |prefix| <= |s| && s[..|prefix|] == prefix
  }

  /** The constructor's test for creating a transport. The second
      alternative adds nothing: a URL starting with "wss" starts with
      "ws". */
  function HasTransport(url: string): (b: bool)
    ensures b <==> StartsWith(url, "ws")
  {
    StartsWith(url, "ws") || StartsWith(url, "wss")
  }

  /** Whether a tick that finds the transport closed, at counter `t`,
      reconnects: at 0, 2, 5, 8, 15 and 30 in the first minute, then at
      every multiple of 30. */
  predicate ReconnectAt(t: int)
  {
    if t < 60 then t == 0 || t == 2 || t == 5 || t == 8 || t == 15 || t == 30
    else t % 30 == 0
  }

  /** The first counter value at or after `t` at which a closed transport
      is reconnected: never more than 29 ticks away. */
  function NextReconnect(t: nat): (u: nat)
    ensures ReconnectAt(u) && t <= u < t + 30
    ensures forall v | t <= v < u :: !ReconnectAt(v)
  {
    if t == 0 then 0
    else if t <= 2 then 2
    else if t <= 5 then 5
    else if t <= 8 then 8
    else if t <= 15 then 15
    else if t <= 30 then 30
    else if t <= 60 then 60
    else
      var q := (t + 29) / 30;
      assert 30 * q - 30 < t <= 30 * q;
      assert forall v | t <= v < 30 * q :: v % 30 != 0 by {
        forall v | t <= v < 30 * q ensures v % 30 != 0 {
          NotMultiple(v, q);
        }
      }
      30 * q
  }

  lemma NotMultiple(v: int, q: int)
    requires 30 * q - 30 < v < 30 * q
    ensures v % 30 != 0
  {
    var k := v / 30;
    assert v == 30 * k + v % 30 && 0 <= v % 30 < 30;
    assert k == q - 1;
    assert v % 30 == v - 30 * (q - 1);
  }

  /** One tick of the check timer on a client that has a transport: the new
      counter and whether it reconnects. Connected resets the counter;
      closed reconnects on the schedule and advances it; anything else
      leaves it. */
  function Step(t: nat, status: NetStatus): (nat, bool)
  {
    match status
    case Connected => (0, false)
    case Closed => (t + 1, ReconnectAt(t))
    case Transitioning => (t, false)
  }

  /** Ticks over a series of statuses from counter `t`: the final counter
      and, per tick, whether it reconnected. */
  function Run(t: nat, ss: seq<NetStatus>): (nat, seq<bool>)
    decreases |ss|
  {
    if |ss| == 0 then (t, [])
    else
      var (t', c) := Step(t, ss[0]);
      var (tn, cs) := Run(t', ss[1..]);
      (tn, [c] + cs)
  }

  /** `n` ticks that all find the transport closed. */
  function AllClosed(n: nat): (ss: seq<NetStatus>)
    ensures |ss| == n && forall i | 0 <= i < n :: ss[i] == Closed
  {
    seq(n, _ => Closed)
  }

  /** While the transport stays closed, the counter advances once per tick
      and tick `k` reconnects exactly when the schedule says so at `t + k`. */
  lemma {:induction false} ClosedRun(t: nat, n: nat)
    ensures Run(t, AllClosed(n)).0 == t + n && |Run(t, AllClosed(n)).1| == n
    ensures forall k | 0 <= k < n :: Run(t, AllClosed(n)).1[k] == ReconnectAt(t + k)
    decreases n
  {
    if n > 0 {
      var ss := AllClosed(n);
      assert ss[1..] == AllClosed(n - 1);
      ClosedRun(t + 1, n - 1);
      var rest := Run(t + 1, ss[1..]);
      assert Run(t, ss) == (rest.0, [ReconnectAt(t)] + rest.1);
      forall k | 0 < k < n ensures Run(t, ss).1[k] == ReconnectAt(t + k) {
        assert Run(t, ss).1[k] == rest.1[k - 1];
      }
    }
  }

  /** From a fresh `open`, a transport that stays closed is reconnected at
      the first tick, and then again within every 30 ticks. */
  lemma ReconnectsWithin30(n: nat, k: nat)
    requires k + 30 <= n
    ensures |Run(0, AllClosed(n)).1| == n && Run(0, AllClosed(n)).1[0]
    ensures exists j | k <= j < k + 30 :: Run(0, AllClosed(n)).1[j]
  {
    ClosedRun(0, n);
    var j := NextReconnect(k);
    assert Run(0, AllClosed(n)).1[j];
  }

  /** A tick that finds the transport connected resets the counter,
      whatever happened before. */
  lemma {:induction false} ConnectedResets(t: nat, ss: seq<NetStatus>)
    requires |ss| > 0 && ss[|ss| - 1] == Connected
    ensures Run(t, ss).0 == 0
    decreases |ss|
  {
    if |ss| > 1 {
      ConnectedResets(Step(t, ss[0]).0, ss[1..]);
    }
  }

  class RPCClient {
    const url: string
    /** Whether the constructor created a transport. */
    const hasNetClient: bool
    /** `checkTimer !== null`. */
    var timerArmed: bool
    var timeIndex: nat
    /** The calls made on the transport so far, oldest first. */
    var calls: seq<NetCall>

    /** `new RPCClient(url)`: no timer, counter 0, and a transport exactly
        when the URL starts with "ws". */
    constructor(url: string)
      ensures this.url == url && (hasNetClient <==> StartsWith(url, "ws"))
      ensures !timerArmed && timeIndex == 0 && calls == []
    {
      this.url := url;
      timerArmed := false;
      timeIndex := 0;
      calls := [];
      hasNetClient := HasTransport(url);
    }

    /** `open()`: refused while a timer is armed; otherwise the counter is
        reset, the transport (if any) is connected and the timer armed. */
    method Open() returns (ok: bool)
      modifies this`timerArmed, this`timeIndex, this`calls
      ensures ok <==> !old(timerArmed)
      ensures timerArmed
      ensures timeIndex == if ok then 0 else old(timeIndex)
      ensures calls == old(calls) + if ok && hasNetClient then [Connect(url)] else []
    {
      if !timerArmed {
        timeIndex := 0;
        if hasNetClient {
          calls := calls + [Connect(url)];
        }
        timerArmed := true;
        return true;
      } else {
        return false;
      }
    }

    /** The timer callback, given what the transport reports. Without a
        transport it does nothing; otherwise it takes one `Step`, and a
        reconnection is a `connect` call on the transport. */
    method Tick(status: NetStatus) returns (reconnect: bool)
      requires timerArmed
      modifies this`timeIndex, this`calls
      ensures !hasNetClient ==> !reconnect && timeIndex == old(timeIndex)
      ensures hasNetClient ==> (timeIndex, reconnect) == Step(old(timeIndex), status)
      ensures calls == old(calls) + if reconnect then [Connect(url)] else []
    {
      reconnect := false;
      if hasNetClient && status == Connected {
        timeIndex := 0;
      } else if hasNetClient && status == Closed {
        if timeIndex < 60 {
          if timeIndex == 0 || timeIndex == 2 || timeIndex == 5 || timeIndex == 8
             || timeIndex == 15 || timeIndex == 30 {
            calls := calls + [Connect(url)];
            reconnect := true;
          }
        } else {
          if timeIndex % 30 == 0 {
            calls := calls + [Connect(url)];
            reconnect := true;
          }
        }
        timeIndex := timeIndex + 1;
      }
    }

    /** `close()`: only with a transport and an armed timer; then the timer
        is disarmed and the transport disconnected. Without a transport an
        armed timer stays armed. */
    method Close() returns (ok: bool)
      modifies this`timerArmed, this`calls
      ensures ok <==> hasNetClient && old(timerArmed)
      ensures timerArmed == (old(timerArmed) && !ok)
      ensures calls == old(calls) + if ok then [Disconnect] else []
    {
      if hasNetClient && timerArmed {
        timerArmed := false;
        calls := calls + [Disconnect];
        return true;
      } else {
        return false;
      }
    }
  }
}

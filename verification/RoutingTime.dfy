/** Routing against a clock: with regular ticks, answers always reach their connection. */
module RoutingTime {
  import opened Basics
  import opened Transactions
  import opened ProxyModel
  import opened ProxySafety
  import opened TimeBound
  import opened Routing
  import Conservation

  /** The time an event reads from the clock, if it reads it. */
  function NetTime(e: NetEvent): Option<int> {
    if e.Handle? then Some(e.now) else if e.Internal? then TimeOf(e.event) else None
  }

  predicate IsTick(e: NetEvent) { e.Internal? && e.event.ExpireSgsn? }

  /** A combined run against a monotone clock. */
  ghost predicate IsTimedNetRun(ns: seq<Net>, es: seq<NetEvent>, clock: seq<int>, timeout: int) {
    && |clock| == |ns| && IsNetRun(ns, es, timeout)
    && forall i :: 0 <= i < |es| ==>
         clock[i] <= clock[i + 1] && (NetTime(es[i]).Some? ==> NetTime(es[i]).value == clock[i + 1])
  }

  /** When the latest of the first `n` events that is an expiry tick happened. */
  function LastNetTick(es: seq<NetEvent>, clock: seq<int>, n: nat): int
    requires n <= |es| < |clock|
  {
    if n == 0 then clock[0] else if IsTick(es[n - 1]) then clock[n] else LastNetTick(es, clock, n - 1)
  }

  ghost predicate NetTicksWithin(es: seq<NetEvent>, clock: seq<int>, d: int) {
    |es| < |clock| && forall n :: 0 <= n < |es| ==> clock[n + 1] - LastNetTick(es, clock, n) <= d
  }

  /** Fewer than 2^32 - 1 requests are handled within any span of this length that ends at an event. */
  ghost predicate NetRateBounded(ns: seq<Net>, clock: seq<int>, span: int) {
    |clock| == |ns| &&
    forall n, i :: 0 <= n < |ns| - 1 && 0 <= i < |ns[n].world.requests| && ns[n].world.requests[i].since >= clock[n + 1] - span
      ==> |ns[n].world.requests| < i + TID_PERIOD
  }

  /** What a state of a timed run keeps: its records are swept, and its timeout is that of the run. */
  ghost predicate Timely(n: Net, tick: int, now: int, timeout: int) {
    Swept(n.world.proxy, tick, now) && n.world.proxy.tm.timeout == timeout
  }

  lemma {:induction false} StepTimely(n: Net, e: NetEvent, tick: int, now: int, now': int, timeout: int)
    requires Timely(n, tick, now, timeout) && Possible(n, e) && now <= now'
    requires NetTime(e).Some? ==> NetTime(e).value == now'
    ensures Timely(NetStep(n, e), if IsTick(e) then now' else tick, now', timeout)
  {
    WorldStep(n, e);
    hide NetStep, Possible;
    if ProxyEvent(n, e).Some? {
      var event := ProxyEvent(n, e).value;
      EventTime(n, e);
      assert Advance(n.world, event).proxy == Step(n.world.proxy, event);
      hide Advance, Enabled, Step;
      StepSwept(n.world.proxy, event, tick, now, now');
    } else {
      NotATick(n, e);
    }
  }

  lemma {:induction false} EventTime(n: Net, e: NetEvent)
    requires ProxyEvent(n, e).Some?
    ensures TimeOf(ProxyEvent(n, e).value) == NetTime(e)
    ensures ProxyEvent(n, e).value.ExpireSgsn? <==> IsTick(e)
  {
  }

  lemma {:induction false} NotATick(n: Net, e: NetEvent)
    requires ProxyEvent(n, e).None?
    ensures !IsTick(e)
  {
  }

  lemma {:induction false} StartTimely(timeout: int, now: int)
    requires timeout >= 0
    ensures Timely(StartNet(timeout), now, now, timeout)
    ensures Numbered(StartNet(timeout).world) && Safe(StartNet(timeout).world)
  {
    Conservation.StartIsSafe(timeout);
    hide Safe;
  }

  lemma {:induction false} NetRunsAreTimely(ns: seq<Net>, es: seq<NetEvent>, clock: seq<int>, timeout: int, n: nat)
    requires IsTimedNetRun(ns, es, clock, timeout) && timeout >= 0 && n < |ns|
    ensures Timely(ns[n], LastNetTick(es, clock, n), clock[n], timeout)
  {
    hide Timely, NetStep, Possible, NetTime, IsTick, StartNet;
    if n == 0 {
      StartTimely(timeout, clock[0]);
    } else {
      NetRunsAreTimely(ns, es, clock, timeout, n - 1);
      assert Possible(ns[n - 1], es[n - 1]) && ns[n] == NetStep(ns[n - 1], es[n - 1]);
      StepTimely(ns[n - 1], es[n - 1], LastNetTick(es, clock, n - 1), clock[n - 1], clock[n], timeout);
    }
  }

  lemma {:induction false} StepNetNumbered(n: Net, e: NetEvent)
    requires Safe(n.world) && Numbered(n.world) && Possible(n, e)
    ensures Numbered(NetStep(n, e).world)
  {
    hide Safe, Numbered, NetStep, Possible, ProxyEvent, Advance, Enabled;
    WorldStep(n, e);
    if ProxyEvent(n, e).Some? { StepNumbered(n.world, ProxyEvent(n, e).value); }
  }

  /** Records that are recent enough cannot have their ids reissued. */
  lemma {:induction false} TimelyMeansFresh(n: Net, e: NetEvent, tick: int, now: int, timeout: int, oldest: int)
    requires Safe(n.world) && Numbered(n.world) && Timely(n, tick, now, timeout) && tick - timeout >= oldest
    requires forall i :: 0 <= i < |n.world.requests| && n.world.requests[i].since >= oldest
               ==> |n.world.requests| < i + TID_PERIOD
    ensures FreshNet(n, e)
  {
    hide Safe, Numbered, FreshId, ProxyEvent;
    if ProxyEvent(n, e).Some? { RecentMeansFresh(n.world, ProxyEvent(n, e).value, oldest); }
  }

  /** If ticks come at most d apart and fewer than 2^32 - 1 requests come in any span of the timeout plus
      d, no event of a combined run reissues a live id, so that every state is safe. */
  lemma {:induction false} RegularTicksKeepNetsSafe(
    ns: seq<Net>, es: seq<NetEvent>, clock: seq<int>, timeout: int, d: int, n: nat)
    requires IsTimedNetRun(ns, es, clock, timeout) && timeout >= 0 && NetTicksWithin(es, clock, d)
    requires NetRateBounded(ns, clock, timeout + d) && n < |ns|
    ensures Safe(ns[n].world) && Numbered(ns[n].world)
    ensures n < |es| ==> FreshNet(ns[n], es[n])
  {
    hide Safe, Numbered, FreshNet, NetStep, Possible, Timely, StartNet, NetTime, IsTick;
    if n == 0 {
      StartTimely(timeout, clock[0]);
    } else {
      RegularTicksKeepNetsSafe(ns, es, clock, timeout, d, n - 1);
      assert Possible(ns[n - 1], es[n - 1]) && ns[n] == NetStep(ns[n - 1], es[n - 1]);
      StepNetSafeExactly(ns[n - 1], es[n - 1]);
      StepNetNumbered(ns[n - 1], es[n - 1]);
    }
    if n < |es| {
      NetRunsAreTimely(ns, es, clock, timeout, n);
      TimelyMeansFresh(ns[n], es[n], LastNetTick(es, clock, n), clock[n], timeout, clock[n + 1] - (timeout + d));
    }
  }

  /** End-to-end routing with no hypothesis on ids: over every run with regular ticks, that rate and
      fewer than 2^64 accepts, an answer, if it is delivered, is delivered once, to the connection its
      request came from. */
  lemma {:induction false} RegularTicksRouteAnswers(
    ns: seq<Net>, es: seq<NetEvent>, clock: seq<int>, timeout: int, d: int, n: nat)
    requires IsTimedNetRun(ns, es, clock, timeout) && timeout >= 0 && NetTicksWithin(es, clock, d)
    requires NetRateBounded(ns, clock, timeout + d) && n < |ns|
    ensures |ns[n].origins| == |ns[n].world.requests|
    ensures forall i, x :: AnswerDelivered(ns[n], i, x) ==> x.conn == ns[n].origins[i]
    ensures forall i, x, y :: AnswerDelivered(ns[n], i, x) && AnswerDelivered(ns[n], i, y) ==> x == y
  {
    hide NetStep, Possible, StartNet, FreshNet, AnswerDelivered;
    forall i | 0 <= i < n ensures FreshNet(ns[i], es[i]) {
      RegularTicksKeepNetsSafe(ns, es, clock, timeout, d, i);
    }
    AnswersReachTheirConnection(ns, es, timeout, n);
  }
}

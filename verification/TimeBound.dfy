/** Time: how old a transaction can get when expiry ticks come regularly, and what follows for ids. */
module TimeBound {
  import opened Basics
  import opened GsupMessages
  import opened Converter
  import opened Transactions
  import opened ProxyModel
  import opened ProxySafety
  import opened Allocation
  import Gsup = GsupCodec
  import Map = MapCodec

  /** The time an event reads from the clock, if it reads it. */
  function TimeOf(e: Event): Option<int> {
    if e.HlrDisconnect? then None else Some(e.now)
  }

  /** A run against a monotone clock: the i-th event happens at the time after the i-th state. Ids
      may be reissued. */
  ghost predicate IsTimedRun(ws: seq<World>, es: seq<Event>, clock: seq<int>, timeout: int) {
    && |ws| == |es| + 1 && |clock| == |ws| && ws[0] == World(Start(timeout), [])
    && forall i :: 0 <= i < |es| ==>
         && clock[i] <= clock[i + 1]
         && (TimeOf(es[i]).Some? ==> TimeOf(es[i]).value == clock[i + 1])
         && Enabled(ws[i].proxy, es[i]) && ws[i + 1] == Advance(ws[i], es[i])
  }

  /** When the latest of the first `n` events that is an expiry tick happened. */
  function LastTick(es: seq<Event>, clock: seq<int>, n: nat): int
    requires n <= |es| < |clock|
  {
    if n == 0 then clock[0] else if es[n - 1].ExpireSgsn? then clock[n] else LastTick(es, clock, n - 1)
  }

  /** Every event comes at most `d` after the latest tick before it, or after the start; so ticks are
      at most `d` apart. */
  ghost predicate TicksWithin(es: seq<Event>, clock: seq<int>, d: int) {
    |es| < |clock| && forall n :: 0 <= n < |es| ==> clock[n + 1] - LastTick(es, clock, n) <= d
  }

  /** Every transaction survived the last tick, or came after it. */
  ghost predicate Swept(s: ProxyState, tick: int, now: int) {
    && s.tm.timeout >= 0 && tick <= now
    && forall t :: t in s.Transactions() ==>
         tick - s.Transactions()[t].createdAt <= s.tm.timeout && s.Transactions()[t].createdAt <= now
  }

  /** What a step does to the records: none changes, and only a request adds one, made now. */
  ghost predicate RecordsAge(s: ProxyState, s': ProxyState, now: Option<int>) {
    && s'.tm.timeout == s.tm.timeout
    && forall t :: t in s'.Transactions() ==>
         || (t in s.Transactions() && s'.Transactions()[t] == s.Transactions()[t])
         || now == Some(s'.Transactions()[t].createdAt)
  }

  lemma {:induction false} RequestAges(s: ProxyState, g: GsupMessage, client: ClientId, now: int)
    ensures RecordsAge(s, OnRequest(s, g, client, now), Some(now))
  {
    hide Map.Encoded, GsupToMap;
  }

  lemma {:induction false} NackEachAges(s: ProxyState, order: seq<U32>)
    requires forall t :: t in order ==> t in s.pendingOps
    ensures RecordsAge(s, NackEach(s, order), None)
  {
    hide ErrorData;
    if order != [] { NackEachAges(s, order[..|order| - 1]); }
  }

  /** A tick removes exactly the transactions older than the timeout: none at an age up to it. */
  lemma {:induction false} TickRemovesExactlyStale(s: ProxyState, now: int, order: seq<U32>)
    requires Enumerates(order, s.Transactions().Keys)
    ensures var s' := OnExpireSgsn(s, now, order);
            && s'.tm.timeout == s.tm.timeout
            && (forall t :: t in s'.Transactions() <==> t in s.Transactions() && now - s.Transactions()[t].createdAt <= s.tm.timeout)
            && (forall t :: t in s'.Transactions() ==> s'.Transactions()[t] == s.Transactions()[t])
  {
    var s1 := s.(tm := s.tm.(transactions := Unexpired(s.Transactions(), now, s.tm.timeout)));
    ExpireEachKeeps(s1, StaleAmong(s.Transactions(), order, now, s.tm.timeout));
    hide ExpireEach, StaleAmong;
  }

  lemma {:induction false} StepAges(s: ProxyState, e: Event)
    requires Enabled(s, e)
    ensures RecordsAge(s, Step(s, e), TimeOf(e))
  {
    hide Gsup.Decoded, Gsup.Encoded, Map.Decoded, Map.Encoded, MapToGsup, GsupToMapResult, MapInvokeToGsup;
    hide OnRequest, NackEach, OnExpireSgsn, IsHlrInitiated;
    match e {
      case GsupIn(payload, client, now) =>
        if Gsup.Decoded(payload).Success? { RequestAges(s, Gsup.Decoded(payload).value, client, now); }
      case ExpireSgsn(now, order) => TickRemovesExactlyStale(s, now, order);
      case HlrDisconnect(order) => NackEachAges(s, order);
      case _ =>
    }
  }

  /** A step keeps what is on record swept, as of its own time. */
  lemma {:induction false} StepSwept(s: ProxyState, e: Event, tick: int, now: int, now': int)
    requires Swept(s, tick, now) && Enabled(s, e) && now <= now'
    requires TimeOf(e).Some? ==> TimeOf(e).value == now'
    ensures Swept(Step(s, e), if e.ExpireSgsn? then now' else tick, now') && Step(s, e).tm.timeout == s.tm.timeout
  {
    hide OnGsup, OnMap, OnExpireHlr, OnHlrDisconnect;
    StepAges(s, e);
    if e.ExpireSgsn? { TickRemovesExactlyStale(s, e.now, e.order); }
    hide Enabled, OnExpireSgsn;
  }

  lemma {:induction false} RunsAreSwept(ws: seq<World>, es: seq<Event>, clock: seq<int>, timeout: int, n: nat)
    requires IsTimedRun(ws, es, clock, timeout) && timeout >= 0 && n < |ws|
    ensures Swept(ws[n].proxy, LastTick(es, clock, n), clock[n])
  {
    if n > 0 {
      hide Bookkept, NewRequest, Step, Enabled, Swept, TimeOf;
      RunsAreSwept(ws, es, clock, timeout, n - 1);
      assert ws[n] == Advance(ws[n - 1], es[n - 1]);
      StepSwept(ws[n - 1].proxy, es[n - 1], LastTick(es, clock, n - 1), clock[n - 1], clock[n]);
    }
  }

  /** Consecutive ticks are at most `d` apart, as the hypothesis says. */
  lemma {:induction false} TicksAreRegular(es: seq<Event>, clock: seq<int>, d: int, m: nat, n: nat)
    requires TicksWithin(es, clock, d) && m < n < |es| && es[m].ExpireSgsn? && es[n].ExpireSgsn?
    requires forall k :: m < k < n ==> !es[k].ExpireSgsn?
    ensures clock[n + 1] - clock[m + 1] <= d
  {
    LastTickIs(es, clock, m, n);
  }

  lemma {:induction false} LastTickIs(es: seq<Event>, clock: seq<int>, m: nat, n: nat)
    requires |es| < |clock| && m < n <= |es| && es[m].ExpireSgsn? && forall k :: m < k < n ==> !es[k].ExpireSgsn?
    ensures LastTick(es, clock, n) == clock[m + 1]
  {
    if m + 1 < n { LastTickIs(es, clock, m, n - 1); }
  }

  /** If expiry ticks are at most `d` apart, no transaction gets older than the timeout plus `d`: the
      n-th state lasts until the n-th event, and that is how old its transactions are by then. */
  lemma {:induction false} NoTransactionOutlives(
    ws: seq<World>, es: seq<Event>, clock: seq<int>, timeout: int, d: int, n: nat, t: U32)
    requires IsTimedRun(ws, es, clock, timeout) && timeout >= 0 && TicksWithin(es, clock, d)
    requires n < |es| && t in ws[n].proxy.Transactions()
    ensures clock[n + 1] - ws[n].proxy.Transactions()[t].createdAt <= timeout + d
  {
    RunsAreSwept(ws, es, clock, timeout, n);
    TimeoutIsConstant(ws, es, clock, timeout, n);
    hide Advance, Enabled;
  }

  lemma {:induction false} TimeoutIsConstant(ws: seq<World>, es: seq<Event>, clock: seq<int>, timeout: int, n: nat)
    requires IsTimedRun(ws, es, clock, timeout) && n < |ws|
    ensures ws[n].proxy.tm.timeout == timeout
  {
    if n > 0 {
      TimeoutIsConstant(ws, es, clock, timeout, n - 1);
      StepAges(ws[n - 1].proxy, es[n - 1]);
      hide Step, Enabled, Bookkept, NewRequest;
      assert ws[n] == Advance(ws[n - 1], es[n - 1]);
    }
  }

  // ------------------------------------------------------ freshness from the clock

  /** Fewer than 2^32 - 1 requests come in within any span of length `span` that ends at an event. */
  ghost predicate RateBounded(ws: seq<World>, clock: seq<int>, span: int) {
    |clock| == |ws| &&
    forall n, i :: 0 <= n < |ws| - 1 && 0 <= i < |ws[n].requests| && ws[n].requests[i].since >= clock[n + 1] - span
      ==> |ws[n].requests| < i + TID_PERIOD
  }

  /** A state whose transactions are all recent enough cannot reissue a live id. */
  lemma {:induction false} RecentMeansFresh(w: World, e: Event, oldest: int)
    requires Safe(w) && Numbered(w)
    requires forall t :: t in w.proxy.Transactions() ==> w.proxy.Transactions()[t].createdAt >= oldest
    requires forall i :: 0 <= i < |w.requests| && w.requests[i].since >= oldest ==> |w.requests| < i + TID_PERIOD
    ensures FreshId(w.proxy, e)
  {
    forall i | 0 <= i < |w.requests| && w.requests[i].fate.Pending?
      ensures |w.requests| < i + TID_PERIOD
    {
      hide OperationOf;
      assert OnRecord(w.requests[i], w.proxy);
    }
    hide Safe, Numbered, FreshId;
    YoungPendingMeansFresh(w, e);
  }

  /** With regular ticks and that rate, no live id is ever reissued, and so every state is safe: the
      freshness hypothesis of the safety theorem follows from the clock. */
  lemma {:induction false} RegularTicksMakeRunsSafe(
    ws: seq<World>, es: seq<Event>, clock: seq<int>, timeout: int, d: int, n: nat)
    requires IsTimedRun(ws, es, clock, timeout) && timeout >= 0 && TicksWithin(es, clock, d)
    requires RateBounded(ws, clock, timeout + d) && n < |ws|
    ensures Safe(ws[n]) && Numbered(ws[n])
    ensures n < |es| ==> FreshId(ws[n].proxy, es[n])
  {
    if n > 0 {
      RegularTicksMakeRunsSafe(ws, es, clock, timeout, d, n - 1);
      hide Safe, Numbered, FreshId, Advance, Enabled;
      assert Enabled(ws[n - 1].proxy, es[n - 1]) && ws[n] == Advance(ws[n - 1], es[n - 1]);
      StepSafe(ws[n - 1], es[n - 1]);
      StepNumbered(ws[n - 1], es[n - 1]);
    }
    if n < |es| {
      forall t | t in ws[n].proxy.Transactions()
        ensures ws[n].proxy.Transactions()[t].createdAt >= clock[n + 1] - (timeout + d)
      {
        NoTransactionOutlives(ws, es, clock, timeout, d, n, t);
      }
      hide Safe, Numbered, FreshId, Advance, Enabled;
      RecentMeansFresh(ws[n], es[n], clock[n + 1] - (timeout + d));
    }
  }

  /** A request that gets older than the timeout plus `d` while a state lasts is no longer pending in
      it: it was answered or discarded before. */
  lemma {:induction false} OldRequestsAreSettled(
    ws: seq<World>, es: seq<Event>, clock: seq<int>, timeout: int, d: int, n: nat, i: nat)
    requires IsTimedRun(ws, es, clock, timeout) && timeout >= 0 && TicksWithin(es, clock, d)
    requires RateBounded(ws, clock, timeout + d)
    requires n < |es| && i < |ws[n].requests| && clock[n + 1] - ws[n].requests[i].since > timeout + d
    ensures !ws[n].requests[i].fate.Pending?
  {
    RegularTicksMakeRunsSafe(ws, es, clock, timeout, d, n);
    hide Advance, Enabled, OperationOf, RecordsPending, AnswersDelivered, RepliesAccounted;
    var r := ws[n].requests[i];
    if r.fate.Pending? {
      assert OnRecord(r, ws[n].proxy);
      NoTransactionOutlives(ws, es, clock, timeout, d, n, r.tid);
    }
  }
}

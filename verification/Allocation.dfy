/** What a reissued transaction id does: exactly when the two tables stay in agreement. */
module Allocation {
  import opened Basics
  import opened GsupMessages
  import opened MapMessages
  import opened Converter
  import opened Transactions
  import opened ProxyModel
  import opened ProxySafety
  import Gsup = GsupCodec
  import Map = MapCodec
  import MapSizes

  /** The event is a request that is given a live id and whose type is not forwarded: completing it
      takes the other transaction's record away and leaves that one's operation behind. */
  predicate Clashes(s: ProxyState, e: Event) {
    && RequestIn(e).Some? && NextTid(s.tm.tidCounter) in s.Transactions()
    && ExpectedResult(RequestIn(e).value.mtype).Failure?
  }

  lemma {:induction false} ConvertedMeansExpected(g: GsupMessage)
    ensures forall tid, id :: GsupToMap(g, tid, id).Success? <==> ExpectedResult(g.mtype).Success?
  {
    forall tid: U32, id: Byte
      ensures GsupToMap(g, tid, id).Success? <==> ExpectedResult(g.mtype).Success?
    {
      ConvertibleRequests(g, tid, id);
    }
  }

  /** Agreement of the tables over a request, for any message: it is lost if and only if a live id is
      reissued to a request that does not convert. */
  lemma {:induction false} RequestAgreesExactly(s: ProxyState, g: GsupMessage, client: ClientId, now: int)
    requires TablesAgree(s)
    ensures TablesAgree(OnRequest(s, g, client, now))
            <==> (NextTid(s.tm.tidCounter) in s.Transactions() ==> ExpectedResult(g.mtype).Success?)
  {
    hide Map.Encoded, GsupToMap, ExpectedResult;
    ConvertedMeansExpected(g);
    var tid, s' := NextTid(s.tm.tidCounter), OnRequest(s, g, client, now);
    if tid in s.Transactions() && ExpectedResult(g.mtype).Failure? {
      assert tid in s'.pendingOps && tid !in s'.Transactions();
    }
  }

  /** The same for every callback: only such a clash breaks the agreement. */
  lemma {:induction false} StepAgreesExactly(s: ProxyState, e: Event)
    requires TablesAgree(s) && Enabled(s, e)
    ensures TablesAgree(Step(s, e)) <==> !Clashes(s, e)
  {
    hide TablesAgree, ExpectedResult, Gsup.Decoded, OnRequest;
    if RequestIn(e).Some? {
      RequestAgreesExactly(s, RequestIn(e).value, e.client, e.now);
    } else {
      StepLawful(s, e);
      hide Step;
    }
  }

  /** A run of the proxy in which ids may be reissued. */
  ghost predicate IsOpenRun(ss: seq<ProxyState>, es: seq<Event>, timeout: int) {
    && |ss| == |es| + 1 && ss[0] == Start(timeout)
    && forall i :: 0 <= i < |es| ==> Enabled(ss[i], es[i]) && ss[i + 1] == Step(ss[i], es[i])
  }

  /** The promise that the tables are always in sync, exactly: it holds in every state of a run if
      and only if no event of the run is such a clash. */
  lemma {:induction false} RunsAgreeExactly(ss: seq<ProxyState>, es: seq<Event>, timeout: int)
    requires IsOpenRun(ss, es, timeout)
    ensures (forall n :: 0 <= n < |ss| ==> TablesAgree(ss[n])) <==> (forall i :: 0 <= i < |es| ==> !Clashes(ss[i], es[i]))
  {
    if forall n :: 0 <= n < |ss| ==> TablesAgree(ss[n]) {
      hide TablesAgree, Step, Clashes, Enabled;
      forall i | 0 <= i < |es| ensures !Clashes(ss[i], es[i]) {
        assert TablesAgree(ss[i]) && TablesAgree(ss[i + 1]) && Enabled(ss[i], es[i]) && ss[i + 1] == Step(ss[i], es[i]);
        StepAgreesExactly(ss[i], es[i]);
      }
    }
    if forall i :: 0 <= i < |es| ==> !Clashes(ss[i], es[i]) {
      forall n | 0 <= n < |ss| ensures TablesAgree(ss[n]) {
        AgreesUpTo(ss, es, timeout, n);
      }
    }
  }

  lemma {:induction false} AgreesUpTo(ss: seq<ProxyState>, es: seq<Event>, timeout: int, n: nat)
    requires IsOpenRun(ss, es, timeout) && n < |ss|
    requires forall i :: 0 <= i < |es| ==> !Clashes(ss[i], es[i])
    ensures TablesAgree(ss[n])
  {
    if n > 0 {
      AgreesUpTo(ss, es, timeout, n - 1);
      hide TablesAgree, Step, Clashes, Enabled;
      StepAgreesExactly(ss[n - 1], es[n - 1]);
    }
  }

  /** GSUP messages without any element: one is forwarded, the other does not convert. */
  const BARE_PURGE: Bytes := [PURGE_MS_REQUEST]
  const BARE_DELETE: Bytes := [DELETE_DATA_REQUEST]

  lemma {:induction false} BareDecodes(t: MessageType)
    ensures Gsup.Decoded([t]) == Success(BLANK_GSUP.(mtype := t))
  {
    assert [t][1..] == [];
  }

  /** A request that stays pending while requests that do not convert use up the ids. */
  function FloodEvent(i: nat): Event { GsupIn(if i == 0 then BARE_PURGE else BARE_DELETE, 1, 0) }

  ghost function FloodState(n: nat, timeout: int): ProxyState {
    if n == 0 then Start(timeout) else Step(FloodState(n - 1, timeout), FloodEvent(n - 1))
  }

  /** Until the ids wrap round, the first request is the only one on record. */
  ghost predicate OnlyFirst(s: ProxyState, n: nat) {
    && TablesAgree(s) && s.Transactions().Keys == {1} && s.tm.tidCounter == TidCounterAt(n)
  }

  lemma {:induction false} FloodStarts(timeout: int)
    ensures OnlyFirst(FloodState(1, timeout), 1)
  {
    var s := Start(timeout);
    BareDecodes(PURGE_MS_REQUEST);
    ReissuedIdExact(s, BARE_PURGE, 1, 0);
    hide Gsup.Decoded, Map.Encoded;
    assert FloodState(0, timeout) == s && FloodState(1, timeout) == OnRequest(s, BLANK_GSUP.(mtype := PURGE_MS_REQUEST), 1, 0);
    RequestAgreesExactly(s, BLANK_GSUP.(mtype := PURGE_MS_REQUEST), 1, 0);
    assert TidCounterAt(1) == TidCounterAfter(TidCounterAt(0));
  }

  lemma {:induction false} FloodStep(s: ProxyState, n: nat)
    requires OnlyFirst(s, n) && 1 <= n < TID_PERIOD
    ensures OnlyFirst(Step(s, FloodEvent(n)), n + 1)
  {
    hide Gsup.Decoded, Map.Encoded, TidCounterAt, NextTid, TidCounterAfter;
    BareDecodes(DELETE_DATA_REQUEST);
    var g := BLANK_GSUP.(mtype := DELETE_DATA_REQUEST);
    assert Step(s, FloodEvent(n)) == OnRequest(s, g, 1, 0);
    NthTid(n);
    assert NextTid(s.tm.tidCounter) !in s.Transactions();
    CounterAdvances(n);
  }

  lemma {:induction false} CounterAdvances(n: nat)
    ensures TidCounterAt(n + 1) == TidCounterAfter(TidCounterAt(n))
  {
  }

  lemma {:induction false} FloodKeepsFirst(n: nat, timeout: int)
    requires 1 <= n <= TID_PERIOD
    ensures OnlyFirst(FloodState(n, timeout), n)
  {
    hide OnlyFirst, Step, FloodEvent, FloodState;
    if n == 1 {
      FloodStarts(timeout);
    } else {
      FloodKeepsFirst(n - 1, timeout);
      FloodAdvances(n - 1, timeout);
      FloodStep(FloodState(n - 1, timeout), n - 1);
    }
  }

  function FloodEvents(n: nat): seq<Event> { seq(n, i requires 0 <= i < n => FloodEvent(i)) }

  ghost function FloodStates(n: nat, timeout: int): seq<ProxyState> {
    seq(n + 1, i requires 0 <= i < n + 1 => FloodState(i, timeout))
  }

  lemma {:induction false} FloodIsRun(n: nat, timeout: int)
    ensures IsOpenRun(FloodStates(n, timeout), FloodEvents(n), timeout)
  {
    var ss, es := FloodStates(n, timeout), FloodEvents(n);
    assert ss[0] == Start(timeout);
    forall i | 0 <= i < n ensures Enabled(ss[i], es[i]) && ss[i + 1] == Step(ss[i], es[i]) {
      assert es[i] == FloodEvent(i) && es[i].GsupIn?;
      FloodAdvances(i, timeout);
      hide Step;
    }
    hide Step;
  }

  lemma {:induction false} FloodAdvances(i: nat, timeout: int)
    ensures FloodState(i + 1, timeout) == Step(FloodState(i, timeout), FloodEvent(i))
  {
    hide Step, FloodEvent;
  }

  /** The agreement is indeed lost on a run: one request is pending while the next 2^32 - 2 requests
      fail to convert, and the one after them is given its id. */
  lemma {:induction false} AgreementCanBeLost(timeout: int)
    ensures exists ss, es :: IsOpenRun(ss, es, timeout) && !TablesAgree(ss[|ss| - 1])
  {
    hide Step, TablesAgree, OnlyFirst, FloodEvent, IsOpenRun, FloodState;
    FloodKeepsFirst(TID_PERIOD, timeout);
    FloodEnds(FloodState(TID_PERIOD, timeout));
    FloodAdvances(TID_PERIOD, timeout);
    FloodIsRun(TID_PERIOD + 1, timeout);
    var ss, es := FloodStates(TID_PERIOD + 1, timeout), FloodEvents(TID_PERIOD + 1);
    assert IsOpenRun(ss, es, timeout);
    assert ss[|ss| - 1] == FloodState(TID_PERIOD + 1, timeout);
  }

  lemma {:induction false} FloodEnds(s: ProxyState)
    requires OnlyFirst(s, TID_PERIOD)
    ensures !TablesAgree(Step(s, FloodEvent(TID_PERIOD)))
  {
    hide Gsup.Decoded, Map.Encoded, TidCounterAt, TablesAgree;
    BareDecodes(DELETE_DATA_REQUEST);
    NthTid(TID_PERIOD);
    hide NextTid, Step;
    StepAgreesExactly(s, FloodEvent(TID_PERIOD));
  }

  /** What becomes of the record under the issued id, live before or not: it is there afterwards if
      and only if the request converts, and it is the request's own if and only if, besides, the id
      was not live: `emplace` keeps the whole record that is there, the older request's. */
  lemma {:induction false} ReissuedIdExact(s: ProxyState, payload: Bytes, client: ClientId, now: int)
    requires Gsup.Decoded(payload).Success?
    ensures var g, tid := Gsup.Decoded(payload).value, NextTid(s.tm.tidCounter);
            var s' := OnRequest(s, g, client, now);
            && (tid in s'.Transactions() <==> ExpectedResult(g.mtype).Success?)
            && (tid in s'.Transactions() ==>
                  s'.Transactions()[tid]
                  == if tid in s.Transactions() then s.Transactions()[tid]
                     else PendingTransaction(tid, NextInvokeId(s.tm.invokeIdCounter), g.imsi, client, now))
            && s'.sgsnOut == s.sgsnOut
            && |s'.hlrOut| == |s.hlrOut| + if tid in s'.Transactions() then 1 else 0
  {
    hide Gsup.Decoded, Map.Encoded, GsupToMap, ExpectedResult;
    var g, tid := Gsup.Decoded(payload).value, NextTid(s.tm.tidCounter);
    var id := Allocated(s.tm, g.imsi, client, now).transactions[tid].mapInvokeId;
    ConvertibleRequests(g, tid, id);
    if ExpectedResult(g.mtype).Success? { MapSizes.DecodableRequestsEncode(payload, tid, id); }
  }

  // -------------------------------------------------------------- invoke ids

  /** Every recorded invoke id is one that the counter can issue, and fits one octet of BER. */
  ghost predicate InvokeIdsLegal(s: ProxyState) {
    && s.tm.invokeIdCounter >= 1
    && forall t :: t in s.Transactions() ==> 1 <= s.Transactions()[t].mapInvokeId <= INVOKE_ID_PERIOD
  }

  /** The step takes records away, but adds none and issues no id. */
  ghost predicate Removes(s: ProxyState, s': ProxyState) {
    && s'.tm.invokeIdCounter == s.tm.invokeIdCounter
    && forall t :: t in s'.Transactions() ==> t in s.Transactions() && s'.Transactions()[t] == s.Transactions()[t]
  }

  lemma {:induction false} NackEachRemoves(s: ProxyState, order: seq<U32>)
    requires forall t :: t in order ==> t in s.pendingOps
    ensures Removes(s, NackEach(s, order))
  {
    hide ErrorData;
    if order != [] { NackEachRemoves(s, order[..|order| - 1]); }
  }

  lemma {:induction false} ExpireEachKeeps(s: ProxyState, txs: seq<PendingTransaction>)
    ensures ExpireEach(s, txs).tm == s.tm
  {
    hide ErrorData;
    if txs != [] { ExpireEachKeeps(s, txs[..|txs| - 1]); }
  }

  lemma {:induction false} RemovalKeepsInvokeIds(s: ProxyState, s': ProxyState)
    requires InvokeIdsLegal(s) && Removes(s, s')
    ensures InvokeIdsLegal(s')
  {
  }

  lemma {:induction false} IssuedInvokeId(c: Byte)
    requires c >= 1
    ensures 1 <= NextInvokeId(c) <= INVOKE_ID_PERIOD && InvokeIdCounterAfter(c) >= 1
  {
  }

  lemma {:induction false} AllocationKeepsInvokeIds(s: ProxyState, imsi: string, client: ClientId, now: int)
    requires InvokeIdsLegal(s)
    ensures InvokeIdsLegal(s.(tm := Allocated(s.tm, imsi, client, now)))
  {
    IssuedInvokeId(s.tm.invokeIdCounter);
    var s', tid := s.(tm := Allocated(s.tm, imsi, client, now)), NextTid(s.tm.tidCounter);
    hide NextInvokeId, InvokeIdCounterAfter;
    forall t | t in s'.Transactions() ensures 1 <= s'.Transactions()[t].mapInvokeId <= INVOKE_ID_PERIOD {
      if t in s.Transactions() {
        assert s'.Transactions()[t] == s.Transactions()[t];
      } else {
        assert t == tid && s'.Transactions()[t].mapInvokeId == NextInvokeId(s.tm.invokeIdCounter);
      }
    }
  }

  lemma {:induction false} RequestKeepsInvokeIds(s: ProxyState, g: GsupMessage, client: ClientId, now: int)
    requires InvokeIdsLegal(s)
    ensures InvokeIdsLegal(OnRequest(s, g, client, now))
  {
    hide Map.Encoded, GsupToMap, Allocated;
    var s1 := s.(tm := Allocated(s.tm, g.imsi, client, now));
    AllocationKeepsInvokeIds(s, g.imsi, client, now);
    assert Removes(s1, OnRequest(s, g, client, now));
    RemovalKeepsInvokeIds(s1, OnRequest(s, g, client, now));
  }

  lemma {:induction false} AnswerRemoves(s: ProxyState, m: MapMessage)
    ensures Removes(s, OnAnswer(s, m))
  {
    hide Gsup.Encoded, MapToGsup, InContext;
  }

  lemma {:induction false} HlrSideRemoves(s: ProxyState, s': ProxyState)
    requires s'.tm == s.tm
    ensures Removes(s, s')
  {
  }

  lemma {:induction false} MapRemoves(s: ProxyState, payload: Bytes, now: int)
    ensures Removes(s, OnMap(s, payload, now))
  {
    hide Map.Decoded, OnAnswer, MapInvokeToGsup, Gsup.Encoded, Removes;
    HlrSideRemoves(s, s);
    var m := Map.Decoded(payload);
    if m.Success? {
      AnswerRemoves(s, m.value);
      HlrSideRemoves(s, OnHlrInvoke(s, m.value, now));
    }
  }

  lemma {:induction false} StepKeepsInvokeIds(s: ProxyState, e: Event)
    requires InvokeIdsLegal(s) && Enabled(s, e)
    ensures InvokeIdsLegal(Step(s, e))
  {
    hide InvokeIdsLegal, Gsup.Decoded, Map.Encoded, GsupToMapResult, OnMap, OnRequest, NackEach, ExpireEach,
         IsHlrInitiated,
         StaleAmong;
    match e {
      case GsupIn(payload, client, now) =>
        var g := Gsup.Decoded(payload);
        HlrSideRemoves(s, s);
        RemovalKeepsInvokeIds(s, s);
        if g.Success? {
          RequestKeepsInvokeIds(s, g.value, client, now);
          HlrSideRemoves(s, OnHlrResponse(s, g.value));
          RemovalKeepsInvokeIds(s, OnHlrResponse(s, g.value));
        }
      case MapIn(payload, now) =>
        MapRemoves(s, payload, now);
        RemovalKeepsInvokeIds(s, OnMap(s, payload, now));
      case ExpireSgsn(now, order) =>
        var s1 := s.(tm := s.tm.(transactions := Unexpired(s.Transactions(), now, s.tm.timeout)));
        ExpireEachKeeps(s1, StaleAmong(s.Transactions(), order, now, s.tm.timeout));
        assert Removes(s, s1);
        RemovalKeepsInvokeIds(s, Step(s, e));
      case ExpireHlr(now, timeout) =>
        HlrSideRemoves(s, Step(s, e));
        RemovalKeepsInvokeIds(s, Step(s, e));
      case HlrDisconnect(order) =>
        NackEachRemoves(s, order);
        RemovalKeepsInvokeIds(s, Step(s, e));
    }
  }

  /** In every state of every run, recorded invoke ids lie between 1 and 127. */
  lemma {:induction false} RunsKeepInvokeIds(ss: seq<ProxyState>, es: seq<Event>, timeout: int, n: nat)
    requires IsOpenRun(ss, es, timeout) && n < |ss|
    ensures InvokeIdsLegal(ss[n])
  {
    if n > 0 {
      RunsKeepInvokeIds(ss, es, timeout, n - 1);
      hide InvokeIdsLegal, Step, Enabled;
      StepKeepsInvokeIds(ss[n - 1], es[n - 1]);
    }
  }
}

/** Conservation and single, correctly addressed answers, exactly: they hold as long as no live id is
    reissued, and no longer. */
module Conservation {
  import opened Basics
  import opened GsupMessages
  import opened Converter
  import opened Transactions
  import opened ProxyModel
  import opened ProxySafety
  import opened Allocation
  import Discards
  import Gsup = GsupCodec
  import Map = MapCodec

  /** Two requests are pending under one id, and so share one record. */
  ghost predicate Shared(w: World, i: nat, j: nat) {
    && i < j < |w.requests| && w.requests[i].fate.Pending? && w.requests[j].fate.Pending?
    && w.requests[i].tid == w.requests[j].tid
  }

  /** A converting request that is given a live id shares the record of the request that has it. */
  lemma {:induction false} ReissueShares(w: World, e: Event)
    requires Safe(w) && Enabled(w.proxy, e) && !FreshId(w.proxy, e)
    requires ExpectedResult(RequestIn(e).value.mtype).Success?
    ensures exists i: nat :: Shared(Advance(w, e), i, |w.requests|)
  {
    hide Gsup.Decoded, PendingOnRecord, AnswersDelivered, RepliesAccounted, TablesAgree, ExpectedResult;
    var tid := NextTid(w.proxy.tm.tidCounter);
    assert tid in w.proxy.Transactions();
    var i :| PendingAt(w.requests, i, tid);
    Discards.NewRequestExactly(w, e);
    ReissuedIdExact(w.proxy, e.payload, e.client, e.now);
    assert Step(w.proxy, e) == OnRequest(w.proxy, RequestIn(e).value, e.client, e.now);
    hide OnRequest;
    var w' := Advance(w, e);
    hide Step;
    assert w'.requests[i] == Settled(w.requests[i], w.proxy, w'.proxy) == w.requests[i];
    assert w'.requests[|w.requests|].tid == tid;
    assert Shared(w', i, |w.requests|);
  }

  /** Every callback keeps a safe proxy safe if and only if it does not reissue a live id. */
  lemma {:induction false} StepSafeExactly(w: World, e: Event)
    requires Safe(w) && Enabled(w.proxy, e)
    ensures Safe(Advance(w, e)) <==> FreshId(w.proxy, e)
  {
    if FreshId(w.proxy, e) {
      StepSafe(w, e);
    } else if ExpectedResult(RequestIn(e).value.mtype).Success? {
      ReissueShares(w, e);
      var i: nat :| Shared(Advance(w, e), i, |w.requests|);
      hide Advance, Enabled, FreshId, RecordsPending, AnswersDelivered, RepliesAccounted, TablesAgree;
    } else {
      hide PendingOnRecord, RecordsPending, AnswersDelivered, RepliesAccounted, TablesAgree, Step, Gsup.Decoded;
      StepAgreesExactly(w.proxy, e);
    }
  }

  /** A run of the proxy with its ledger, ids reissued or not. */
  ghost predicate IsLedgerRun(ws: seq<World>, es: seq<Event>, timeout: int) {
    && |ws| == |es| + 1 && ws[0] == World(Start(timeout), [])
    && forall i :: 0 <= i < |es| ==> Enabled(ws[i].proxy, es[i]) && ws[i + 1] == Advance(ws[i], es[i])
  }

  lemma {:induction false} SafeUpTo(ws: seq<World>, es: seq<Event>, timeout: int, n: nat)
    requires IsLedgerRun(ws, es, timeout) && n < |ws|
    requires forall i :: 0 <= i < n ==> FreshId(ws[i].proxy, es[i])
    ensures Safe(ws[n])
  {
    if n > 0 {
      SafeUpTo(ws, es, timeout, n - 1);
      hide Safe, Advance, FreshId, Enabled;
      StepSafeExactly(ws[n - 1], es[n - 1]);
    }
  }

  /** Over whole runs: conservation and single, correctly addressed answers hold in every state if and
      only if no event of the run reissues a live id. */
  lemma {:induction false} RunsSafeExactly(ws: seq<World>, es: seq<Event>, timeout: int)
    requires IsLedgerRun(ws, es, timeout)
    ensures (forall n :: 0 <= n < |ws| ==> Safe(ws[n])) <==> (forall i :: 0 <= i < |es| ==> FreshId(ws[i].proxy, es[i]))
  {
    if forall n :: 0 <= n < |ws| ==> Safe(ws[n]) {
      hide Safe, Advance, FreshId, Enabled;
      forall i | 0 <= i < |es| ensures FreshId(ws[i].proxy, es[i]) {
        assert Safe(ws[i]) && Safe(ws[i + 1]) && Enabled(ws[i].proxy, es[i]) && ws[i + 1] == Advance(ws[i], es[i]);
        StepSafeExactly(ws[i], es[i]);
      }
    }
    if forall i :: 0 <= i < |es| ==> FreshId(ws[i].proxy, es[i]) {
      hide Safe, Advance, FreshId, Enabled;
      forall n | 0 <= n < |ws| ensures Safe(ws[n]) {
        SafeUpTo(ws, es, timeout, n);
      }
    }
  }

  // ----------------------------------------------------------------- a failing run

  ghost function FloodWorld(n: nat, timeout: int): World {
    if n == 0 then World(Start(timeout), [])
    else
      assert Enabled(FloodWorld(n - 1, timeout).proxy, FloodEvent(n - 1));
      Advance(FloodWorld(n - 1, timeout), FloodEvent(n - 1))
  }

  lemma {:induction false} FloodWorldIs(n: nat, timeout: int)
    ensures FloodWorld(n, timeout).proxy == FloodState(n, timeout)
  {
    hide Step, FloodEvent, FloodState, FloodWorld, Start, Enabled;
    if n == 0 {
      FloodBegins(timeout);
    } else {
      FloodWorldIs(n - 1, timeout);
      FloodAdvances(n - 1, timeout);
      FloodWorldAdvances(n - 1, timeout);
    }
  }

  lemma {:induction false} FloodBegins(timeout: int)
    ensures FloodWorld(0, timeout) == World(Start(timeout), []) && FloodState(0, timeout) == Start(timeout)
  {
  }

  lemma {:induction false} FloodIsFresh(n: nat, timeout: int)
    requires n < TID_PERIOD
    ensures FreshId(FloodState(n, timeout), FloodEvent(n))
  {
    hide Step, FloodEvent, RequestIn;
    if n > 0 {
      FloodKeepsFirst(n, timeout);
      hide TidCounterAt, NextTid;
      NthTid(n);
    }
  }

  lemma {:induction false} FloodWorldAdvances(n: nat, timeout: int)
    ensures Enabled(FloodWorld(n, timeout).proxy, FloodEvent(n))
    ensures FloodWorld(n + 1, timeout) == Advance(FloodWorld(n, timeout), FloodEvent(n))
  {
    hide Advance;
  }

  lemma {:induction false} StartIsSafe(timeout: int)
    ensures Safe(World(Start(timeout), []))
  {
  }

  lemma {:induction false} FloodIsSafe(n: nat, timeout: int)
    requires n <= TID_PERIOD
    ensures Safe(FloodWorld(n, timeout))
  {
    hide Safe, Advance, FreshId, FloodEvent, FloodState, Enabled;
    if n == 0 {
      StartIsSafe(timeout);
    } else {
      FloodIsSafe(n - 1, timeout);
      FloodWorldIs(n - 1, timeout);
      FloodIsFresh(n - 1, timeout);
      FloodWorldAdvances(n - 1, timeout);
      hide FloodWorld;
      StepSafe(FloodWorld(n - 1, timeout), FloodEvent(n - 1));
    }
  }

  /** The event that is given the id of the first request, from another client. */
  const INTRUDER: Event := GsupIn(BARE_PURGE, 2, 0)

  function WrapEvents(): seq<Event> { FloodEvents(TID_PERIOD) + [INTRUDER] }

  ghost function WrapWorlds(timeout: int): seq<World> {
    seq(TID_PERIOD + 1, i requires 0 <= i < TID_PERIOD + 1 => FloodWorld(i, timeout))
    + [Advance(FloodWorld(TID_PERIOD, timeout), INTRUDER)]
  }

  lemma {:induction false} WrapIsRun(timeout: int)
    ensures IsLedgerRun(WrapWorlds(timeout), WrapEvents(), timeout)
  {
    hide Advance, FloodEvent, Start;
    var ws, es := WrapWorlds(timeout), WrapEvents();
    assert ws[0] == FloodWorld(0, timeout) == World(Start(timeout), []);
    hide FloodWorld;
    forall i | 0 <= i < |es| ensures Enabled(ws[i].proxy, es[i]) && ws[i + 1] == Advance(ws[i], es[i]) {
      if i < TID_PERIOD {
        FloodWorldAdvances(i, timeout);
        assert es[i] == FloodEvent(i);
      } else {
        assert es[i] == INTRUDER;
      }
    }
  }

  /** The record that keeps the id is the first client's. */
  lemma {:induction false} FirstKeepsRecord(s: ProxyState, n: nat)
    requires OnlyFirst(s, n) && 1 <= n < TID_PERIOD
    ensures 1 in Step(s, FloodEvent(n)).Transactions()
    ensures Step(s, FloodEvent(n)).Transactions()[1] == s.Transactions()[1]
  {
    hide Gsup.Decoded, Map.Encoded, TidCounterAt, NextTid, TidCounterAfter, TablesAgree;
    BareDecodes(DELETE_DATA_REQUEST);
    var g := BLANK_GSUP.(mtype := DELETE_DATA_REQUEST);
    assert Step(s, FloodEvent(n)) == OnRequest(s, g, 1, 0);
    NthTid(n);
  }

  lemma {:induction false} FirstRecord(timeout: int)
    ensures 1 in FloodState(1, timeout).Transactions() && FloodState(1, timeout).Transactions()[1].clientContext == 1
  {
    var s := Start(timeout);
    BareDecodes(PURGE_MS_REQUEST);
    ReissuedIdExact(s, BARE_PURGE, 1, 0);
    FloodStarts(timeout);
    hide Gsup.Decoded, Map.Encoded;
    assert FloodState(0, timeout) == s && FloodState(1, timeout) == OnRequest(s, BLANK_GSUP.(mtype := PURGE_MS_REQUEST), 1, 0);
  }

  lemma {:induction false} FloodRecord(n: nat, timeout: int)
    requires 1 <= n <= TID_PERIOD
    ensures 1 in FloodState(n, timeout).Transactions() && FloodState(n, timeout).Transactions()[1].clientContext == 1
  {
    hide OnlyFirst, Step, FloodEvent, FloodState;
    if n == 1 {
      FirstRecord(timeout);
    } else {
      FloodRecord(n - 1, timeout);
      FloodKeepsFirst(n - 1, timeout);
      FloodAdvances(n - 1, timeout);
      FirstKeepsRecord(FloodState(n - 1, timeout), n - 1);
    }
  }

  lemma {:induction false} IntruderShares(w: World)
    requires Safe(w) && OnlyFirst(w.proxy, TID_PERIOD) && w.proxy.Transactions()[1].clientContext == 1
    ensures var w' := Advance(w, INTRUDER);
            && TablesAgree(w'.proxy) && !FreshId(w.proxy, INTRUDER)
            && (exists i: nat :: Shared(w', i, |w.requests|)) && |w'.requests| == |w.requests| + 1
            && w'.requests[|w.requests|].client == 2
            && 1 in w'.proxy.Transactions() && w'.proxy.Transactions()[1].clientContext == 1
            && w'.requests[|w.requests|].tid == 1
  {
    hide Gsup.Decoded, Map.Encoded, TidCounterAt, Safe, NextTid;
    BareDecodes(PURGE_MS_REQUEST);
    NthTid(TID_PERIOD);
    var g := BLANK_GSUP.(mtype := PURGE_MS_REQUEST);
    assert RequestIn(INTRUDER) == Some(g);
    ReissueShares(w, INTRUDER);
    ReissuedIdExact(w.proxy, BARE_PURGE, 2, 0);
    Discards.NewRequestExactly(w, INTRUDER);
    assert Step(w.proxy, INTRUDER) == OnRequest(w.proxy, g, 2, 0);
    StepAgreesExactly(w.proxy, INTRUDER);
    hide Step, OnRequest, TablesAgree;
  }

  /** A run on which conservation and addressing fail although the tables agree: the last request is
      pending under the record of another client, to whom its answer would go. */
  lemma {:induction false} SafetyCanBeLost(timeout: int)
    ensures exists ws: seq<World>, es: seq<Event> ::
              && IsLedgerRun(ws, es, timeout) && |ws| > 1
              && TablesAgree(ws[|ws| - 1].proxy) && !Safe(ws[|ws| - 1]) && Misaddressed(ws[|ws| - 1])
  {
    hide Safe, OnlyFirst, FloodState, FloodEvent, FreshId;
    var w := FloodWorld(TID_PERIOD, timeout);
    FloodWorldIs(TID_PERIOD, timeout);
    FloodKeepsFirst(TID_PERIOD, timeout);
    FloodIsSafe(TID_PERIOD, timeout);
    FloodRecord(TID_PERIOD, timeout);
    hide FloodWorld;
    IntruderShares(w);
    StepSafeExactly(w, INTRUDER);
    WrapIsRun(timeout);
    hide IsLedgerRun, Advance, TablesAgree;
    var ws := WrapWorlds(timeout);
    assert ws[|ws| - 1] == Advance(w, INTRUDER);
    assert Misaddressed(ws[|ws| - 1]);
  }

  /** The latest request is pending, but the record under its id is another client's. */
  ghost predicate Misaddressed(w: World) {
    w.requests != [] &&
    var r := w.requests[|w.requests| - 1];
    r.fate.Pending? && r.tid in w.proxy.Transactions() && w.proxy.Transactions()[r.tid].clientContext != r.client
  }
}

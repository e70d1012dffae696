/** Safety of the proxy over whole runs: no request is lost, answered twice or answered elsewhere. */
module ProxySafety {
  import opened Basics
  import opened Bcd
  import opened GsupMessages
  import opened MapMessages
  import opened Converter
  import opened Transactions
  import opened ProxyModel
  import opened BulkReplies
  import Gsup = GsupCodec
  import Map = MapCodec
  import GsupRoundTrip

  // ------------------------------------------------------------------- runs

  /** One callback of the event loop. The orders are those in which a hash table is walked. */
  datatype Event =
    | GsupIn(payload: Bytes, client: ClientId, now: int)
    | MapIn(payload: Bytes, now: int)
    | ExpireSgsn(now: int, order: seq<U32>)
    | ExpireHlr(now: int, timeout: int)
    | HlrDisconnect(order: seq<U32>)

  ghost predicate Enabled(s: ProxyState, e: Event) {
    match e
    case ExpireSgsn(_, order) => Enumerates(order, s.Transactions().Keys)
    case HlrDisconnect(order) => Enumerates(order, s.pendingOps.Keys)
    case _ => true
  }

  ghost function Step(s: ProxyState, e: Event): ProxyState
    requires Enabled(s, e)
  {
    match e
    case GsupIn(payload, client, now) => OnGsup(s, payload, client, now)
    case MapIn(payload, now) => OnMap(s, payload, now)
    case ExpireSgsn(now, order) => OnExpireSgsn(s, now, order)
    case ExpireHlr(now, timeout) => OnExpireHlr(s, now, timeout)
    case HlrDisconnect(order) => OnHlrDisconnect(s, order)
  }

  /** The request an event brings in, if it is one that is given a transaction id. */
  function RequestIn(e: Event): Option<GsupMessage> {
    if !e.GsupIn? then None
    else
      var g := Gsup.Decoded(e.payload);
      if g.Success? && !IsHlrInitiated(g.value.mtype) then Some(g.value) else None
  }

  /** No id is reissued while the transaction that last had it is still live. */
  predicate FreshId(s: ProxyState, e: Event) {
    RequestIn(e).Some? ==> NextTid(s.tm.tidCounter) !in s.Transactions()
  }

  // ----------------------------------------------------------------- ledger

  /** Where a request stands: pending, answered by the reply at an index of the log, or discarded. */
  datatype Fate = Pending | Answered(reply: nat) | Discarded

  /** A request that was given an id, in the order in which the ids were given. */
  datatype Request = Request(tid: U32, client: ClientId, imsi: string, kind: MessageType, since: int, fate: Fate)

  datatype World = World(proxy: ProxyState, requests: seq<Request>)

  /** The last send from index `from` on that answers `tid`. */
  function ReplyFor(out: seq<SgsnSend>, from: nat, tid: U32): Option<nat> {
    if |out| <= from then None
    else if out[|out| - 1].answers == Some(tid) then Some(|out| - 1)
    else ReplyFor(out[..|out| - 1], from, tid)
  }

  /** A pending request whose transaction is gone was answered if the step replied to it. */
  function Settled(r: Request, s: ProxyState, s': ProxyState): Request {
    if !r.fate.Pending? || r.tid in s'.Transactions() then r
    else
      var k := ReplyFor(s'.sgsnOut, |s.sgsnOut|, r.tid);
      r.(fate := if k.Some? then Answered(k.value) else Discarded)
  }

  function NewRequest(s: ProxyState, e: Event, s': ProxyState): seq<Request> {
    var g := RequestIn(e);
    if g.None? then []
    else
      var tid := NextTid(s.tm.tidCounter);
      [Request(tid, e.client, g.value.imsi, g.value.mtype, e.now, if tid in s'.Transactions() then Pending else Discarded)]
  }

  function Bookkept(rs: seq<Request>, s: ProxyState, s': ProxyState): seq<Request> {
    seq(|rs|, i requires 0 <= i < |rs| => Settled(rs[i], s, s'))
  }

  ghost function Advance(w: World, e: Event): World
    requires Enabled(w.proxy, e)
  {
    var s' := Step(w.proxy, e);
    World(s', Bookkept(w.requests, w.proxy, s') + NewRequest(w.proxy, e, s'))
  }

  /** The operation a request of this type is forwarded as. */
  function OperationOf(kind: MessageType): Result<MapOperation> {
    var m :- GsupToMap(BLANK_GSUP.(mtype := kind), 0, 0);
    Success(m.operation)
  }

  // -------------------------------------------------------------- invariant

  /** The two tables agree, and every record is filed under its own id. */
  ghost predicate TablesAgree(s: ProxyState) {
    s.Transactions().Keys == s.pendingOps.Keys && SelfKeyed(s.Transactions())
  }

  /** A pending request is on record, with its own client, time, decimal IMSI and operation. */
  predicate OnRecord(r: Request, s: ProxyState) {
    && r.tid in s.Transactions() && r.tid in s.pendingOps
    && s.Transactions()[r.tid].clientContext == r.client && s.Transactions()[r.tid].createdAt == r.since
    && s.Transactions()[r.tid].imsi == r.imsi && AllDigits(r.imsi)
    && OperationOf(r.kind) == Success(s.pendingOps[r.tid])
  }

  ghost predicate PendingOnRecord(w: World) {
    && (forall i :: 0 <= i < |w.requests| && w.requests[i].fate.Pending? ==> OnRecord(w.requests[i], w.proxy))
    && (forall i, j :: 0 <= i < j < |w.requests| && w.requests[i].fate.Pending? && w.requests[j].fate.Pending?
          ==> w.requests[i].tid != w.requests[j].tid)
  }

  ghost predicate PendingAt(rs: seq<Request>, i: int, t: U32) {
    0 <= i < |rs| && rs[i].fate.Pending? && rs[i].tid == t
  }

  ghost predicate RecordsPending(w: World) {
    forall t :: t in w.proxy.Transactions() ==> exists i :: PendingAt(w.requests, i, t)
  }

  /** An answered request has a reply of its own, sent to the client that made the request. */
  ghost predicate AnswersDelivered(w: World) {
    && (forall i :: 0 <= i < |w.requests| && w.requests[i].fate.Answered? ==>
          var k := w.requests[i].fate.reply;
          k < |w.proxy.sgsnOut| && w.proxy.sgsnOut[k].to == w.requests[i].client
          && w.proxy.sgsnOut[k].answers == Some(w.requests[i].tid))
    && (forall i, j :: 0 <= i < j < |w.requests| && w.requests[i].fate.Answered? && w.requests[j].fate.Answered?
          ==> w.requests[i].fate.reply != w.requests[j].fate.reply)
  }

  ghost predicate AnsweredAt(rs: seq<Request>, i: int, k: nat) {
    0 <= i < |rs| && rs[i].fate == Answered(k)
  }

  /** Every reply to a transaction is the answer to some request: none is made up or sent twice. */
  ghost predicate RepliesAccounted(w: World) {
    forall k :: 0 <= k < |w.proxy.sgsnOut| && w.proxy.sgsnOut[k].answers.Some? ==> exists i :: AnsweredAt(w.requests, i, k)
  }

  ghost predicate Safe(w: World) {
    TablesAgree(w.proxy) && PendingOnRecord(w) && RecordsPending(w) && AnswersDelivered(w) && RepliesAccounted(w)
  }

  // ------------------------------------------------------- what a step may do

  ghost predicate NewReply(s: ProxyState, s': ProxyState, k: int) {
    |s.sgsnOut| <= k < |s'.sgsnOut| && s'.sgsnOut[k].answers.Some?
  }

  /** Each new reply is for a transaction that the step removes, and goes to its client; one each. */
  ghost predicate RepliesLawful(s: ProxyState, s': ProxyState) {
    && s.sgsnOut <= s'.sgsnOut
    && (forall k :: NewReply(s, s', k) ==>
          var t := s'.sgsnOut[k].answers.value;
          t in s.Transactions() && t !in s'.Transactions() && s'.sgsnOut[k].to == s.Transactions()[t].clientContext)
    && (forall k, l :: NewReply(s, s', k) && NewReply(s, s', l) && k < l ==> s'.sgsnOut[k].answers != s'.sgsnOut[l].answers)
  }

  /** Surviving transactions keep their record and operation; at most `added` is new. */
  ghost predicate TablesLawful(s: ProxyState, s': ProxyState, added: set<U32>) {
    && TablesAgree(s) && TablesAgree(s')
    && (forall t :: t in s'.Transactions() && t !in added ==>
          t in s.Transactions() && s'.Transactions()[t] == s.Transactions()[t] && s'.pendingOps[t] == s.pendingOps[t])
    && added !! s.Transactions().Keys
  }

  lemma {:induction false} ReplyForFinds(out: seq<SgsnSend>, from: nat, tid: U32)
    ensures var k := ReplyFor(out, from, tid);
            && (k.Some? ==> from <= k.value < |out| && out[k.value].answers == Some(tid))
            && (k.None? ==> forall i :: from <= i < |out| ==> out[i].answers != Some(tid))
  {
    if from < |out| && out[|out| - 1].answers != Some(tid) {
      ReplyForFinds(out[..|out| - 1], from, tid);
      assert forall i :: from <= i < |out| - 1 ==> out[..|out| - 1][i] == out[i];
    }
  }

  // ---------------------------------------------------- the ledger over a step

  /** What the event adds to the ledger, and to the tables. */
  ghost predicate Added(new_: seq<Request>, added: set<U32>, s': ProxyState) {
    || (new_ == [] && added == {})
    || (|new_| == 1 && new_[0].fate == Discarded && added == {})
    || (|new_| == 1 && new_[0].fate == Pending && added == {new_[0].tid} && OnRecord(new_[0], s'))
  }

  ghost predicate LedgerStep(w: World, s': ProxyState, new_: seq<Request>, added: set<U32>, w': World) {
    && Safe(w) && RepliesLawful(w.proxy, s') && TablesLawful(w.proxy, s', added) && Added(new_, added, s')
    && w' == World(s', Bookkept(w.requests, w.proxy, s') + new_)
  }

  /** A request as the step leaves it. */
  lemma {:induction false} SettledCases(w: World, s': ProxyState, new_: seq<Request>, added: set<U32>, w': World,
      i: nat)
    requires LedgerStep(w, s', new_, added, w') && i < |w.requests|
    ensures i < |w'.requests| && w'.requests[i] == w.requests[i].(fate := w'.requests[i].fate)
    ensures w'.requests[i].fate.Pending? ==> w.requests[i].fate.Pending? && w.requests[i].tid in s'.Transactions()
    ensures w.requests[i].fate.Answered? ==> w'.requests[i] == w.requests[i]
    ensures w'.requests[i].fate.Answered? && w'.requests[i] != w.requests[i] ==>
              var k := w'.requests[i].fate.reply;
              && w.requests[i].fate.Pending? && w.requests[i].tid !in s'.Transactions()
              && NewReply(w.proxy, s', k) && s'.sgsnOut[k].answers == Some(w.requests[i].tid)
    ensures w.requests[i].fate.Pending? && w.requests[i].tid !in s'.Transactions() ==>
              forall k :: NewReply(w.proxy, s', k) && s'.sgsnOut[k].answers == Some(w.requests[i].tid)
                          ==> w'.requests[i].fate.Answered?
  {
    ReplyForFinds(s'.sgsnOut, |w.proxy.sgsnOut|, w.requests[i].tid);
    assert w'.requests[i] == Settled(w.requests[i], w.proxy, s');
    hide ReplyFor;
  }

  lemma {:induction false} StillOnRecord(w: World, s': ProxyState, new_: seq<Request>, added: set<U32>, w': World,
      i: nat)
    requires LedgerStep(w, s', new_, added, w') && i < |w'.requests| && w'.requests[i].fate.Pending?
    ensures OnRecord(w'.requests[i], s')
    ensures i < |w.requests| ==> w.requests[i].fate.Pending? && w'.requests[i].tid == w.requests[i].tid
                                 && w.requests[i].tid !in added
    ensures i >= |w.requests| ==> i == |w.requests| && w'.requests[i].tid in added
  {
    hide OperationOf, ReplyFor;
    if i < |w.requests| {
      SettledCases(w, s', new_, added, w', i);
      assert OnRecord(w.requests[i], w.proxy);
    }
  }

  lemma {:induction false} StepPendingOnRecord(w: World, s': ProxyState, new_: seq<Request>, added: set<U32>, w': World)
    requires LedgerStep(w, s', new_, added, w')
    ensures PendingOnRecord(w')
  {
    hide OnRecord, TablesAgree, RecordsPending, AnswersDelivered, RepliesAccounted, RepliesLawful, TablesLawful,
         Bookkept;
    forall i | 0 <= i < |w'.requests| && w'.requests[i].fate.Pending?
      ensures OnRecord(w'.requests[i], s')
    {
      StillOnRecord(w, s', new_, added, w', i);
    }
    forall i, j | 0 <= i < j < |w'.requests| && w'.requests[i].fate.Pending? && w'.requests[j].fate.Pending?
      ensures w'.requests[i].tid != w'.requests[j].tid
    {
      StillOnRecord(w, s', new_, added, w', i);
      StillOnRecord(w, s', new_, added, w', j);
    }
  }

  lemma {:induction false} StepRecordsPending(w: World, s': ProxyState, new_: seq<Request>, added: set<U32>, w': World)
    requires LedgerStep(w, s', new_, added, w')
    ensures RecordsPending(w')
  {
    hide OperationOf, ReplyFor;
    forall t | t in s'.Transactions()
      ensures exists i :: PendingAt(w'.requests, i, t)
    {
      if t in added {
        assert PendingAt(w'.requests, |w.requests|, t);
      } else {
        var i :| PendingAt(w.requests, i, t);
        SettledCases(w, s', new_, added, w', i);
        assert w'.requests[i] == Settled(w.requests[i], w.proxy, s');
        assert PendingAt(w'.requests, i, t);
      }
    }
  }

  lemma {:induction false} StepAnswersDelivered(w: World, s': ProxyState, new_: seq<Request>, added: set<U32>,
      w': World)
    requires LedgerStep(w, s', new_, added, w')
    ensures AnswersDelivered(w')
  {
    forall i | 0 <= i < |w'.requests| && w'.requests[i].fate.Answered?
      ensures i < |w.requests|
      ensures var k := w'.requests[i].fate.reply;
              k < |s'.sgsnOut| && s'.sgsnOut[k].to == w'.requests[i].client
              && s'.sgsnOut[k].answers == Some(w'.requests[i].tid)
      ensures || (w'.requests[i] == w.requests[i] && w'.requests[i].fate.reply < |w.proxy.sgsnOut|)
              || (&& w.requests[i].fate.Pending? && w'.requests[i].tid == w.requests[i].tid
                  && w'.requests[i].fate.reply >= |w.proxy.sgsnOut|)
    {
      SettledCases(w, s', new_, added, w', i);
      if w'.requests[i] != w.requests[i] { assert OnRecord(w.requests[i], w.proxy); }
    }
  }

  lemma {:induction false} StepRepliesAccounted(w: World, s': ProxyState, new_: seq<Request>, added: set<U32>,
      w': World)
    requires LedgerStep(w, s', new_, added, w')
    ensures RepliesAccounted(w')
  {
    forall k | 0 <= k < |s'.sgsnOut| && s'.sgsnOut[k].answers.Some?
      ensures exists i :: AnsweredAt(w'.requests, i, k)
    {
      if k < |w.proxy.sgsnOut| {
        assert s'.sgsnOut[k] == w.proxy.sgsnOut[k];
        var i :| AnsweredAt(w.requests, i, k);
        SettledCases(w, s', new_, added, w', i);
        assert AnsweredAt(w'.requests, i, k);
      } else {
        assert NewReply(w.proxy, s', k);
        var t := s'.sgsnOut[k].answers.value;
        var i :| PendingAt(w.requests, i, t);
        SettledCases(w, s', new_, added, w', i);
        var l := w'.requests[i].fate.reply;
        assert NewReply(w.proxy, s', l) && s'.sgsnOut[l].answers == s'.sgsnOut[k].answers;
        assert l == k;
        assert AnsweredAt(w'.requests, i, k);
      }
    }
  }

  lemma {:induction false} LedgerStepSafe(w: World, s': ProxyState, new_: seq<Request>, added: set<U32>, w': World)
    requires LedgerStep(w, s', new_, added, w')
    ensures Safe(w')
  {
    StepPendingOnRecord(w, s', new_, added, w');
    StepRecordsPending(w, s', new_, added, w');
    StepAnswersDelivered(w, s', new_, added, w');
    StepRepliesAccounted(w, s', new_, added, w');
    hide PendingOnRecord, RecordsPending, AnswersDelivered, RepliesAccounted;
  }

  // --------------------------------------------------------- every handler is lawful

  lemma {:induction false} NothingChanged(s: ProxyState)
    requires TablesAgree(s)
    ensures RepliesLawful(s, s) && TablesLawful(s, s, {})
  {
  }

  lemma {:induction false} RequestLawful(s: ProxyState, g: GsupMessage, client: ClientId, now: int)
    requires TablesAgree(s) && NextTid(s.tm.tidCounter) !in s.Transactions() && AllDigits(g.imsi)
    ensures var s', tid := OnRequest(s, g, client, now), NextTid(s.tm.tidCounter);
            && RepliesLawful(s, s')
            && TablesLawful(s, s', if tid in s'.Transactions() then {tid} else {})
            && (tid in s'.Transactions() ==>
                  OnRecord(Request(tid, client, g.imsi, g.mtype, now, Pending), s'))
  {
    hide Map.Encoded;
    OperationDependsOnTypeOnly(g, NextTid(s.tm.tidCounter), NextInvokeId(s.tm.invokeIdCounter));
    hide GsupToMap, OperationOf;
  }

  lemma {:induction false} OperationDependsOnTypeOnly(g: GsupMessage, tid: U32, invokeId: Byte)
    ensures OperationOf(g.mtype).Success? <==> GsupToMap(g, tid, invokeId).Success?
    ensures GsupToMap(g, tid, invokeId).Success? ==>
              OperationOf(g.mtype) == Success(GsupToMap(g, tid, invokeId).value.operation)
  {
  }

  lemma {:induction false} AnswerLawful(s: ProxyState, m: MapMessage)
    requires TablesAgree(s)
    ensures RepliesLawful(s, OnAnswer(s, m)) && TablesLawful(s, OnAnswer(s, m), {})
  {
    hide Gsup.Encoded, MapToGsup;
  }

  /** The HLR-initiated direction leaves the pending tables alone and replies to no transaction. */
  lemma {:induction false} HlrSideLawful(s: ProxyState, s': ProxyState)
    requires TablesAgree(s) && s'.tm == s.tm && s'.pendingOps == s.pendingOps
    requires s.sgsnOut <= s'.sgsnOut
    requires forall k :: |s.sgsnOut| <= k < |s'.sgsnOut| ==> s'.sgsnOut[k].answers.None?
    ensures RepliesLawful(s, s') && TablesLawful(s, s', {})
  {
  }

  lemma {:induction false} HlrInvokeLawful(s: ProxyState, m: MapMessage, now: int)
    requires TablesAgree(s)
    ensures RepliesLawful(s, OnHlrInvoke(s, m, now)) && TablesLawful(s, OnHlrInvoke(s, m, now), {})
  {
    hide Gsup.Encoded, MapInvokeToGsup;
    HlrSideLawful(s, OnHlrInvoke(s, m, now));
  }

  lemma {:induction false} HlrResponseLawful(s: ProxyState, g: GsupMessage)
    requires TablesAgree(s)
    ensures RepliesLawful(s, OnHlrResponse(s, g)) && TablesLawful(s, OnHlrResponse(s, g), {})
  {
    hide Map.Encoded, GsupToMapResult;
    HlrSideLawful(s, OnHlrResponse(s, g));
  }

  /** Replies that match removed records are lawful. */
  lemma {:induction false} BulkLawful(s: ProxyState, s': ProxyState, txs: seq<PendingTransaction>,
      replies: seq<SgsnSend>)
    requires TablesAgree(s) && TablesAgree(s')
    requires s'.sgsnOut == s.sgsnOut + replies && RepliesMatch(replies, txs)
    requires forall j :: 0 <= j < |txs| ==>
               && txs[j].mapTransactionId in s.Transactions() && txs[j] == s.Transactions()[txs[j].mapTransactionId]
               && txs[j].mapTransactionId !in s'.Transactions()
    ensures RepliesLawful(s, s')
  {
    var n := |s.sgsnOut|;
    forall k | NewReply(s, s', k)
      ensures var t := s'.sgsnOut[k].answers.value;
              t in s.Transactions() && t !in s'.Transactions() && s'.sgsnOut[k].to == s.Transactions()[t].clientContext
    {
      assert s'.sgsnOut[k] == replies[k - n];
      var j :| 0 <= j < |txs| && replies[k - n].answers == Some(txs[j].mapTransactionId)
               && replies[k - n].to == txs[j].clientContext;
    }
    forall k, l | NewReply(s, s', k) && NewReply(s, s', l) && k < l
      ensures s'.sgsnOut[k].answers != s'.sgsnOut[l].answers
    {
      assert s'.sgsnOut[k] == replies[k - n] && s'.sgsnOut[l] == replies[l - n];
    }
  }

  /** Disconnect in closed form: both tables empty, one reply per pending record. */
  lemma {:induction false} DisconnectIs(s: ProxyState, order: seq<U32>)
    requires TablesAgree(s) && Enumerates(order, s.pendingOps.Keys)
    ensures var s' := OnHlrDisconnect(s, order);
            && s'.Transactions() == map[] && s'.pendingOps == map[]
            && s'.sgsnOut == s.sgsnOut + RepliesTo(s.pendingOps, Records(s.Transactions(), order))
            && s' == s.(tm := s.tm.(transactions := map[]), pendingOps := map[], sgsnOut := s'.sgsnOut)
  {
    NackEachIs(s, order);
    hide NackEach, RepliesTo;
    var none: map<U32, PendingTransaction> := s.Transactions() - Elements(order);
    assert none == map[];
  }

  lemma {:induction false} DisconnectLawful(s: ProxyState, order: seq<U32>)
    requires TablesAgree(s) && Enumerates(order, s.pendingOps.Keys)
    ensures RepliesLawful(s, OnHlrDisconnect(s, order)) && TablesLawful(s, OnHlrDisconnect(s, order), {})
  {
    hide OnHlrDisconnect, RepliesTo;
    DisconnectIs(s, order);
    var txs := Records(s.Transactions(), order);
    RepliesToMatch(s.pendingOps, txs);
    BulkLawful(s, OnHlrDisconnect(s, order), txs, RepliesTo(s.pendingOps, txs));
  }

  /** Expiry in closed form: exactly the stale transactions go, from both tables, one reply each. */
  lemma {:induction false} ExpiryIs(s: ProxyState, now: int, order: seq<U32>)
    requires TablesAgree(s) && Enumerates(order, s.Transactions().Keys)
    ensures var s', x := OnExpireSgsn(s, now, order), StaleAmong(s.Transactions(), order, now, s.tm.timeout);
            && DistinctIds(x)
            && (forall i :: 0 <= i < |x| ==> x[i].mapTransactionId in s.pendingOps)
            && s'.Transactions() == Unexpired(s.Transactions(), now, s.tm.timeout)
            && s'.pendingOps == s.pendingOps - Ids(x)
            && s'.sgsnOut == s.sgsnOut + RepliesTo(s.pendingOps, x)
            && s' == s.(tm := s'.tm, pendingOps := s'.pendingOps, sgsnOut := s'.sgsnOut)
            && s'.tm == s.tm.(transactions := s'.Transactions())
  {
    StaleRecords(s.Transactions(), order, now, s.tm.timeout);
    var x := StaleAmong(s.Transactions(), order, now, s.tm.timeout);
    hide StaleAmong, RepliesTo;
    forall i | 0 <= i < |x| ensures x[i].mapTransactionId in s.pendingOps { }
    var s1 := s.(tm := s.tm.(transactions := Unexpired(s.Transactions(), now, s.tm.timeout)));
    ExpireEachIs(s1, x);
  }

  lemma {:induction false} ExpiryLawful(s: ProxyState, now: int, order: seq<U32>)
    requires TablesAgree(s) && Enumerates(order, s.Transactions().Keys)
    ensures RepliesLawful(s, OnExpireSgsn(s, now, order)) && TablesLawful(s, OnExpireSgsn(s, now, order), {})
  {
    hide OnExpireSgsn, RepliesTo, StaleAmong;
    ExpiryIs(s, now, order);
    StaleRecords(s.Transactions(), order, now, s.tm.timeout);
    var x := StaleAmong(s.Transactions(), order, now, s.tm.timeout);
    RepliesToMatch(s.pendingOps, x);
    var s' := OnExpireSgsn(s, now, order);
    forall i | 0 <= i < |x|
      ensures x[i].mapTransactionId in s.Transactions() && x[i] == s.Transactions()[x[i].mapTransactionId]
              && x[i].mapTransactionId !in s'.Transactions()
    {
    }
    assert s'.Transactions().Keys == s'.pendingOps.Keys;
    BulkLawful(s, s', x, RepliesTo(s.pendingOps, x));
  }

  // ------------------------------------------------------------------- theorems

  lemma {:induction false} StepLawful(s: ProxyState, e: Event)
    requires TablesAgree(s) && Enabled(s, e) && RequestIn(e).None?
    ensures RepliesLawful(s, Step(s, e)) && TablesLawful(s, Step(s, e), {})
  {
    hide Gsup.Decoded, Map.Decoded, RepliesLawful, TablesLawful, TablesAgree;
    hide OnRequest, OnHlrResponse, OnAnswer, OnHlrInvoke, OnExpireSgsn, OnHlrDisconnect;
    NothingChanged(s);
    match e {
      case GsupIn(payload, client, now) =>
        var g := Gsup.Decoded(payload);
        if g.Success? { HlrResponseLawful(s, g.value); }
      case MapIn(payload, now) =>
        var m := Map.Decoded(payload);
        if m.Success? {
          AnswerLawful(s, m.value);
          HlrInvokeLawful(s, m.value, now);
        }
      case ExpireSgsn(now, order) => ExpiryLawful(s, now, order);
      case ExpireHlr(now, timeout) => HlrSideLawful(s, OnExpireHlr(s, now, timeout));
      case HlrDisconnect(order) => DisconnectLawful(s, order);
    }
  }

  lemma {:induction false} RequestsAreDecimal(e: Event)
    requires RequestIn(e).Some?
    ensures AllDigits(RequestIn(e).value.imsi)
  {
    GsupRoundTrip.DecodedIsBounded(e.payload);
    hide Gsup.Decoded;
  }

  /** Every callback keeps the proxy safe, provided the id it may allocate is not live. */
  lemma {:induction false} StepSafe(w: World, e: Event)
    requires Safe(w) && Enabled(w.proxy, e) && FreshId(w.proxy, e)
    ensures Safe(Advance(w, e))
  {
    hide Gsup.Decoded, Map.Decoded, RepliesLawful, TablesLawful, TablesAgree, Bookkept, OnRecord;
    hide PendingOnRecord, RecordsPending, AnswersDelivered, RepliesAccounted, OnRequest;
    var s, s' := w.proxy, Step(w.proxy, e);
    var new_ := NewRequest(s, e, s');
    if RequestIn(e).None? {
      StepLawful(s, e);
      hide Step;
      LedgerStepSafe(w, s', new_, {}, Advance(w, e));
    } else {
      var g := RequestIn(e).value;
      RequestsAreDecimal(e);
      RequestLawful(s, g, e.client, e.now);
      assert s' == OnRequest(s, g, e.client, e.now);
      hide Step;
      var tid := NextTid(s.tm.tidCounter);
      LedgerStepSafe(w, s', new_, if tid in s'.Transactions() then {tid} else {}, Advance(w, e));
    }
  }

  /** A run from the start of the proxy in which no live id is ever reissued. */
  ghost predicate IsRun(ws: seq<World>, es: seq<Event>, timeout: int) {
    && |ws| == |es| + 1 && ws[0] == World(Start(timeout), [])
    && forall i :: 0 <= i < |es| ==>
         Enabled(ws[i].proxy, es[i]) && FreshId(ws[i].proxy, es[i]) && ws[i + 1] == Advance(ws[i], es[i])
  }

  /** In every state of every run: the two tables hold the same transactions; every request that got
      an id is pending, answered or discarded; its answer, if any, is one reply, sent to its own client;
      and every reply is the answer to a request. */
  lemma {:induction false} RunsAreSafe(ws: seq<World>, es: seq<Event>, timeout: int, n: nat)
    requires IsRun(ws, es, timeout) && n < |ws|
    ensures Safe(ws[n])
  {
    if n > 0 {
      RunsAreSafe(ws, es, timeout, n - 1);
      hide Safe, Advance;
      StepSafe(ws[n - 1], es[n - 1]);
    }
  }

  /** Once answered or discarded, a request stays so; its client, IMSI, type and id never change;
      and the log of replies only grows. */
  ghost predicate Later(w: World, w': World) {
    && |w.requests| <= |w'.requests| && w.proxy.sgsnOut <= w'.proxy.sgsnOut
    && forall i :: 0 <= i < |w.requests| ==>
         && w'.requests[i] == w.requests[i].(fate := w'.requests[i].fate)
         && (!w.requests[i].fate.Pending? ==> w'.requests[i] == w.requests[i])
  }

  lemma {:induction false} StepLater(w: World, e: Event)
    requires Safe(w) && Enabled(w.proxy, e) && FreshId(w.proxy, e)
    ensures Later(w, Advance(w, e))
  {
    hide Gsup.Decoded, Map.Decoded, TablesLawful, OnRequest;
    assert w.proxy.sgsnOut <= Step(w.proxy, e).sgsnOut by {
      if RequestIn(e).None? {
        StepLawful(w.proxy, e);
      } else {
        RequestsAreDecimal(e);
        RequestLawful(w.proxy, RequestIn(e).value, e.client, e.now);
      }
    }
    hide Step, NewRequest;
    forall i | 0 <= i < |w.requests|
      ensures Advance(w, e).requests[i] == Settled(w.requests[i], w.proxy, Step(w.proxy, e))
    {
    }
  }

  /** Answers are final: over a run, a settled request is settled for good. */
  lemma {:induction false} RunsAreFinal(ws: seq<World>, es: seq<Event>, timeout: int, m: nat, n: nat)
    requires IsRun(ws, es, timeout) && m <= n < |ws|
    ensures Later(ws[m], ws[n])
  {
    hide Safe, Advance, FreshId, Enabled, Later;
    if m < n {
      RunsAreFinal(ws, es, timeout, m, n - 1);
      RunsAreSafe(ws, es, timeout, n - 1);
      StepLater(ws[n - 1], es[n - 1]);
      LaterChains(ws[m], ws[n - 1], ws[n]);
    } else {
      LaterSelf(ws[m]);
    }
  }

  lemma {:induction false} LaterSelf(w: World)
    ensures Later(w, w)
  {
  }

  lemma {:induction false} LaterChains(a: World, b: World, c: World)
    requires Later(a, b) && Later(b, c)
    ensures Later(a, c)
  {
  }

  // ------------------------------------------------- when ids are indeed fresh

  /** The n-th request got the n-th id, and as many invoke ids were issued. */
  ghost predicate Numbered(w: World) {
    && w.proxy.tm.tidCounter == TidCounterAt(|w.requests|)
    && w.proxy.tm.invokeIdCounter == InvokeIdCounterAt(|w.requests|)
    && forall n :: 0 <= n < |w.requests| ==> w.requests[n].tid == NextTid(TidCounterAt(n))
  }

  lemma {:induction false} StepCounters(s: ProxyState, e: Event)
    requires TablesAgree(s) && Enabled(s, e)
    ensures Step(s, e).tm.tidCounter
         == if RequestIn(e).Some? then TidCounterAfter(s.tm.tidCounter) else s.tm.tidCounter
    ensures Step(s, e).tm.invokeIdCounter
         == if RequestIn(e).Some? then InvokeIdCounterAfter(s.tm.invokeIdCounter) else s.tm.invokeIdCounter
  {
    hide Gsup.Decoded, Map.Decoded, Map.Encoded, Gsup.Encoded, GsupToMap, MapToGsup, MapInvokeToGsup, GsupToMapResult;
    hide NackEach, ExpireEach;
    match e {
      case ExpireSgsn(now, order) => ExpiryIs(s, now, order);
      case HlrDisconnect(order) => DisconnectIs(s, order);
      case _ =>
    }
  }

  lemma {:induction false} StepNumbered(w: World, e: Event)
    requires Safe(w) && Numbered(w) && Enabled(w.proxy, e)
    ensures Numbered(Advance(w, e))
  {
    hide PendingOnRecord, RecordsPending, AnswersDelivered, RepliesAccounted;
    StepCounters(w.proxy, e);
    hide Step, ReplyFor, TidCounterAfter, InvokeIdCounterAfter, NextTid, TablesAgree;
    var w' := Advance(w, e);
    forall n | 0 <= n < |w'.requests|
      ensures w'.requests[n].tid == NextTid(TidCounterAt(n))
    {
      if n < |w.requests| {
        assert w'.requests[n] == Settled(w.requests[n], w.proxy, w'.proxy);
      }
    }
  }

  lemma {:induction false} RunsAreNumbered(ws: seq<World>, es: seq<Event>, timeout: int, n: nat)
    requires IsRun(ws, es, timeout) && n < |ws|
    ensures Numbered(ws[n])
  {
    if n > 0 {
      RunsAreNumbered(ws, es, timeout, n - 1);
      RunsAreSafe(ws, es, timeout, n - 1);
      hide Safe, Advance, Numbered;
      StepNumbered(ws[n - 1], es[n - 1]);
    }
  }

  /** The freshness hypothesis holds by itself as long as no request stays pending while the
      2^32 - 1 requests after it come in. */
  lemma {:induction false} YoungPendingMeansFresh(w: World, e: Event)
    requires Safe(w) && Numbered(w)
    requires forall n :: 0 <= n < |w.requests| && w.requests[n].fate.Pending? ==> |w.requests| < n + TID_PERIOD
    ensures FreshId(w.proxy, e)
  {
    var tid := NextTid(w.proxy.tm.tidCounter);
    if tid in w.proxy.Transactions() {
      var i :| PendingAt(w.requests, i, tid);
      TidsDistinct(i, |w.requests|);
    }
  }
}

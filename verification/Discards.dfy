/** Exactly which requests are discarded without an answer: conservation, step by step. */
module Discards {
  import opened Basics
  import opened Bcd
  import opened GsupMessages
  import opened MapMessages
  import opened Converter
  import opened Transactions
  import opened ProxyModel
  import opened BulkReplies
  import opened ProxySafety
  import Gsup = GsupCodec
  import Map = MapCodec
  import Allocation
  import Pipeline

  /** The answer of the HLR, completed from the tables, cannot be put into GSUP: its operation is not
      one of the five, its IMSI is neither empty nor 1 to 15 digits, or a value is over 255 octets. */
  predicate AnswerFails(s: ProxyState, m: MapMessage)
    requires m.transactionId in s.Transactions()
  {
    !Pipeline.Answerable(InContext(s, m))
  }

  /** The event ends the request, and the reply to it cannot be made: its answer does not convert or
      encode, or its IMSI has more than the 15 digits that the encoder accepts in an error. */
  predicate EndsUnanswered(s: ProxyState, r: Request, e: Event)
    requires r.tid in s.Transactions()
  {
    match e
    case MapIn(payload, _) =>
      var m := Map.Decoded(payload);
      m.Success? && !m.value.component.Invoke? && m.value.transactionId == r.tid && AnswerFails(s, m.value)
    case ExpireSgsn(now, _) => Stale(s.Transactions()[r.tid], now, s.tm.timeout) && |r.imsi| > 15
    case HlrDisconnect(_) => |r.imsi| > 15
    case _ => false
  }

  /** The event ends the request. */
  predicate Ends(s: ProxyState, r: Request, e: Event)
    requires r.tid in s.Transactions()
  {
    match e
    case MapIn(payload, _) =>
      var m := Map.Decoded(payload);
      m.Success? && !m.value.component.Invoke? && m.value.transactionId == r.tid
    case ExpireSgsn(now, _) => Stale(s.Transactions()[r.tid], now, s.tm.timeout)
    case HlrDisconnect(_) => true
    case _ => false
  }

  // -------------------------------------------------------------- new replies

  /** Some reply in the second part of the log answers `tid`. */
  ghost predicate Replied(out: seq<SgsnSend>, from: nat, tid: U32) {
    exists k :: from <= k < |out| && out[k].answers == Some(tid)
  }

  lemma {:induction false} RepliesToExactly(ops: map<U32, MapOperation>, txs: seq<PendingTransaction>, j: nat)
    requires forall i :: 0 <= i < |txs| ==> txs[i].mapTransactionId in ops
    requires DistinctIds(txs) && j < |txs|
    ensures var tid := txs[j].mapTransactionId;
            Replied(RepliesTo(ops, txs), 0, tid) <==> ErrorData(tid, ops[tid], txs[j].imsi).Success?
  {
    hide ErrorData;
    var init, last := txs[..|txs| - 1], txs[|txs| - 1];
    var r0, r := RepliesTo(ops, init), RepliesTo(ops, txs);
    var tid := txs[j].mapTransactionId;
    if j < |init| {
      RepliesToExactly(ops, init, j);
      if Replied(r0, 0, tid) {
        var k :| 0 <= k < |r0| && r0[k].answers == Some(tid);
        assert r[k] == r0[k];
      }
      if Replied(r, 0, tid) {
        var k :| 0 <= k < |r| && r[k].answers == Some(tid);
        assert k < |r0| && r[k] == r0[k];
      }
    } else {
      RepliesToMatch(ops, init);
      if ErrorData(tid, ops[tid], txs[j].imsi).Success? {
        assert r[|r0|].answers == Some(tid);
      } else {
        assert r == r0;
      }
    }
  }

  lemma {:induction false} RepliedAfter(before: seq<SgsnSend>, added: seq<SgsnSend>, tid: U32)
    ensures Replied(before + added, |before|, tid) <==> Replied(added, 0, tid)
  {
    var out := before + added;
    if Replied(out, |before|, tid) {
      var k :| |before| <= k < |out| && out[k].answers == Some(tid);
      assert added[k - |before|] == out[k];
    }
    if Replied(added, 0, tid) {
      var k :| 0 <= k < |added| && added[k].answers == Some(tid);
      assert out[k + |before|] == added[k];
    }
  }

  /** An error can be made for a pending request exactly if its IMSI has at most 15 digits. */
  lemma {:induction false} ErrorDataExact(r: Request, op: MapOperation)
    requires OperationOf(r.kind) == Success(op) && AllDigits(r.imsi)
    ensures ErrorData(r.tid, op, r.imsi).Success? <==> |r.imsi| <= 15
  {
    if |r.imsi| <= 15 { Pipeline.FailureIsReadable(r, op); } else { Pipeline.LongImsi(r.tid, op, r.imsi); }
    hide ErrorData, OperationOf;
  }

  // ------------------------------------------------------ the fate of a request

  /** What becomes of a pending request, read off the tables and the log. */
  lemma {:induction false} FateByLog(w: World, e: Event, i: nat)
    requires Enabled(w.proxy, e) && i < |w.requests| && w.requests[i].fate.Pending?
    ensures i < |Advance(w, e).requests|
    ensures var r, s, s', f := w.requests[i], w.proxy, Step(w.proxy, e), Advance(w, e).requests[i].fate;
            && (f.Pending? <==> r.tid in s'.Transactions())
            && (f.Discarded? <==> r.tid !in s'.Transactions() && !Replied(s'.sgsnOut, |s.sgsnOut|, r.tid))
  {
    var r, s, s' := w.requests[i], w.proxy, Step(w.proxy, e);
    ReplyForFinds(s'.sgsnOut, |s.sgsnOut|, r.tid);
    hide Step, NewRequest, ReplyFor;
    assert Advance(w, e).requests[i] == Settled(r, s, s');
  }

  /** Whether the step takes `tid` off the tables, and whether it replies to it. */
  ghost predicate Outcome(s: ProxyState, s': ProxyState, tid: U32, ended: bool, unanswered: bool) {
    && (tid !in s'.Transactions() <==> ended)
    && (ended ==> (!Replied(s'.sgsnOut, |s.sgsnOut|, tid) <==> unanswered))
  }

  lemma {:induction false} RequestOutcome(s: ProxyState, g: GsupMessage, client: ClientId, now: int, tid: U32)
    requires NextTid(s.tm.tidCounter) !in s.Transactions() && tid in s.Transactions()
    ensures tid in OnRequest(s, g, client, now).Transactions()
  {
    hide Map.Encoded, GsupToMap;
  }

  lemma {:induction false} AnswerOutcome(s: ProxyState, m: MapMessage, tid: U32)
    requires tid in s.Transactions()
    ensures m.transactionId == tid ==> Outcome(s, OnAnswer(s, m), tid, true, AnswerFails(s, m))
    ensures m.transactionId != tid ==> tid in OnAnswer(s, m).Transactions()
  {
    hide MapToGsup, Gsup.Encoded, InContext, Pipeline.Answerable;
    if m.transactionId == tid { Pipeline.AnswerIs(s, m); }
    if m.transactionId == tid && !AnswerFails(s, m) {
      var s' := OnAnswer(s, m);
      assert s'.sgsnOut[|s.sgsnOut|].answers == Some(tid);
    }
  }

  lemma {:induction false} MapOutcome(s: ProxyState, payload: Bytes, now: int, r: Request)
    requires r.tid in s.Transactions()
    ensures Outcome(s, OnMap(s, payload, now), r.tid, Ends(s, r, MapIn(payload, now)), EndsUnanswered(s, r, MapIn(payload, now)))
  {
    hide Map.Decoded, OnAnswer, AnswerFails, Gsup.Encoded, MapInvokeToGsup;
    var m := Map.Decoded(payload);
    if m.Success? { AnswerOutcome(s, m.value, r.tid); }
  }

  lemma {:induction false} BulkOutcome(s: ProxyState, s': ProxyState, txs: seq<PendingTransaction>, j: nat, r: Request)
    requires forall i :: 0 <= i < |txs| ==> txs[i].mapTransactionId in s.pendingOps
    requires DistinctIds(txs) && j < |txs| && txs[j].mapTransactionId == r.tid && txs[j].imsi == r.imsi
    requires OperationOf(r.kind) == Success(s.pendingOps[r.tid]) && AllDigits(r.imsi)
    requires s'.sgsnOut == s.sgsnOut + RepliesTo(s.pendingOps, txs)
    ensures Replied(s'.sgsnOut, |s.sgsnOut|, r.tid) <==> |r.imsi| <= 15
  {
    hide RepliesTo, OperationOf, AllDigits;
    RepliesToExactly(s.pendingOps, txs, j);
    ErrorDataExact(r, s.pendingOps[r.tid]);
    RepliedAfter(s.sgsnOut, RepliesTo(s.pendingOps, txs), r.tid);
  }

  lemma {:induction false} DisconnectOutcome(s: ProxyState, order: seq<U32>, r: Request)
    requires TablesAgree(s) && Enumerates(order, s.pendingOps.Keys) && OnRecord(r, s)
    ensures Outcome(s, OnHlrDisconnect(s, order), r.tid, true, |r.imsi| > 15)
  {
    hide OnHlrDisconnect, RepliesTo, OperationOf, Replied;
    DisconnectIs(s, order);
    assert r.tid in order;
    var j :| 0 <= j < |order| && order[j] == r.tid;
    var txs := Records(s.Transactions(), order);
    assert DistinctIds(txs);
    BulkOutcome(s, OnHlrDisconnect(s, order), txs, j, r);
  }

  lemma {:induction false} ExpiryOutcome(s: ProxyState, now: int, order: seq<U32>, r: Request)
    requires TablesAgree(s) && Enumerates(order, s.Transactions().Keys) && OnRecord(r, s)
    ensures var stale := Stale(s.Transactions()[r.tid], now, s.tm.timeout);
            Outcome(s, OnExpireSgsn(s, now, order), r.tid, stale, stale && |r.imsi| > 15)
  {
    hide OnExpireSgsn, RepliesTo, OperationOf, Replied;
    ExpiryIs(s, now, order);
    StaleRecords(s.Transactions(), order, now, s.tm.timeout);
    var x := StaleAmong(s.Transactions(), order, now, s.tm.timeout);
    hide StaleAmong;
    if Stale(s.Transactions()[r.tid], now, s.tm.timeout) {
      assert r.tid in order && r.tid in Ids(x);
      var j :| 0 <= j < |x| && x[j].mapTransactionId == r.tid;
      BulkOutcome(s, OnExpireSgsn(s, now, order), x, j, r);
    }
  }

  lemma {:induction false} StepOutcome(s: ProxyState, e: Event, r: Request)
    requires TablesAgree(s) && Enabled(s, e) && FreshId(s, e) && OnRecord(r, s)
    ensures Outcome(s, Step(s, e), r.tid, Ends(s, r, e), EndsUnanswered(s, r, e))
  {
    hide Gsup.Decoded, OnMap, OnRequest, OnHlrResponse, OnExpireSgsn, OnHlrDisconnect, Map.Decoded, TablesAgree,
         AnswerFails, Replied;
    match e {
      case GsupIn(payload, client, now) =>
        var g := Gsup.Decoded(payload);
        if g.Success? {
          if IsHlrInitiated(g.value.mtype) { ResponseKeepsTables(s, g.value); } else { RequestOutcome(s, g.value, client, now, r.tid); }
        }
      case MapIn(payload, now) => MapOutcome(s, payload, now, r);
      case ExpireSgsn(now, order) => ExpiryOutcome(s, now, order, r);
      case ExpireHlr(_, _) =>
      case HlrDisconnect(order) => DisconnectOutcome(s, order, r);
    }
  }

  lemma {:induction false} ResponseKeepsTables(s: ProxyState, g: GsupMessage)
    ensures OnHlrResponse(s, g).tm == s.tm
  {
    hide Map.Encoded, GsupToMapResult;
  }

  /** Conservation at each step: a pending request stays pending unless the event ends it, and then
      it is discarded exactly if the reply to it cannot be made, and answered otherwise. */
  lemma {:induction false} PendingBecomesExactly(w: World, e: Event, i: nat)
    requires Safe(w) && Enabled(w.proxy, e) && FreshId(w.proxy, e)
    requires i < |w.requests| && w.requests[i].fate.Pending?
    ensures i < |Advance(w, e).requests| && w.requests[i].tid in w.proxy.Transactions()
    ensures var r, f := w.requests[i], Advance(w, e).requests[i].fate;
            && (f.Pending? <==> !Ends(w.proxy, r, e))
            && (f.Discarded? <==> EndsUnanswered(w.proxy, r, e))
  {
    hide RecordsPending, AnswersDelivered, RepliesAccounted, Step, FreshId, Replied, OperationOf, AnswerFails,
         TablesAgree;
    FateByLog(w, e, i);
    hide Advance, Enabled;
    assert OnRecord(w.requests[i], w.proxy);
    StepOutcome(w.proxy, e, w.requests[i]);
    UnansweredEnds(w.proxy, w.requests[i], e);
  }

  lemma {:induction false} UnansweredEnds(s: ProxyState, r: Request, e: Event)
    requires r.tid in s.Transactions()
    ensures EndsUnanswered(s, r, e) ==> Ends(s, r, e)
  {
    hide AnswerFails, Map.Decoded;
  }

  /** A request is accepted exactly if its type is one that is forwarded: then it is pending, and
      otherwise it is discarded at once, with no message to anybody. */
  lemma {:induction false} NewRequestExactly(w: World, e: Event)
    requires Enabled(w.proxy, e) && RequestIn(e).Some?
    ensures var w' := Advance(w, e);
            var ok := ExpectedResult(RequestIn(e).value.mtype).Success?;
            && |w'.requests| == |w.requests| + 1
            && w'.requests[|w.requests|].kind == RequestIn(e).value.mtype
            && w'.requests[|w.requests|].fate == (if ok then Pending else Discarded)
            && w'.proxy.sgsnOut == w.proxy.sgsnOut
            && |w'.proxy.hlrOut| == |w.proxy.hlrOut| + if ok then 1 else 0
  {
    var g, s := RequestIn(e).value, w.proxy;
    assert Step(s, e) == OnRequest(s, g, e.client, e.now);
    Allocation.ReissuedIdExact(s, e.payload, e.client, e.now);
    hide Step, OnRequest, ExpectedResult, ReplyFor;
  }
}

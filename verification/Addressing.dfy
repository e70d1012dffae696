/** Every reply has an address: none goes to all connections. */
module Addressing {
  import opened Basics
  import opened GsupMessages
  import opened MapMessages
  import opened Converter
  import opened Transactions
  import opened ProxyModel
  import opened ProxySafety
  import Gsup = GsupCodec
  import Map = MapCodec

  /** No reply is, or will be, addressed to everybody. */
  ghost predicate Addressed(s: ProxyState) {
    && (forall t :: t in s.Transactions() ==> s.Transactions()[t].clientContext != 0)
    && (forall k :: 0 <= k < |s.sgsnOut| && s.sgsnOut[k].answers.Some? ==> s.sgsnOut[k].to != 0)
  }

  lemma {:induction false} RequestAddressed(s: ProxyState, g: GsupMessage, client: ClientId, now: int)
    requires Addressed(s) && client != 0
    ensures Addressed(OnRequest(s, g, client, now))
  {
    hide Map.Encoded, GsupToMap;
    var s1, tid := s.(tm := Allocated(s.tm, g.imsi, client, now)), NextTid(s.tm.tidCounter);
    forall t | t in s1.Transactions() ensures s1.Transactions()[t].clientContext != 0 {
      if t !in s.Transactions() { assert t == tid; } else { assert s1.Transactions()[t] == s.Transactions()[t]; }
    }
    hide Allocated;
  }

  lemma {:induction false} AnswerAddressed(s: ProxyState, m: MapMessage)
    requires Addressed(s)
    ensures Addressed(OnAnswer(s, m))
  {
    hide Gsup.Encoded, MapToGsup, InContext;
  }

  lemma {:induction false} HlrSideAddressed(s: ProxyState, s': ProxyState)
    requires Addressed(s) && s'.tm == s.tm && s.sgsnOut <= s'.sgsnOut
    requires forall k :: |s.sgsnOut| <= k < |s'.sgsnOut| ==> s'.sgsnOut[k].answers.None?
    ensures Addressed(s')
  {
  }

  lemma {:induction false} MapAddressed(s: ProxyState, payload: Bytes, now: int)
    requires Addressed(s)
    ensures Addressed(OnMap(s, payload, now))
  {
    hide Map.Decoded, OnAnswer, MapInvokeToGsup, Gsup.Encoded, Addressed;
    var m := Map.Decoded(payload);
    if m.Success? {
      AnswerAddressed(s, m.value);
      HlrSideAddressed(s, OnHlrInvoke(s, m.value, now));
    }
  }

  lemma {:induction false} NackEachAddressed(s: ProxyState, order: seq<U32>)
    requires Addressed(s) && forall t :: t in order ==> t in s.pendingOps
    ensures Addressed(NackEach(s, order))
  {
    hide ErrorData;
    if order != [] { NackEachAddressed(s, order[..|order| - 1]); }
  }

  lemma {:induction false} ExpireEachAddressed(s: ProxyState, txs: seq<PendingTransaction>)
    requires Addressed(s) && forall x :: x in txs ==> x.clientContext != 0
    ensures Addressed(ExpireEach(s, txs))
  {
    hide ErrorData;
    if txs != [] {
      assert txs[|txs| - 1] in txs;
      ExpireEachAddressed(s, txs[..|txs| - 1]);
    }
  }

  lemma {:induction false} StepAddressed(s: ProxyState, e: Event)
    requires Addressed(s) && Enabled(s, e) && (e.GsupIn? ==> e.client != 0)
    ensures Addressed(Step(s, e))
  {
    hide Gsup.Decoded, Map.Encoded, GsupToMapResult, OnMap, OnRequest, NackEach, ExpireEach,
         IsHlrInitiated, StaleAmong;
    match e {
      case GsupIn(payload, client, now) =>
        var g := Gsup.Decoded(payload);
        if g.Success? {
          RequestAddressed(s, g.value, client, now);
          HlrSideAddressed(s, OnHlrResponse(s, g.value));
        }
      case MapIn(payload, now) => MapAddressed(s, payload, now);
      case ExpireSgsn(now, order) =>
        var s1 := s.(tm := s.tm.(transactions := Unexpired(s.Transactions(), now, s.tm.timeout)));
        StaleAmongMembers(s.Transactions(), order, now, s.tm.timeout);
        assert Addressed(s1);
        ExpireEachAddressed(s1, StaleAmong(s.Transactions(), order, now, s.tm.timeout));
      case ExpireHlr(now, timeout) => HlrSideAddressed(s, Step(s, e));
      case HlrDisconnect(order) => NackEachAddressed(s, order);
    }
  }
}

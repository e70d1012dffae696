/** The HLR-initiated direction over whole runs: every answer given to the HLR is the answer to the
    latest Invoke for its subscriber, and each Invoke is answered at most once. */
module HlrCorrelation {
  import opened Basics
  import opened GsupMessages
  import opened MapMessages
  import opened Converter
  import opened ProxyModel
  import opened ProxySafety
  import Gsup = GsupCodec
  import Map = MapCodec
  import MapRoundTrip
  import MapSizes
  import GsupRoundTrip
  import Transactions

  // ----------------------------------------------------------------- ledger

  /** Where an Invoke stands. `Replied` names the send that answers it and the number of Invokes that
      had been handled by then; `Unsent` means that its GSUP form could not be encoded. */
  datatype InvokeFate = Waiting | Unsent | Replaced | Expired | Replied(reply: nat, handled: nat)

  /** A convertible Invoke, its GSUP form and where in the SGSN log the broadcast of it would be. */
  datatype HlrInvoke = HlrInvoke(entry: HlrTxEntry, request: GsupMessage, sentAt: nat, fate: InvokeFate) {
    function Imsi(): string { request.imsi }
  }

  datatype HlrWorld = HlrWorld(proxy: ProxyState, invokes: seq<HlrInvoke>)

  /** The convertible Invoke an event brings in, if any. */
  function InvokeIn(e: Event): Option<MapMessage> {
    if !e.MapIn? then None
    else
      var m := Map.Decoded(e.payload);
      if m.Success? && MapInvokeToGsup(m.value).Success? then Some(m.value) else None
  }

  function NewInvoke(s: ProxyState, e: Event, s': ProxyState): seq<HlrInvoke> {
    var m := InvokeIn(e);
    if m.None? || !e.MapIn? then []
    else
      var g := MapInvokeToGsup(m.value);
      if g.Failure? then []
      else [HlrInvoke(HlrTxEntry(m.value.transactionId, m.value.invokeId, m.value.operation, e.now), g.value,
                      |s.sgsnOut|, if g.value.imsi in s'.hlrTx then Waiting else Unsent)]
  }

  function FateAfter(v: HlrInvoke, s: ProxyState, s': ProxyState, new_: seq<HlrInvoke>, handled: nat): InvokeFate {
    if !v.fate.Waiting? then v.fate
    else if new_ != [] && new_[0].Imsi() == v.Imsi() then Replaced
    else if v.Imsi() in s'.hlrTx then Waiting
    else if |s.hlrOut| < |s'.hlrOut| && s'.hlrOut[|s.hlrOut|].answers == Some(v.Imsi())
    then Replied(|s.hlrOut|, handled)
    else Expired
  }

  function Followed(vs: seq<HlrInvoke>, s: ProxyState, s': ProxyState, new_: seq<HlrInvoke>): seq<HlrInvoke> {
    seq(|vs|, i requires 0 <= i < |vs| => vs[i].(fate := FateAfter(vs[i], s, s', new_, |vs|)))
  }

  ghost function AdvanceHlr(w: HlrWorld, e: Event): HlrWorld
    requires Enabled(w.proxy, e)
  {
    var s' := Step(w.proxy, e);
    var new_ := NewInvoke(w.proxy, e, s');
    HlrWorld(s', Followed(w.invokes, w.proxy, s', new_) + new_)
  }

  // -------------------------------------------------------------- invariant

  /** The Invoke is on file, and its GSUP form was broadcast to the SGSNs. */
  predicate Filed(v: HlrInvoke, s: ProxyState) {
    && v.Imsi() in s.hlrTx && s.hlrTx[v.Imsi()] == v.entry && Forwarded(v, s)
  }

  /** The broadcast is there, and an SGSN that decodes it reads exactly the converted Invoke. */
  predicate Forwarded(v: HlrInvoke, s: ProxyState) {
    && v.sentAt < |s.sgsnOut|
    && Gsup.Encoded(v.request) == Success(s.sgsnOut[v.sentAt].data)
    && Gsup.Decoded(s.sgsnOut[v.sentAt].data) == Success(v.request)
    && s.sgsnOut[v.sentAt].to == 0
  }

  /** These octets are an answer, not an Invoke, under the ids of this entry. */
  predicate AnswersEntry(data: Bytes, t: HlrTxEntry) {
    var m := Map.Decoded(data);
    && m.Success? && (m.value.component.ReturnResult? || m.value.component.ReturnError?)
    && m.value.transactionId == t.mapTransactionId && m.value.invokeId == t.mapInvokeId
  }

  /** The Invoke was broadcast and then answered once, with its own ids, when no later Invoke for the
      same subscriber had been handled. */
  ghost predicate WellAnswered(w: HlrWorld, i: int)
    requires 0 <= i < |w.invokes| && w.invokes[i].fate.Replied?
  {
    var v := w.invokes[i];
    && Forwarded(v, w.proxy)
    && v.fate.reply < |w.proxy.hlrOut| && w.proxy.hlrOut[v.fate.reply].answers == Some(v.Imsi())
    && AnswersEntry(w.proxy.hlrOut[v.fate.reply].data, v.entry)
    && i < v.fate.handled <= |w.invokes|
    && forall j :: i < j < v.fate.handled ==> w.invokes[j].Imsi() != v.Imsi()
  }

  /** Of the Invokes for a subscriber only the latest can be waiting, and then it is on file. */
  ghost predicate WaitingFiled(w: HlrWorld) {
    && (forall i :: 0 <= i < |w.invokes| && w.invokes[i].fate.Waiting? ==> Filed(w.invokes[i], w.proxy))
    && (forall i, j :: 0 <= i < j < |w.invokes| && w.invokes[i].Imsi() == w.invokes[j].Imsi()
          ==> !w.invokes[i].fate.Waiting?)
  }

  ghost predicate WaitingFor(vs: seq<HlrInvoke>, i: int, imsi: string) {
    0 <= i < |vs| && vs[i].fate.Waiting? && vs[i].Imsi() == imsi
  }

  ghost predicate FiledWaiting(w: HlrWorld) {
    forall imsi :: imsi in w.proxy.hlrTx ==> exists i :: WaitingFor(w.invokes, i, imsi)
  }

  ghost predicate AnswersRight(w: HlrWorld) {
    && (forall i :: 0 <= i < |w.invokes| && w.invokes[i].fate.Replied? ==> WellAnswered(w, i))
    && (forall i, j :: 0 <= i < j < |w.invokes| && w.invokes[i].fate.Replied? && w.invokes[j].fate.Replied?
          ==> w.invokes[i].fate.reply != w.invokes[j].fate.reply)
  }

  ghost predicate RepliedAt(vs: seq<HlrInvoke>, i: int, k: nat) {
    0 <= i < |vs| && vs[i].fate.Replied? && vs[i].fate.reply == k
  }

  ghost predicate AnswersAccounted(w: HlrWorld) {
    forall k :: 0 <= k < |w.proxy.hlrOut| && w.proxy.hlrOut[k].answers.Some? ==> exists i :: RepliedAt(w.invokes, i, k)
  }

  ghost predicate Correlated(w: HlrWorld) {
    WaitingFiled(w) && FiledWaiting(w) && AnswersRight(w) && AnswersAccounted(w)
  }

  // ------------------------------------------------------- what a step may do

  /** The step brings in `new_` and sends at most one answer, which takes its entry off the file. */
  ghost predicate HlrLawful(s: ProxyState, s': ProxyState, new_: seq<HlrInvoke>) {
    && s.sgsnOut <= s'.sgsnOut && s.hlrOut <= s'.hlrOut && |s'.hlrOut| <= |s.hlrOut| + 1
    && |new_| <= 1
    && (forall v :: v in new_ ==>
          && v.sentAt == |s.sgsnOut| && s'.hlrOut == s.hlrOut
          && (v.fate.Waiting? || v.fate.Unsent?) && (v.fate.Waiting? <==> v.Imsi() in s'.hlrTx)
          && (v.fate.Waiting? ==> Filed(v, s')))
    && (forall imsi :: imsi in s'.hlrTx && (new_ == [] || new_[0].Imsi() != imsi)
          ==> imsi in s.hlrTx && s'.hlrTx[imsi] == s.hlrTx[imsi])
    && (|s'.hlrOut| == |s.hlrOut| + 1 && s'.hlrOut[|s.hlrOut|].answers.Some? ==>
          var imsi := s'.hlrOut[|s.hlrOut|].answers.value;
          imsi in s.hlrTx && imsi !in s'.hlrTx && AnswersEntry(s'.hlrOut[|s.hlrOut|].data, s.hlrTx[imsi]))
  }

  ghost predicate CorrelationStep(w: HlrWorld, s': ProxyState, new_: seq<HlrInvoke>, w': HlrWorld) {
    && Correlated(w) && HlrLawful(w.proxy, s', new_)
    && w' == HlrWorld(s', Followed(w.invokes, w.proxy, s', new_) + new_)
  }

  lemma {:induction false} StillForwarded(v: HlrInvoke, s: ProxyState, s': ProxyState)
    requires Forwarded(v, s) && s.sgsnOut <= s'.sgsnOut
    ensures forall f :: Forwarded(v.(fate := f), s')
  {
    hide Gsup.Encoded, Gsup.Decoded;
    assert s'.sgsnOut[v.sentAt] == s.sgsnOut[v.sentAt];
  }

  lemma {:induction false} FollowedLength(w: HlrWorld, s': ProxyState, new_: seq<HlrInvoke>, w': HlrWorld)
    requires CorrelationStep(w, s', new_, w')
    ensures |w'.invokes| == |w.invokes| + |new_| && |new_| <= 1
  {
    hide Correlated, FateAfter;
  }

  /** An Invoke as the step leaves it. */
  lemma {:induction false} FollowedCases(w: HlrWorld, s': ProxyState, new_: seq<HlrInvoke>, w': HlrWorld, i: nat)
    requires CorrelationStep(w, s', new_, w') && i < |w'.invokes|
    ensures i >= |w.invokes| ==> new_ == [w'.invokes[i]] && i == |w.invokes|
    ensures i < |w.invokes| ==> w'.invokes[i] == w.invokes[i].(fate := FateAfter(w.invokes[i], w.proxy, s', new_, |w.invokes|))
  {
    FollowedLength(w, s', new_, w');
    assert |new_| == 1 ==> new_ == [new_[0]];
    hide Correlated, HlrLawful, FateAfter;
  }

  lemma {:induction false} StepWaitingFiled(w: HlrWorld, s': ProxyState, new_: seq<HlrInvoke>, w': HlrWorld)
    requires CorrelationStep(w, s', new_, w')
    ensures WaitingFiled(w')
  {
    hide AnswersRight, FiledWaiting, AnswersAccounted, Gsup.Encoded, Gsup.Decoded, AnswersEntry, Followed;
    FollowedLength(w, s', new_, w');
    forall i | 0 <= i < |w'.invokes| && w'.invokes[i].fate.Waiting?
      ensures Filed(w'.invokes[i], s')
    {
      FollowedCases(w, s', new_, w', i);
      if i < |w.invokes| { StillForwarded(w.invokes[i], w.proxy, s'); }
    }
    forall i, j | 0 <= i < j < |w'.invokes| && w'.invokes[i].Imsi() == w'.invokes[j].Imsi()
      ensures !w'.invokes[i].fate.Waiting?
    {
      FollowedCases(w, s', new_, w', i);
      FollowedCases(w, s', new_, w', j);
    }
  }

  lemma {:induction false} StepFiledWaiting(w: HlrWorld, s': ProxyState, new_: seq<HlrInvoke>, w': HlrWorld)
    requires CorrelationStep(w, s', new_, w')
    ensures FiledWaiting(w')
  {
    hide AnswersRight, WaitingFiled, AnswersAccounted, Gsup.Encoded, Gsup.Decoded, AnswersEntry, Followed, Filed;
    FollowedLength(w, s', new_, w');
    forall imsi | imsi in s'.hlrTx
      ensures exists i :: WaitingFor(w'.invokes, i, imsi)
    {
      if new_ != [] && new_[0].Imsi() == imsi {
        FollowedCases(w, s', new_, w', |w'.invokes| - 1);
        assert w'.invokes[|w'.invokes| - 1] == new_[0];
        assert WaitingFor(w'.invokes, |w'.invokes| - 1, imsi);
      } else {
        var i :| WaitingFor(w.invokes, i, imsi);
        FollowedCases(w, s', new_, w', i);
        assert WaitingFor(w'.invokes, i, imsi);
      }
    }
  }

  lemma {:induction false} StepWellAnswered(w: HlrWorld, s': ProxyState, new_: seq<HlrInvoke>, w': HlrWorld, i: nat)
    requires CorrelationStep(w, s', new_, w') && i < |w'.invokes| && w'.invokes[i].fate.Replied?
    ensures WellAnswered(w', i)
    ensures i < |w.invokes|
    ensures w.invokes[i].fate.Replied? ==> w'.invokes[i] == w.invokes[i] && WellAnswered(w, i)
    ensures !w.invokes[i].fate.Replied? ==>
              w.invokes[i].fate.Waiting? && w'.invokes[i].fate.reply == |w.proxy.hlrOut|
              && s'.hlrOut[|w.proxy.hlrOut|].answers == Some(w.invokes[i].Imsi())
  {
    hide FiledWaiting, AnswersAccounted, Gsup.Encoded, Gsup.Decoded, AnswersEntry, Followed;
    FollowedLength(w, s', new_, w');
    FollowedCases(w, s', new_, w', i);
    var v := w.invokes[i];
    assert Forwarded(v, w.proxy) by {
      if v.fate.Replied? { assert WellAnswered(w, i); } else { assert Filed(v, w.proxy); }
    }
    StillForwarded(v, w.proxy, s');
    forall j | i < j < w'.invokes[i].fate.handled
      ensures w'.invokes[j].Imsi() != w'.invokes[i].Imsi()
    {
      FollowedCases(w, s', new_, w', j);
    }
  }

  lemma {:induction false} StepAnswersRight(w: HlrWorld, s': ProxyState, new_: seq<HlrInvoke>, w': HlrWorld)
    requires CorrelationStep(w, s', new_, w')
    ensures AnswersRight(w')
  {
    hide FiledWaiting, AnswersAccounted, Gsup.Encoded, Gsup.Decoded, AnswersEntry, Followed, HlrLawful, Filed;
    FollowedLength(w, s', new_, w');
    forall i | 0 <= i < |w'.invokes| && w'.invokes[i].fate.Replied?
      ensures WellAnswered(w', i)
    {
      StepWellAnswered(w, s', new_, w', i);
    }
    forall i, j | 0 <= i < j < |w'.invokes| && w'.invokes[i].fate.Replied? && w'.invokes[j].fate.Replied?
      ensures w'.invokes[i].fate.reply != w'.invokes[j].fate.reply
    {
      StepWellAnswered(w, s', new_, w', i);
      StepWellAnswered(w, s', new_, w', j);
    }
  }

  lemma {:induction false} StepAnswersAccounted(w: HlrWorld, s': ProxyState, new_: seq<HlrInvoke>, w': HlrWorld)
    requires CorrelationStep(w, s', new_, w')
    ensures AnswersAccounted(w')
  {
    hide AnswersRight, Gsup.Encoded, Gsup.Decoded, AnswersEntry, Followed, Filed, WaitingFiled;
    FollowedLength(w, s', new_, w');
    forall k | 0 <= k < |s'.hlrOut| && s'.hlrOut[k].answers.Some?
      ensures exists i :: RepliedAt(w'.invokes, i, k)
    {
      if k < |w.proxy.hlrOut| {
        assert s'.hlrOut[k] == w.proxy.hlrOut[k];
        var i :| RepliedAt(w.invokes, i, k);
        FollowedCases(w, s', new_, w', i);
        assert RepliedAt(w'.invokes, i, k);
      } else {
        assert new_ == [];
        var i :| WaitingFor(w.invokes, i, s'.hlrOut[k].answers.value);
        FollowedCases(w, s', new_, w', i);
        assert RepliedAt(w'.invokes, i, k);
      }
    }
  }

  // --------------------------------------------------------- every handler is lawful

  /** Handlers that leave the file alone and give the HLR no answer. */
  ghost predicate Quiet(s: ProxyState, s': ProxyState) {
    && s'.hlrTx == s.hlrTx && s.sgsnOut <= s'.sgsnOut && s.hlrOut <= s'.hlrOut
    && |s'.hlrOut| <= |s.hlrOut| + 1
    && (|s'.hlrOut| == |s.hlrOut| + 1 ==> s'.hlrOut[|s.hlrOut|].answers.None?)
  }

  lemma {:induction false} RequestQuiet(s: ProxyState, g: GsupMessage, client: ClientId, now: int)
    ensures Quiet(s, OnRequest(s, g, client, now))
  {
    hide Map.Encoded, GsupToMap;
  }

  lemma {:induction false} AnswerQuiet(s: ProxyState, m: MapMessage)
    ensures Quiet(s, OnAnswer(s, m))
  {
    hide Gsup.Encoded, MapToGsup;
  }

  lemma {:induction false} NackEachQuiet(s: ProxyState, order: seq<U32>)
    requires forall t :: t in order ==> t in s.pendingOps
    ensures NackEach(s, order).hlrTx == s.hlrTx && NackEach(s, order).hlrOut == s.hlrOut
    ensures s.sgsnOut <= NackEach(s, order).sgsnOut
  {
    hide ErrorData;
    if order != [] { NackEachQuiet(s, order[..|order| - 1]); }
  }

  lemma {:induction false} ExpireEachQuiet(s: ProxyState, txs: seq<Transactions.PendingTransaction>)
    ensures ExpireEach(s, txs).hlrTx == s.hlrTx && ExpireEach(s, txs).hlrOut == s.hlrOut
    ensures s.sgsnOut <= ExpireEach(s, txs).sgsnOut
  {
    hide ErrorData;
    if txs != [] { ExpireEachQuiet(s, txs[..|txs| - 1]); }
  }

  /** The answer of an SGSN can always be put into MAP, under the ids it is given. */
  lemma {:induction false} ResponseAnswers(g: GsupMessage, t: HlrTxEntry)
    requires IsHlrInitiated(g.mtype) && |g.imsi| <= 510
    ensures var m := GsupToMapResult(g, t.mapTransactionId, t.mapInvokeId);
            m.Success? && Map.Encoded(m.value).Success? && AnswersEntry(Map.Encoded(m.value).value, t)
            && Map.Decoded(Map.Encoded(m.value).value) == Success(MapRoundTrip.Carried(m.value))
  {
    hide Map.Encoded, Map.Decoded, GsupToMapResult, IsHlrInitiated, MapRoundTrip.Carried, MapRoundTrip.Faithful;
    ResponseShape(g, t.mapTransactionId, t.mapInvokeId);
    var m := GsupToMapResult(g, t.mapTransactionId, t.mapInvokeId).value;
    MapSizes.ResponseEncodes(m);
    MapRoundTrip.RoundTripExact(m);
  }

  lemma {:induction false} ResponseShape(g: GsupMessage, tid: U32, invokeId: Byte)
    requires IsHlrInitiated(g.mtype)
    ensures GsupToMapResult(g, tid, invokeId).Success?
    ensures var m := GsupToMapResult(g, tid, invokeId).value;
            && (m.component.ReturnResult? || m.component.ReturnError?)
            && (m.operation == INSERT_SUBSCRIBER_DATA || m.operation == CANCEL_LOCATION
                || m.operation == DELETE_SUBSCRIBER_DATA || m.operation == PURGE_MS)
            && m.imsi == g.imsi && m.msisdn.None? && m.cancelType.None?
            && MapRoundTrip.Faithful(m)
            && MapRoundTrip.Carried(m).component == m.component
            && MapRoundTrip.Carried(m).transactionId == tid && MapRoundTrip.Carried(m).invokeId == invokeId
  {
  }

  lemma {:induction false} ResponseLawful(s: ProxyState, g: GsupMessage)
    requires IsHlrInitiated(g.mtype) && |g.imsi| <= 510
    ensures HlrLawful(s, OnHlrResponse(s, g), [])
    ensures var s' := OnHlrResponse(s, g);
            if g.imsi in s.hlrTx then
              s'.hlrTx == s.hlrTx - {g.imsi} && |s'.hlrOut| == |s.hlrOut| + 1
              && s'.hlrOut[|s.hlrOut|].answers == Some(g.imsi)
            else s' == s
  {
    hide Map.Encoded, GsupToMapResult, AnswersEntry, Gsup.Encoded, Map.Decoded;
    if g.imsi in s.hlrTx {
      ResponseAnswers(g, s.hlrTx[g.imsi]);
    }
  }

  /** Whatever can be encoded of a converted Invoke is read back exactly. */
  lemma {:induction false} ConvertedInvokeReadable(m: MapMessage)
    requires MapInvokeToGsup(m).Success? && Gsup.Encoded(MapInvokeToGsup(m).value).Success?
    ensures Gsup.Decoded(Gsup.Encoded(MapInvokeToGsup(m).value).value) == MapInvokeToGsup(m)
  {
    hide Gsup.Encoded, Gsup.Decoded;
    var g := MapInvokeToGsup(m).value;
    GsupRoundTrip.EncodesExactly(g);
    GsupRoundTrip.RoundTripExact(g);
  }

  lemma {:induction false} InvokeLawful(s: ProxyState, e: Event)
    requires InvokeIn(e).Some?
    ensures var s' := OnMap(s, e.payload, e.now);
            HlrLawful(s, s', NewInvoke(s, e, s')) && |NewInvoke(s, e, s')| == 1
  {
    hide Map.Decoded, Gsup.Encoded, Gsup.Decoded, AnswersEntry, OnAnswer;
    var m := InvokeIn(e).value;
    InvokeIsInvoke(m);
    if Gsup.Encoded(MapInvokeToGsup(m).value).Success? { ConvertedInvokeReadable(m); }
    hide MapInvokeToGsup;
  }

  lemma {:induction false} InvokeIsInvoke(m: MapMessage)
    ensures MapInvokeToGsup(m).Success? ==> m.component.Invoke? && MapInvokeToGsup(m).value.imsi == m.imsi
  {
  }

  lemma {:induction false} BoundedResponse(payload: Bytes)
    ensures Gsup.Decoded(payload).Success? ==> |Gsup.Decoded(payload).value.imsi| <= 510
  {
    if Gsup.Decoded(payload).Success? {
      GsupRoundTrip.DecodedIsBounded(payload);
    }
    hide Gsup.Decoded;
  }

  lemma {:induction false} QuietLawful(s: ProxyState, s': ProxyState)
    requires Quiet(s, s')
    ensures HlrLawful(s, s', [])
  {
    hide AnswersEntry, Filed;
  }

  lemma {:induction false} MapLawful(s: ProxyState, e: Event)
    requires e.MapIn?
    ensures HlrLawful(s, Step(s, e), NewInvoke(s, e, Step(s, e)))
  {
    hide HlrLawful, Map.Decoded, OnAnswer, Quiet;
    if InvokeIn(e).Some? {
      InvokeLawful(s, e);
    } else {
      var m := Map.Decoded(e.payload);
      QuietLawful(s, s) by { assert Quiet(s, s) by { NothingQuiet(s); } }
      if m.Success? {
        AnswerQuiet(s, m.value);
        QuietLawful(s, OnAnswer(s, m.value));
      }
      hide MapInvokeToGsup;
    }
  }

  lemma {:induction false} NothingQuiet(s: ProxyState)
    ensures Quiet(s, s)
  {
  }

  lemma {:induction false} GsupLawful(s: ProxyState, e: Event)
    requires e.GsupIn?
    ensures HlrLawful(s, Step(s, e), [])
  {
    hide HlrLawful, Gsup.Decoded, OnRequest, OnHlrResponse, Quiet, IsHlrInitiated;
    NothingQuiet(s);
    QuietLawful(s, s);
    var g := Gsup.Decoded(e.payload);
    if g.Success? {
      BoundedResponse(e.payload);
      if IsHlrInitiated(g.value.mtype) {
        ResponseLawful(s, g.value);
      } else {
        RequestQuiet(s, g.value, e.client, e.now);
        QuietLawful(s, OnRequest(s, g.value, e.client, e.now));
      }
    }
  }

  lemma {:induction false} EventLawful(s: ProxyState, e: Event)
    requires Enabled(s, e)
    ensures HlrLawful(s, Step(s, e), NewInvoke(s, e, Step(s, e)))
  {
    hide Gsup.Decoded, Map.Decoded, OnGsup, OnMap, ErrorData, AnswersEntry, Filed, HlrLawful;
    match e {
      case GsupIn(_, _, _) => GsupLawful(s, e);
      case MapIn(_, _) => MapLawful(s, e);
      case ExpireSgsn(now, order) =>
        var s1 := s.(tm := s.tm.(transactions := Transactions.Unexpired(s.Transactions(), now, s.tm.timeout)));
        ExpireEachQuiet(s1, Transactions.StaleAmong(s.Transactions(), order, now, s.tm.timeout));
        QuietLawful(s, Step(s, e));
      case ExpireHlr(now, timeout) => SweepLawful(s, now, timeout);
      case HlrDisconnect(order) =>
        NackEachQuiet(s, order);
        QuietLawful(s, Step(s, e));
    }
  }

  lemma {:induction false} SweepLawful(s: ProxyState, now: int, timeout: int)
    ensures HlrLawful(s, OnExpireHlr(s, now, timeout), [])
  {
    hide AnswersEntry, Filed;
  }

  // ------------------------------------------------------------------- theorems

  /** Every callback keeps Invokes and answers correlated. */
  lemma {:induction false} StepCorrelated(w: HlrWorld, e: Event)
    requires Correlated(w) && Enabled(w.proxy, e)
    ensures Correlated(AdvanceHlr(w, e))
  {
    hide Step, NewInvoke, HlrLawful, WaitingFiled, FiledWaiting, AnswersRight, AnswersAccounted, Followed;
    EventLawful(w.proxy, e);
    var s' := Step(w.proxy, e);
    var new_ := NewInvoke(w.proxy, e, s');
    var w' := AdvanceHlr(w, e);
    StepWaitingFiled(w, s', new_, w');
    StepFiledWaiting(w, s', new_, w');
    StepAnswersRight(w, s', new_, w');
    StepAnswersAccounted(w, s', new_, w');
  }

  /** Any run at all from the start of the proxy: no hypothesis on ids. */
  ghost predicate IsHlrRun(ws: seq<HlrWorld>, es: seq<Event>, timeout: int) {
    && |ws| == |es| + 1 && ws[0] == HlrWorld(Start(timeout), [])
    && forall i :: 0 <= i < |es| ==> Enabled(ws[i].proxy, es[i]) && ws[i + 1] == AdvanceHlr(ws[i], es[i])
  }

  /** In every state of every run, every answer sent to the HLR bears the ids of exactly one Invoke,
      which had been broadcast and was the latest for its subscriber; and what is on file is exactly
      the Invokes still waiting, at most one per subscriber and always the latest. */
  lemma {:induction false} RunsAreCorrelated(ws: seq<HlrWorld>, es: seq<Event>, timeout: int, n: nat)
    requires IsHlrRun(ws, es, timeout) && n < |ws|
    ensures Correlated(ws[n])
  {
    if n > 0 {
      RunsAreCorrelated(ws, es, timeout, n - 1);
      hide Correlated, AdvanceHlr;
      StepCorrelated(ws[n - 1], es[n - 1]);
    }
  }

  /** Fates are final, so no Invoke is answered twice or after it was replaced or expired. */
  ghost predicate FatesFinal(w: HlrWorld, w': HlrWorld) {
    && |w.invokes| <= |w'.invokes|
    && forall i :: 0 <= i < |w.invokes| ==>
         && w'.invokes[i] == w.invokes[i].(fate := w'.invokes[i].fate)
         && (!w.invokes[i].fate.Waiting? ==> w'.invokes[i] == w.invokes[i])
  }

  lemma {:induction false} RunsKeepFates(ws: seq<HlrWorld>, es: seq<Event>, timeout: int, m: nat, n: nat)
    requires IsHlrRun(ws, es, timeout) && m <= n < |ws|
    ensures FatesFinal(ws[m], ws[n])
  {
    if m < n {
      RunsKeepFates(ws, es, timeout, m, n - 1);
      hide Step, Enabled, NewInvoke;
      var w, w' := ws[n - 1], ws[n];
      assert w' == AdvanceHlr(w, es[n - 1]);
      forall i | 0 <= i < |w.invokes|
        ensures w'.invokes[i] == w.invokes[i].(fate := w'.invokes[i].fate)
                && (!w.invokes[i].fate.Waiting? ==> w'.invokes[i] == w.invokes[i])
      {
      }
    }
  }

  /** A sweep expires exactly the waiting Invokes older than the timeout, and nothing but a sweep
      expires one: a waiting Invoke that gets an answer is answered. */
  lemma {:induction false} ExpiredExactly(w: HlrWorld, e: Event, i: nat)
    requires Correlated(w) && Enabled(w.proxy, e) && i < |w.invokes| && w.invokes[i].fate.Waiting?
    ensures i < |AdvanceHlr(w, e).invokes|
    ensures AdvanceHlr(w, e).invokes[i].fate.Expired?
            <==> e.ExpireHlr? && e.now - w.invokes[i].entry.createdAt > e.timeout
  {
    hide FiledWaiting, AnswersRight, AnswersAccounted, Gsup.Encoded, Gsup.Decoded, Map.Decoded, AnswersEntry;
    var s, s', v := w.proxy, Step(w.proxy, e), w.invokes[i];
    assert Filed(v, s);
    var w' := AdvanceHlr(w, e);
    assert w'.invokes[i].fate == FateAfter(v, s, s', NewInvoke(s, e, s'), |w.invokes|);
    if !e.ExpireHlr? { OnlySweepsExpire(s, e, v.Imsi()); }
  }

  /** Apart from a sweep, an entry leaves the file only by being answered or replaced. */
  lemma {:induction false} OnlySweepsExpire(s: ProxyState, e: Event, imsi: string)
    requires Enabled(s, e) && !e.ExpireHlr? && imsi in s.hlrTx
    ensures var s' := Step(s, e);
            var new_ := NewInvoke(s, e, s');
            || (new_ != [] && new_[0].Imsi() == imsi)
            || imsi in s'.hlrTx
            || (|s.hlrOut| < |s'.hlrOut| && s'.hlrOut[|s.hlrOut|].answers == Some(imsi))
  {
    hide Gsup.Decoded, Map.Decoded, Gsup.Encoded, Map.Encoded, ErrorData, HlrLawful, OnRequest, OnHlrResponse, OnAnswer;
    match e {
      case GsupIn(payload, client, now) =>
        var g := Gsup.Decoded(payload);
        if g.Success? {
          BoundedResponse(payload);
          if IsHlrInitiated(g.value.mtype) { ResponseLawful(s, g.value); } else { RequestQuiet(s, g.value, client, now); }
        }
      case MapIn(payload, now) =>
        var m := Map.Decoded(payload);
        if m.Success? {
          AnswerQuiet(s, m.value);
          InvokeIsInvoke(m.value);
        }
      case ExpireSgsn(now, order) =>
        var s1 := s.(tm := s.tm.(transactions := Transactions.Unexpired(s.Transactions(), now, s.tm.timeout)));
        ExpireEachQuiet(s1, Transactions.StaleAmong(s.Transactions(), order, now, s.tm.timeout));
      case HlrDisconnect(order) => NackEachQuiet(s, order);
    }
  }

  /** The recorded operation is not consulted, so the answer names the operation of the Invoke if
      and only if the SGSN answered with the types of that operation; an error names none. */
  lemma {:induction false} AnswerOperationExact(g: GsupMessage, t: HlrTxEntry)
    requires IsHlrInitiated(g.mtype) && |g.imsi| <= 510
    ensures var m := GsupToMapResult(g, t.mapTransactionId, t.mapInvokeId);
            && m.Success? && Map.Encoded(m.value).Success? && Map.Decoded(Map.Encoded(m.value).value).Success?
            && (Map.Decoded(Map.Encoded(m.value).value).value.operation == t.mapOperation
                <==> if IsHlrInitiatedError(g.mtype) then t.mapOperation == UNKNOWN_OPERATION
                     else g.mtype == ResultFor(t.mapOperation))
  {
    hide Map.Encoded, Map.Decoded, GsupToMapResult, IsHlrInitiated, MapRoundTrip.Carried, ResultFor;
    ResponseAnswers(g, t);
    ResponseOperation(g, t.mapTransactionId, t.mapInvokeId, t.mapOperation);
  }

  lemma {:induction false} ResponseOperation(g: GsupMessage, tid: U32, invokeId: Byte, op: MapOperation)
    requires IsHlrInitiated(g.mtype)
    ensures GsupToMapResult(g, tid, invokeId).Success?
    ensures MapRoundTrip.Carried(GsupToMapResult(g, tid, invokeId).value).operation == op
            <==> if IsHlrInitiatedError(g.mtype) then op == UNKNOWN_OPERATION else g.mtype == ResultFor(op)
  {
  }

  /** The result an SGSN sends for an HLR operation; no octet stands for the result of the others. */
  function ResultFor(op: MapOperation): int {
    if op == INSERT_SUBSCRIBER_DATA then INSERT_DATA_RESULT
    else if op == CANCEL_LOCATION then LOCATION_CANCEL_RESULT
    else if op == DELETE_SUBSCRIBER_DATA then DELETE_DATA_RESULT
    else if op == PURGE_MS then PURGE_MS_RESULT
    else -1
  }
}

/** What each message becomes on the other side, written out by its code numbers and fields. */
module Meaning {
  import opened Basics
  import opened Bcd
  import opened GsupMessages
  import opened MapMessages
  import opened Converter
  import opened Transactions
  import opened ProxyModel
  import opened ProxySafety
  import Allocation
  import Gsup = GsupCodec
  import Map = MapCodec
  import GsupRoundTrip
  import MapRoundTrip
  import MapSizes
  import Pipeline
  import HlrCorrelation

  // ------------------------------------------------------------- code numbers

  /** The GSUP requests that are forwarded: UpdateLocation, SendAuthInfo, PurgeMS, InsertData and
      LocationCancel. The error of a request is its code plus 1, its result its code plus 2. */
  predicate IsRequest(t: MessageType) { t == 0x04 || t == 0x08 || t == 0x0C || t == 0x10 || t == 0x1C }

  /** The GSUP errors and results that answer the HLR: of PurgeMS, InsertData, DeleteData and
      LocationCancel. */
  predicate IsErrorToHlr(t: MessageType) { t == 0x0D || t == 0x11 || t == 0x15 || t == 0x1D }
  predicate IsResultToHlr(t: MessageType) { t == 0x0E || t == 0x12 || t == 0x16 || t == 0x1E }

  /** The MAP operation of a GSUP request, and of the error or result to it. */
  function OperationCode(request: int): MapOperation {
    if request == 0x04 then 23
    else if request == 0x08 then 56
    else if request == 0x0C then 67
    else if request == 0x10 then 7
    else if request == 0x14 then 8
    else if request == 0x1C then 3
    else 0xFF
  }

  /** The GSUP request for an operation the HLR may invoke. */
  predicate IsHlrOperation(op: MapOperation) { op == 3 || op == 7 || op == 8 || op == 67 }

  function RequestCode(op: MapOperation): MessageType
    requires IsHlrOperation(op)
  {
    if op == 3 then 0x1C else if op == 7 then 0x10 else if op == 8 then 0x14 else 0x0C
  }

  /** The type tables, by code numbers. */
  lemma {:induction false} ExpectedTypes(t: MessageType)
    ensures IsRequest(t) ==> ExpectedError(t) == Success(t + 1) && ExpectedResult(t) == Success(t + 2)
    ensures !IsRequest(t) ==> ExpectedError(t).Failure? && ExpectedResult(t).Failure?
    ensures IsRequest(t) ==> OperationOf(t) == Success(OperationCode(t))
    ensures IsHlrInitiated(t) <==> IsErrorToHlr(t) || IsResultToHlr(t)
    ensures IsHlrInitiatedError(t) <==> IsErrorToHlr(t)
    ensures !(IsRequest(t) && IsHlrInitiated(t))
  {
  }

  // ------------------------------------------------------------ a request of an SGSN

  /** The Invoke that the HLR is to receive: the subscriber of the request, under the issued ids. */
  function InvokeFor(g: GsupMessage, tid: U32, invokeId: Byte): MapMessage {
    BLANK_MAP.(transactionId := tid, component := Invoke, invokeId := invokeId,
               operation := OperationCode(g.mtype), imsi := g.imsi,
               numRequestedVectors := if g.mtype == 0x08 then Some(g.numVectorsRequested.GetOr(1)) else None,
               cancelType := if g.mtype == 0x1C then g.cancelType else None,
               msisdn := if g.mtype == 0x10 then g.msisdn else None)
  }

  lemma {:induction false} ConvertedInvoke(g: GsupMessage, tid: U32, invokeId: Byte)
    requires IsRequest(g.mtype)
    ensures GsupToMap(g, tid, invokeId) == Success(InvokeFor(g, tid, invokeId))
    ensures AllDigits(g.imsi) ==> MapRoundTrip.Faithful(InvokeFor(g, tid, invokeId))
    ensures MapRoundTrip.Carried(InvokeFor(g, tid, invokeId)) == InvokeFor(g, tid, invokeId)
  {
  }

  /** The last send to the HLR. */
  function LastToHlr(s: ProxyState): HlrSend
    requires s.hlrOut != []
  {
    s.hlrOut[|s.hlrOut| - 1]
  }

  /** A request of the five types makes the proxy send the HLR one message: an Invoke about that very
      subscriber, with the operation and the arguments of its type. Other types send nothing. */
  lemma {:induction false} RequestMeaning(s: ProxyState, payload: Bytes, client: ClientId, now: int)
    requires Gsup.Decoded(payload).Success? && !IsErrorToHlr(Gsup.Decoded(payload).value.mtype)
    requires !IsResultToHlr(Gsup.Decoded(payload).value.mtype)
    ensures var g, s', tid := Gsup.Decoded(payload).value, OnGsup(s, payload, client, now), NextTid(s.tm.tidCounter);
            && s'.sgsnOut == s.sgsnOut && s'.hlrTx == s.hlrTx
            && if IsRequest(g.mtype) then
                 && tid in s'.Transactions() && |s'.hlrOut| == |s.hlrOut| + 1 && s.hlrOut <= s'.hlrOut
                 && LastToHlr(s').answers.None?
                 && Map.Decoded(LastToHlr(s').data)
                    == Success(InvokeFor(g, tid, s'.Transactions()[tid].mapInvokeId))
               else tid !in s'.Transactions() && s'.hlrOut == s.hlrOut
  {
    hide Gsup.Decoded, Map.Encoded, Map.Decoded, GsupToMap, ExpectedResult, IsHlrInitiated, InvokeFor;
    var g, tid := Gsup.Decoded(payload).value, NextTid(s.tm.tidCounter);
    ExpectedTypes(g.mtype);
    GsupRoundTrip.DecodedIsBounded(payload);
    var s1 := s.(tm := Allocated(s.tm, g.imsi, client, now));
    var id := s1.tm.transactions[tid].mapInvokeId;
    ConvertibleRequests(g, tid, id);
    assert OnGsup(s, payload, client, now) == OnRequest(s, g, client, now);
    if IsRequest(g.mtype) {
      ConvertedInvoke(g, tid, id);
      MapSizes.DecodableRequestsEncode(payload, tid, id);
      MapRoundTrip.RoundTripExact(InvokeFor(g, tid, id));
    }
  }

  // -------------------------------------------------------------- an Invoke of the HLR

  /** The request that the SGSNs are to receive. */
  function RequestFor(m: MapMessage): GsupMessage
    requires IsHlrOperation(m.operation)
  {
    BLANK_GSUP.(mtype := RequestCode(m.operation), imsi := m.imsi,
                msisdn := if m.operation == 7 then m.msisdn else None,
                cancelType := if m.operation == 3 then m.cancelType else None)
  }

  lemma {:induction false} ConvertedRequest(m: MapMessage)
    requires m.component.Invoke?
    ensures MapInvokeToGsup(m) == if IsHlrOperation(m.operation) then Success(RequestFor(m)) else Failure
  {
  }

  /** An Invoke that arrives is broadcast once, as the request for its operation about its subscriber,
      and filed under that subscriber; if its values do not fit GSUP, an older Invoke on file is dropped
      for it; and any other operation changes nothing. */
  lemma {:induction false} InvokeMeaning(s: ProxyState, payload: Bytes, m: MapMessage, now: int)
    requires Map.Decoded(payload) == Success(m) && m.component.Invoke?
    ensures var s' := OnMap(s, payload, now);
            if !IsHlrOperation(m.operation) then s' == s
            else if Pipeline.CarriableImsi(m.imsi) && (m.operation == 7 ==> GsupRoundTrip.Short(m.msisdn)) then
              && |s'.sgsnOut| == |s.sgsnOut| + 1
              && Gsup.Decoded(s'.sgsnOut[|s.sgsnOut|].data) == Success(RequestFor(m))
              && s' == s.(hlrTx := s.hlrTx[m.imsi := HlrTxEntry(m.transactionId, m.invokeId, m.operation, now)],
                          sgsnOut := s.sgsnOut + [SgsnSend(s'.sgsnOut[|s.sgsnOut|].data, 0, None)])
            else s' == s.(hlrTx := s.hlrTx - {m.imsi})
  {
    hide Map.Decoded, Gsup.Encoded, Gsup.Decoded, MapInvokeToGsup;
    ConvertedRequest(m);
    if IsHlrOperation(m.operation) {
      RequestFits(m);
      GsupRoundTrip.EncodesExactly(RequestFor(m));
      GsupRoundTrip.RoundTripExact(RequestFor(m));
      hide RequestFor, GsupRoundTrip.Encodable, GsupRoundTrip.FitsWire, Pipeline.CarriableImsi;
    }
  }

  lemma {:induction false} RequestFits(m: MapMessage)
    requires IsHlrOperation(m.operation)
    ensures RequestFor(m).imsi == m.imsi
    ensures GsupRoundTrip.Encodable(RequestFor(m)) <==> GsupRoundTrip.FitsWire(RequestFor(m))
    ensures GsupRoundTrip.Encodable(RequestFor(m))
            <==> Pipeline.CarriableImsi(m.imsi) && (m.operation == 7 ==> GsupRoundTrip.Short(m.msisdn))
  {
  }

  /** The request that the ledger of Invokes keeps, and that an SGSN reads in its broadcast, is that one. */
  lemma {:induction false} LedgerRequest(s: ProxyState, e: Event, s': ProxyState)
    ensures forall v :: v in HlrCorrelation.NewInvoke(s, e, s') ==>
              && HlrCorrelation.InvokeIn(e).Some? && IsHlrOperation(HlrCorrelation.InvokeIn(e).value.operation)
              && v.request == RequestFor(HlrCorrelation.InvokeIn(e).value)
              && v.entry.mapOperation == HlrCorrelation.InvokeIn(e).value.operation
  {
    hide Map.Decoded;
    if HlrCorrelation.InvokeIn(e).Some? && HlrCorrelation.InvokeIn(e).value.component.Invoke? {
      ConvertedRequest(HlrCorrelation.InvokeIn(e).value);
    }
    hide RequestFor;
  }

  /** The same from the message that the HLR encodes. */
  lemma {:induction false} EncodedInvokeMeaning(s: ProxyState, m: MapMessage, now: int)
    requires m.component.Invoke? && IsHlrOperation(m.operation) && Map.Encoded(m).Success?
    requires AllDigits(m.imsi) && |m.imsi| <= 15 && (m.operation == 7 ==> GsupRoundTrip.Short(m.msisdn))
    ensures var s' := OnMap(s, Map.Encoded(m).value, now);
            && |s'.sgsnOut| == |s.sgsnOut| + 1 && s'.sgsnOut[|s.sgsnOut|].to == 0
            && Gsup.Decoded(s'.sgsnOut[|s.sgsnOut|].data) == Success(RequestFor(m))
            && m.imsi in s'.hlrTx
            && s'.hlrTx[m.imsi] == HlrTxEntry(m.transactionId, m.invokeId, m.operation, now)
  {
    hide Map.Encoded, Map.Decoded, Gsup.Decoded, Gsup.Encoded, OnMap;
    MapRoundTrip.RoundTripExact(m);
    CarriedInvoke(m);
    InvokeMeaning(s, Map.Encoded(m).value, MapRoundTrip.Carried(m), now);
    hide MapRoundTrip.Carried;
  }

  lemma {:induction false} CarriedInvoke(m: MapMessage)
    requires m.component.Invoke? && IsHlrOperation(m.operation) && AllDigits(m.imsi)
    ensures var c := MapRoundTrip.Carried(m);
            && c.component.Invoke? && c.operation == m.operation && c.imsi == m.imsi
            && c.transactionId == m.transactionId && c.invokeId == m.invokeId
            && (m.operation == 7 ==> c.msisdn == m.msisdn) && RequestFor(c) == RequestFor(m)
    ensures MapRoundTrip.Faithful(m)
    ensures |m.imsi| <= 15 ==> Pipeline.CarriableImsi(m.imsi)
  {
  }

  // ------------------------------------------------------- an SGSN's answer to the HLR

  /** What the HLR is to receive for an error or a result: its own ids, the operation of a result, and
      the cause of an error, or else 34. */
  function AnswerToHlr(g: GsupMessage, entry: HlrTxEntry): MapMessage {
    BLANK_MAP.(transactionId := entry.mapTransactionId, invokeId := entry.mapInvokeId,
               component := if IsErrorToHlr(g.mtype) then ReturnError else ReturnResult,
               operation := if IsErrorToHlr(g.mtype) then 0xFF else OperationCode(g.mtype - 2),
               errorCode := if IsErrorToHlr(g.mtype) then Some(g.cause.GetOr(34)) else None)
  }

  lemma {:induction false} ConvertedAnswer(g: GsupMessage, entry: HlrTxEntry)
    requires IsErrorToHlr(g.mtype) || IsResultToHlr(g.mtype)
    ensures GsupToMapResult(g, entry.mapTransactionId, entry.mapInvokeId).Success?
    ensures MapRoundTrip.Carried(GsupToMapResult(g, entry.mapTransactionId, entry.mapInvokeId).value)
         == AnswerToHlr(g, entry)
  {
  }

  /** An error or result of those eight types, for a subscriber on file, takes the entry off the file
      and sends the HLR exactly one message, the answer under the entry's ids; for any other subscriber
      nothing happens. No other type touches the file or answers the HLR. */
  lemma {:induction false} SgsnAnswerMeaning(s: ProxyState, payload: Bytes, client: ClientId, now: int)
    requires Gsup.Decoded(payload).Success?
    ensures var g, s' := Gsup.Decoded(payload).value, OnGsup(s, payload, client, now);
            if IsErrorToHlr(g.mtype) || IsResultToHlr(g.mtype) then
              if g.imsi in s.hlrTx then
                && |s'.hlrOut| == |s.hlrOut| + 1
                && Map.Decoded(LastToHlr(s').data) == Success(AnswerToHlr(g, s.hlrTx[g.imsi]))
                && s' == s.(hlrTx := s.hlrTx - {g.imsi},
                            hlrOut := s.hlrOut + [HlrSend(LastToHlr(s').data, Some(g.imsi))])
              else s' == s
            else
              && s'.hlrTx == s.hlrTx && s.hlrOut <= s'.hlrOut
              && forall k :: |s.hlrOut| <= k < |s'.hlrOut| ==> s'.hlrOut[k].answers.None?
  {
    hide Gsup.Decoded, Map.Encoded, Map.Decoded, GsupToMapResult, OnRequest, IsHlrInitiated, AnswerToHlr,
         MapRoundTrip.Carried;
    var g := Gsup.Decoded(payload).value;
    ExpectedTypes(g.mtype);
    HlrCorrelation.BoundedResponse(payload);
    if IsErrorToHlr(g.mtype) || IsResultToHlr(g.mtype) {
      if g.imsi in s.hlrTx {
        HlrCorrelation.ResponseAnswers(g, s.hlrTx[g.imsi]);
        ConvertedAnswer(g, s.hlrTx[g.imsi]);
      }
    } else {
      HlrCorrelation.RequestQuiet(s, g, client, now);
    }
  }

  // --------------------------------------------------------- an answer of the HLR

  /** The tuples of a result: all triplets, then all quintuplets, in order, XRES in `res`. */
  predicate CarriesVectors(tuples: seq<AuthTuple>, ts: seq<Triplet>, qs: seq<Quintuplet>) {
    && |tuples| == |ts| + |qs|
    && (forall i :: 0 <= i < |ts| ==>
          tuples[i] == BLANK_TUPLE.(rand := ts[i].rand, sres := ts[i].sres, kc := ts[i].kc))
    && (forall i :: 0 <= i < |qs| ==>
          tuples[|ts| + i]
          == BLANK_TUPLE.(rand := qs[i].rand, ik := Some(qs[i].ik), ck := Some(qs[i].ck), autn := Some(qs[i].autn),
                          res := Some(qs[i].xres)))
  }

  /** The reply an SGSN is to receive: the error or result of its request, about its subscriber, with
      the error code or else 34, or with what the result of that operation says. Only a result that
      names its operation says anything. */
  predicate ReplyMeant(g: GsupMessage, r: Request, m: MapMessage) {
    var named := m.component.ReturnResult? && m.operation == OperationCode(r.kind);
    && g == BLANK_GSUP.(mtype := g.mtype, imsi := r.imsi, authTuples := g.authTuples,
                        cause := if m.component.ReturnError? then Some(m.errorCode.GetOr(34)) else None,
                        hlrNumber := if named && r.kind == 0x04 then m.hlrNumber else None,
                        freezePtmsi := named && r.kind == 0x0C && m.freezePtmsi)
    && (g.mtype as int) == (r.kind as int) + (if m.component.ReturnError? then 1 else 2)
    && if named && r.kind == 0x08 then CarriesVectors(g.authTuples, m.triplets, m.quintuplets) else g.authTuples == []
  }

  lemma {:induction false} TuplesCarry(ts: seq<Triplet>, qs: seq<Quintuplet>)
    ensures CarriesVectors(Tuples(ts, qs), ts, qs)
    ensures ts == [] && qs == [] ==> Tuples(ts, qs) == []
  {
  }

  /** An answer on the wire names the operation of the request, or none. */
  predicate AnswersKind(m: MapMessage, r: Request) {
    && (m.component.ReturnResult? || m.component.ReturnError?) && m.transactionId == r.tid
    && (m.operation == OperationCode(r.kind) || m.operation == 0xFF || m.component.ReturnError?)
  }

  lemma {:induction false} ConvertedReply(s: ProxyState, r: Request, m: MapMessage)
    requires IsRequest(r.kind) && OnRecord(r, s) && AnswersKind(m, r)
    ensures MapRoundTrip.Carried(m).transactionId == r.tid
    ensures var g := MapToGsup(InContext(s, MapRoundTrip.Carried(m)));
            g.Success? && ReplyMeant(g.value, r, m)
  {
    ExpectedTypes(r.kind);
    var c := MapRoundTrip.Carried(m);
    TuplesCarry(c.triplets, c.quintuplets);
    hide Tuples, CarriesVectors, ExpectedError, ExpectedResult, OperationOf, AllDigits;
  }

  lemma {:induction false} PendingIsRequest(r: Request, s: ProxyState)
    requires OnRecord(r, s)
    ensures IsRequest(r.kind)
  {
  }

  /** The answer to a pending request reaches the client that made it, as the reply so described, or
      nobody if the reply does not fit GSUP; and it is read back as that reply if and only if each tuple
      in it totals at most 255 octets. */
  lemma {:induction false} HlrAnswerMeaning(w: World, i: nat, m: MapMessage, now: int)
    requires Safe(w) && i < |w.requests| && w.requests[i].fate.Pending? && AnswersKind(m, w.requests[i])
    requires Map.Encoded(m).Success?
    ensures exists g ::
              && ReplyMeant(g, w.requests[i], m)
              && (Gsup.Encoded(g).Success? <==> GsupRoundTrip.Encodable(g))
              && (Gsup.Encoded(g).Success? ==>
                    (Gsup.Decoded(Gsup.Encoded(g).value) == Success(g) <==> GsupRoundTrip.TuplesFit(g.authTuples)))
              && OnMap(w.proxy, Map.Encoded(m).value, now)
                 == if Gsup.Encoded(g).Success?
                    then w.proxy.Without(w.requests[i].tid).Reply(Gsup.Encoded(g).value, w.requests[i].client, w.requests[i].tid)
                    else w.proxy.Without(w.requests[i].tid)
  {
    hide Map.Encoded, Map.Decoded, Gsup.Encoded, Gsup.Decoded, MapToGsup, InContext, MapRoundTrip.Carried, OperationOf,
         RecordsPending, AnswersDelivered, RepliesAccounted, ReplyMeant, AnswersKind, GsupRoundTrip.Encodable,
         GsupRoundTrip.TuplesFit, OnAnswer;
    var r, c := w.requests[i], MapRoundTrip.Carried(m);
    assert OnRecord(r, w.proxy);
    PendingIsRequest(r, w.proxy);
    AnswerOnWire(m, r);
    ConvertedReply(w.proxy, r, m);
    MapRoundTrip.RoundTripExact(m);
    assert OnMap(w.proxy, Map.Encoded(m).value, now) == OnAnswer(w.proxy, c);
    Pipeline.AnswerIs(w.proxy, c);
    Pipeline.AnswerableExactly(InContext(w.proxy, c));
    var g := MapToGsup(InContext(w.proxy, c)).value;
    hide Pipeline.Answerable;
    ReplyWire(g, r, m);
    assert ReplyMeant(g, r, m);
  }

  lemma {:induction false} AnswerOnWire(m: MapMessage, r: Request)
    requires AnswersKind(m, r)
    ensures !m.component.Invoke? && MapRoundTrip.Faithful(m) && !MapRoundTrip.Carried(m).component.Invoke?
  {
  }

  lemma {:induction false} ReplyWire(g: GsupMessage, r: Request, m: MapMessage)
    requires ReplyMeant(g, r, m)
    ensures Gsup.Encoded(g).Success? <==> GsupRoundTrip.Encodable(g)
    ensures Gsup.Encoded(g).Success? ==>
              (Gsup.Decoded(Gsup.Encoded(g).value) == Success(g) <==> GsupRoundTrip.TuplesFit(g.authTuples))
  {
    hide Gsup.Encoded, Gsup.Decoded, CarriesVectors, GsupRoundTrip.TupleEncodable;
    GsupRoundTrip.EncodesExactly(g);
    GsupRoundTrip.RoundTripExact(g);
  }

  /** The request that an operation answered by the HLR belongs to. */
  function AnsweredRequest(op: MapOperation): Option<MessageType> {
    if op == 23 then Some(0x04) else if op == 56 then Some(0x08) else if op == 67 then Some(0x0C)
    else if op == 7 then Some(0x10) else if op == 3 then Some(0x1C) else None
  }

  /** Any answer, also one that names another operation than was asked for: the reply has the code of the
      operation the answer has in context; of any other operation there is no reply. */
  lemma {:induction false} AnyAnswerMeaning(s: ProxyState, payload: Bytes, m: MapMessage, now: int)
    requires Map.Decoded(payload) == Success(m) && !m.component.Invoke?
    ensures m.transactionId !in s.Transactions() ==> OnMap(s, payload, now) == s
    ensures m.transactionId in s.Transactions() ==>
              var tid, c, g := m.transactionId, InContext(s, m), MapToGsup(InContext(s, m));
              && c.component == m.component
              && c.imsi == (if m.imsi == "" then s.Transactions()[tid].imsi else m.imsi)
              && c.operation == (if m.operation == 0xFF && tid in s.pendingOps then s.pendingOps[tid] else m.operation)
              && (AnsweredRequest(c.operation).None? ==> OnMap(s, payload, now) == s.Without(tid))
              && (AnsweredRequest(c.operation).Some? ==>
                    && g.Success? && g.value.imsi == c.imsi
                    && (g.value.mtype as int)
                       == (AnsweredRequest(c.operation).value as int) + (if m.component.ReturnError? then 1 else 2))
  {
    hide Map.Decoded, Gsup.Encoded, Tuples;
    assert OnMap(s, payload, now) == OnAnswer(s, m);
    hide OnMap;
  }
}

/** The four GSUP/MAP conversions and the request/answer type tables. */
module Converter {
  import opened Basics
  import opened GsupMessages
  import opened MapMessages

  /** `gsupToMap`: a request from the SGSN as a MAP Invoke; a DeleteDataRequest is rejected. */
  function GsupToMap(g: GsupMessage, tid: U32, invokeId: Byte): Result<MapMessage> {
    var m := BLANK_MAP.(transactionId := tid, invokeId := invokeId, component := Invoke, imsi := g.imsi);
    if g.mtype == SEND_AUTH_INFO_REQUEST then
      Success(m.(operation := SEND_AUTHENTICATION_INFO, numRequestedVectors := Some(g.numVectorsRequested.GetOr(1))))
    else if g.mtype == UPDATE_LOCATION_REQUEST then Success(m.(operation := UPDATE_GPRS_LOCATION))
    else if g.mtype == LOCATION_CANCEL_REQUEST then
      Success(m.(operation := CANCEL_LOCATION, cancelType := g.cancelType))
    else if g.mtype == INSERT_DATA_REQUEST then
      Success(m.(operation := INSERT_SUBSCRIBER_DATA, msisdn := g.msisdn))
    else if g.mtype == PURGE_MS_REQUEST then Success(m.(operation := PURGE_MS))
    else Failure
  }

  function TripletTuple(t: Triplet): AuthTuple {
    AuthTuple(t.rand, t.sres, t.kc, None, None, None, None)
  }

  function QuintupletTuple(q: Quintuplet): AuthTuple {
    AuthTuple(q.rand, [], [], Some(q.ik), Some(q.ck), Some(q.autn), Some(q.xres))
  }

  /** All triplets, then all quintuplets, in order. */
  function Tuples(ts: seq<Triplet>, qs: seq<Quintuplet>): seq<AuthTuple> {
    seq(|ts|, i requires 0 <= i < |ts| => TripletTuple(ts[i]))
    + seq(|qs|, i requires 0 <= i < |qs| => QuintupletTuple(qs[i]))
  }

  function ErrorType(op: MapOperation): Result<MessageType> {
    if op == SEND_AUTHENTICATION_INFO then Success(SEND_AUTH_INFO_ERROR)
    else if op == UPDATE_GPRS_LOCATION then Success(UPDATE_LOCATION_ERROR)
    else if op == CANCEL_LOCATION then Success(LOCATION_CANCEL_ERROR)
    else if op == INSERT_SUBSCRIBER_DATA then Success(INSERT_DATA_ERROR)
    else if op == PURGE_MS then Success(PURGE_MS_ERROR)
    else Failure
  }

  /** `mapToGsup`: an answer from the HLR as a GSUP result or error. */
  function MapToGsup(m: MapMessage): Result<GsupMessage> {
    var g := BLANK_GSUP.(imsi := m.imsi);
    if m.component.ReturnError? then
      var t :- ErrorType(m.operation);
      Success(g.(mtype := t, cause := m.errorCode))
    else if m.operation == SEND_AUTHENTICATION_INFO then
      Success(g.(mtype := SEND_AUTH_INFO_RESULT, authTuples := Tuples(m.triplets, m.quintuplets)))
    else if m.operation == UPDATE_GPRS_LOCATION then
      Success(g.(mtype := UPDATE_LOCATION_RESULT, hlrNumber := m.hlrNumber))
    else if m.operation == CANCEL_LOCATION then Success(g.(mtype := LOCATION_CANCEL_RESULT))
    else if m.operation == INSERT_SUBSCRIBER_DATA then Success(g.(mtype := INSERT_DATA_RESULT))
    else if m.operation == PURGE_MS then Success(g.(mtype := PURGE_MS_RESULT, freezePtmsi := m.freezePtmsi))
    else Failure
  }

  /** The two push loops of `mapToGsup`. */
  method CollectTuples(ts: seq<Triplet>, qs: seq<Quintuplet>) returns (tuples: seq<AuthTuple>)
    ensures tuples == Tuples(ts, qs)
  {
    tuples := [];
    for i := 0 to |ts|
      invariant |tuples| == i && forall j :: 0 <= j < i ==> tuples[j] == TripletTuple(ts[j])
    {
      tuples := tuples + [TripletTuple(ts[i])];
    }
    for i := 0 to |qs|
      invariant |tuples| == |ts| + i
      invariant forall j :: 0 <= j < |ts| ==> tuples[j] == TripletTuple(ts[j])
      invariant forall j :: 0 <= j < i ==> tuples[|ts| + j] == QuintupletTuple(qs[j])
    {
      tuples := tuples + [QuintupletTuple(qs[i])];
    }
    assert forall j :: 0 <= j < |tuples| ==> tuples[j] == Tuples(ts, qs)[j];
  }

  method ConvertMapToGsup(m: MapMessage) returns (r: Result<GsupMessage>)
    ensures r == MapToGsup(m)
  {
    if !m.component.ReturnError? && m.operation == SEND_AUTHENTICATION_INFO {
      var tuples := CollectTuples(m.triplets, m.quintuplets);
      r := Success(BLANK_GSUP.(imsi := m.imsi, mtype := SEND_AUTH_INFO_RESULT, authTuples := tuples));
    } else {
      r := MapToGsup(m);
    }
  }

  /** `mapInvokeToGsup`: an Invoke from the HLR as a GSUP request. */
  function MapInvokeToGsup(m: MapMessage): Result<GsupMessage> {
    var g := BLANK_GSUP.(imsi := m.imsi);
    if !m.component.Invoke? then Failure
    else if m.operation == INSERT_SUBSCRIBER_DATA then Success(g.(mtype := INSERT_DATA_REQUEST, msisdn := m.msisdn))
    else if m.operation == CANCEL_LOCATION then Success(g.(mtype := LOCATION_CANCEL_REQUEST, cancelType := m.cancelType))
    else if m.operation == DELETE_SUBSCRIBER_DATA then Success(g.(mtype := DELETE_DATA_REQUEST))
    else if m.operation == PURGE_MS then Success(g.(mtype := PURGE_MS_REQUEST))
    else Failure
  }

  predicate IsHlrInitiatedError(t: MessageType) {
    t == INSERT_DATA_ERROR || t == LOCATION_CANCEL_ERROR || t == DELETE_DATA_ERROR || t == PURGE_MS_ERROR
  }

  predicate IsHlrInitiated(t: MessageType) {
    || IsHlrInitiatedError(t)
    || t == INSERT_DATA_RESULT || t == LOCATION_CANCEL_RESULT || t == DELETE_DATA_RESULT || t == PURGE_MS_RESULT
  }

  /** `gsupToMapResult`: the SGSN's answer as a MAP ReturnResult or ReturnError. */
  function GsupToMapResult(g: GsupMessage, tid: U32, invokeId: Byte): Result<MapMessage> {
    var m := BLANK_MAP.(transactionId := tid, invokeId := invokeId, imsi := g.imsi,
                       component := if IsHlrInitiatedError(g.mtype) then ReturnError else ReturnResult,
                       errorCode := if IsHlrInitiatedError(g.mtype) then g.cause else None);
    if g.mtype == INSERT_DATA_RESULT || g.mtype == INSERT_DATA_ERROR then
      Success(m.(operation := INSERT_SUBSCRIBER_DATA))
    else if g.mtype == LOCATION_CANCEL_RESULT || g.mtype == LOCATION_CANCEL_ERROR then
      Success(m.(operation := CANCEL_LOCATION))
    else if g.mtype == DELETE_DATA_RESULT || g.mtype == DELETE_DATA_ERROR then
      Success(m.(operation := DELETE_SUBSCRIBER_DATA))
    else if g.mtype == PURGE_MS_RESULT || g.mtype == PURGE_MS_ERROR then Success(m.(operation := PURGE_MS))
    else Failure
  }

  function ExpectedResult(req: MessageType): Result<MessageType> {
    if req == SEND_AUTH_INFO_REQUEST then Success(SEND_AUTH_INFO_RESULT)
    else if req == UPDATE_LOCATION_REQUEST then Success(UPDATE_LOCATION_RESULT)
    else if req == LOCATION_CANCEL_REQUEST then Success(LOCATION_CANCEL_RESULT)
    else if req == INSERT_DATA_REQUEST then Success(INSERT_DATA_RESULT)
    else if req == PURGE_MS_REQUEST then Success(PURGE_MS_RESULT)
    else Failure
  }

  function ExpectedError(req: MessageType): Result<MessageType> {
    if req == SEND_AUTH_INFO_REQUEST then Success(SEND_AUTH_INFO_ERROR)
    else if req == UPDATE_LOCATION_REQUEST then Success(UPDATE_LOCATION_ERROR)
    else if req == LOCATION_CANCEL_REQUEST then Success(LOCATION_CANCEL_ERROR)
    else if req == INSERT_DATA_REQUEST then Success(INSERT_DATA_ERROR)
    else if req == PURGE_MS_REQUEST then Success(PURGE_MS_ERROR)
    else Failure
  }

  /** The conversions agree with the type tables: an answer that bears the operation a request was
      converted to comes out as the result or the error expected for that request. */
  lemma {:induction false} AnswersAreExpected(g: GsupMessage, tid: U32, invokeId: Byte, answer: MapMessage)
    requires GsupToMap(g, tid, invokeId).Success?
    requires answer.operation == GsupToMap(g, tid, invokeId).value.operation
    ensures MapToGsup(answer).Success?
    ensures ExpectedResult(g.mtype).Success? && ExpectedError(g.mtype).Success?
    ensures MapToGsup(answer).value.mtype
         == if answer.component.ReturnError? then ExpectedError(g.mtype).value else ExpectedResult(g.mtype).value
    ensures MapToGsup(answer).value.imsi == answer.imsi
  {
  }

  /** The requests that are forwarded are exactly those with an expected answer. */
  lemma {:induction false} ConvertibleRequests(g: GsupMessage, tid: U32, invokeId: Byte)
    ensures GsupToMap(g, tid, invokeId).Success? <==> ExpectedResult(g.mtype).Success?
    ensures ExpectedError(g.mtype).Success? <==> ExpectedResult(g.mtype).Success?
  {
  }
}

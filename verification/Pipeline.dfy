/** End-to-end answers: what the SGSN reads when the HLR answers, disconnects or stays silent. */
module Pipeline {
  import opened Basics
  import opened Bcd
  import opened Ber
  import opened GsupMessages
  import opened MapMessages
  import opened Converter
  import opened Transactions
  import opened ProxyModel
  import opened BulkReplies
  import opened ProxySafety
  import Gsup = GsupCodec
  import Map = MapCodec
  import GsupRoundTrip
  import MapRoundTrip

  // -------------------------------------------------------------- HLR answers

  /** An answer to the request: any component but an Invoke, under its id. */
  predicate Answers(m: MapMessage, r: Request) { !m.component.Invoke? && m.transactionId == r.tid }

  /** The wire names no operation, or the one that was asked for. */
  predicate NamesNoOther(m: MapMessage, r: Request) {
    m.operation == UNKNOWN_OPERATION || Success(m.operation) == OperationOf(r.kind)
  }

  /** The answer type a request expects: its error for a ReturnError, its result otherwise. */
  function ExpectedAnswer(m: MapMessage, r: Request): Result<MessageType> {
    if m.component.ReturnError? then ExpectedError(r.kind) else ExpectedResult(r.kind)
  }

  /** Operation recovery, exactly: in every safe state, an answer to a pending request is converted
      to the type expected for that request if and only if the wire names no operation or the right
      one; the IMSI is that of the wire, or else that of the request. */
  lemma {:induction false} OperationRecovered(w: World, i: nat, m: MapMessage)
    requires Safe(w) && i < |w.requests| && w.requests[i].fate.Pending? && Answers(m, w.requests[i])
    ensures m.transactionId in w.proxy.Transactions()
    ensures var r, g := w.requests[i], MapToGsup(InContext(w.proxy, m));
            && ExpectedAnswer(m, r).Success?
            && (g.Success? && Success(g.value.mtype) == ExpectedAnswer(m, r) <==> NamesNoOther(m, r))
            && (g.Success? ==> g.value.imsi == if m.imsi == "" then r.imsi else m.imsi)
  {
    hide RecordsPending, AnswersDelivered, RepliesAccounted, OperationOf, MapToGsup, ExpectedAnswer, InContext;
    var r := w.requests[i];
    assert OnRecord(r, w.proxy);
    ContextOf(w.proxy, m);
    TypesMatch(r.kind, w.proxy.pendingOps[r.tid], InContext(w.proxy, m));
    SameComponent(InContext(w.proxy, m), m, r);
  }

  lemma {:induction false} ContextOf(s: ProxyState, m: MapMessage)
    requires m.transactionId in s.Transactions() && m.transactionId in s.pendingOps
    ensures var c := InContext(s, m);
            && c.component == m.component
            && c.imsi == (if m.imsi == "" then s.Transactions()[m.transactionId].imsi else m.imsi)
            && c.operation == if m.operation == UNKNOWN_OPERATION then s.pendingOps[m.transactionId] else m.operation
  {
  }

  lemma {:induction false} SameComponent(c: MapMessage, m: MapMessage, r: Request)
    requires c.component == m.component
    ensures ExpectedAnswer(c, r) == ExpectedAnswer(m, r)
  {
  }

  /** The converted type is the expected one exactly for the operation the request was sent as. */
  lemma {:induction false} TypesMatch(kind: MessageType, op: MapOperation, c: MapMessage)
    requires OperationOf(kind) == Success(op) && !c.component.Invoke?
    ensures op != UNKNOWN_OPERATION
    ensures forall r: Request :: r.kind == kind ==>
              && ExpectedAnswer(c, r).Success?
              && (MapToGsup(c).Success? && Success(MapToGsup(c).value.mtype) == ExpectedAnswer(c, r) <==> c.operation == op)
    ensures MapToGsup(c).Success? ==> MapToGsup(c).value.imsi == c.imsi
  {
  }

  lemma {:induction false} KnownOperations(kind: MessageType)
    ensures OperationOf(kind).Success? ==>
              OperationOf(kind).value != UNKNOWN_OPERATION && OperationOf(kind).value != DELETE_SUBSCRIBER_DATA
  {
  }

  /** In a safe state every stored operation is the one some pending request was converted to, and so
      never Unknown or DeleteSubscriberData. */
  lemma {:induction false} StoredOperations(w: World)
    requires Safe(w)
    ensures forall t :: t in w.proxy.pendingOps ==>
              && (exists i :: PendingAt(w.requests, i, t) && OperationOf(w.requests[i].kind) == Success(w.proxy.pendingOps[t]))
              && w.proxy.pendingOps[t] != UNKNOWN_OPERATION && w.proxy.pendingOps[t] != DELETE_SUBSCRIBER_DATA
  {
    hide OperationOf, AnswersDelivered, RepliesAccounted;
    forall t | t in w.proxy.pendingOps
      ensures exists i :: PendingAt(w.requests, i, t) && OperationOf(w.requests[i].kind) == Success(w.proxy.pendingOps[t])
      ensures w.proxy.pendingOps[t] != UNKNOWN_OPERATION && w.proxy.pendingOps[t] != DELETE_SUBSCRIBER_DATA
    {
      var i :| PendingAt(w.requests, i, t);
      assert OnRecord(w.requests[i], w.proxy);
      KnownOperations(w.requests[i].kind);
    }
  }

  /** The reply the SGSN reads is exactly the converted answer, if that fits the wire. */
  lemma {:induction false} ReplyIsReadable(s: ProxyState, m: MapMessage)
    requires m.transactionId in s.Transactions()
    requires MapToGsup(InContext(s, m)).Success? && GsupRoundTrip.FitsWire(MapToGsup(InContext(s, m)).value)
    ensures var g, tid := MapToGsup(InContext(s, m)).value, m.transactionId;
            && Gsup.Encoded(g).Success? && Gsup.Decoded(Gsup.Encoded(g).value) == Success(g)
            && OnAnswer(s, m) == s.Without(tid).Reply(Gsup.Encoded(g).value, s.Transactions()[tid].clientContext, tid)
  {
    hide MapToGsup, Gsup.Encoded, Gsup.Decoded, InContext;
    GsupRoundTrip.RoundTripExact(MapToGsup(InContext(s, m)).value);
    hide GsupRoundTrip.FitsWire;
  }

  predicate CarriableImsi(imsi: string) { imsi == "" || Gsup.EncodableImsi(imsi) }

  predicate VectorsShort(m: MapMessage) {
    && (forall i :: 0 <= i < |m.triplets| ==>
          |m.triplets[i].rand| <= 255 && |m.triplets[i].sres| <= 255 && |m.triplets[i].kc| <= 255)
    && (forall i :: 0 <= i < |m.quintuplets| ==>
          && |m.quintuplets[i].rand| <= 255 && |m.quintuplets[i].xres| <= 255 && |m.quintuplets[i].ck| <= 255
          && |m.quintuplets[i].ik| <= 255 && |m.quintuplets[i].autn| <= 255)
  }

  /** The answers that can be put into GSUP: one of the five operations, an IMSI of 1 to 15 digits or
      none, and no HLR number or vector component of a result over 255 octets. */
  predicate Answerable(c: MapMessage) {
    && ErrorType(c.operation).Success? && CarriableImsi(c.imsi)
    && (!c.component.ReturnError? && c.operation == UPDATE_GPRS_LOCATION ==> GsupRoundTrip.Short(c.hlrNumber))
    && (!c.component.ReturnError? && c.operation == SEND_AUTHENTICATION_INFO ==> VectorsShort(c))
  }

  lemma {:induction false} TuplesEncodable(m: MapMessage)
    ensures VectorsShort(m) <==> forall i :: 0 <= i < |Tuples(m.triplets, m.quintuplets)| ==>
                                   GsupRoundTrip.TupleEncodable(Tuples(m.triplets, m.quintuplets)[i])
  {
    var ts, qs, all := m.triplets, m.quintuplets, Tuples(m.triplets, m.quintuplets);
    assert forall i :: 0 <= i < |ts| ==> all[i] == TripletTuple(ts[i]);
    assert forall i :: 0 <= i < |qs| ==> all[|ts| + i] == QuintupletTuple(qs[i]);
  }

  /** These are exactly the answers that convert and encode. */
  lemma {:induction false} AnswerableExactly(c: MapMessage)
    ensures Answerable(c) <==> MapToGsup(c).Success? && Gsup.Encoded(MapToGsup(c).value).Success?
  {
    hide Gsup.Encoded, Tuples, VectorsShort, CarriableImsi, GsupRoundTrip.TupleEncodable;
    var g := MapToGsup(c);
    if g.Success? {
      GsupRoundTrip.EncodesExactly(g.value);
      TuplesEncodable(c);
      ImsiMeans(c.imsi);
    }
  }

  lemma {:induction false} ImsiMeans(imsi: string)
    ensures CarriableImsi(imsi) <==> imsi == "" || Gsup.EncodableImsi(imsi)
  {
  }

  /** What the proxy does with an answer, in closed form. */
  lemma {:induction false} AnswerIs(s: ProxyState, m: MapMessage)
    requires m.transactionId in s.Transactions()
    ensures var tid, c := m.transactionId, InContext(s, m);
            && (Answerable(c) ==> MapToGsup(c).Success? && Gsup.Encoded(MapToGsup(c).value).Success?)
            && OnAnswer(s, m) == if !Answerable(c) then s.Without(tid)
                                 else s.Without(tid).Reply(Gsup.Encoded(MapToGsup(c).value).value,
                                                           s.Transactions()[tid].clientContext, tid)
  {
    hide Gsup.Encoded, MapToGsup, InContext, Answerable;
    AnswerableExactly(InContext(s, m));
  }

  /** A ReturnError for a pending request, from its wire form to the GSUP error at the right client,
      with the error code as cause, 34 when there is none. Only an IMSI of more than 15 digits, which
      the decoder lets in, cannot be sent back. */
  lemma {:induction false} ErrorEndToEnd(w: World, i: nat, e: MapMessage, data: Bytes, now: int)
    requires Safe(w) && i < |w.requests| && w.requests[i].fate.Pending?
    requires e.component.ReturnError? && e.transactionId == w.requests[i].tid && Map.Encoded(e) == Success(data)
    ensures ExpectedError(w.requests[i].kind).Success?
    ensures var r := w.requests[i];
            var g := BLANK_GSUP.(mtype := ExpectedError(r.kind).value, imsi := r.imsi,
                                 cause := Some(e.errorCode.GetOr(SYSTEM_FAILURE)));
            if |r.imsi| <= 15 then
              && Gsup.Encoded(g).Success? && Gsup.Decoded(Gsup.Encoded(g).value) == Success(g)
              && OnMap(w.proxy, data, now) == w.proxy.Without(r.tid).Reply(Gsup.Encoded(g).value, r.client, r.tid)
            else OnMap(w.proxy, data, now) == w.proxy.Without(r.tid)
  {
    hide Map.Encoded, Map.Decoded, Gsup.Encoded, Gsup.Decoded, OperationOf, OnAnswer, MapToGsup, InContext,
         ExpectedError,
         ExpectedResult, RecordsPending, AnswersDelivered, RepliesAccounted, GsupRoundTrip.FitsWire, Answerable;
    var r := w.requests[i];
    assert OnRecord(r, w.proxy);
    MapRoundTrip.RoundTripExact(e);
    var m := MapRoundTrip.Carried(e);
    assert OnMap(w.proxy, data, now) == OnAnswer(w.proxy, m);
    OperationRecovered(w, i, m);
    ErrorConverted(w.proxy, m, r.imsi);
    AnswerIs(w.proxy, m);
    var g := MapToGsup(InContext(w.proxy, m)).value;
    GsupRoundTrip.RoundTripExact(g);
  }

  lemma {:induction false} ErrorConverted(s: ProxyState, m: MapMessage, imsi: string)
    requires m.component.ReturnError? && m.transactionId in s.Transactions() && MapToGsup(InContext(s, m)).Success?
    requires MapToGsup(InContext(s, m)).value.imsi == imsi && AllDigits(imsi)
    ensures var g := MapToGsup(InContext(s, m)).value;
            && g == BLANK_GSUP.(mtype := g.mtype, imsi := imsi, cause := m.errorCode)
            && (GsupRoundTrip.FitsWire(g) <==> |imsi| <= 15)
            && (Answerable(InContext(s, m)) <==> |imsi| <= 15)
  {
  }

  /** A vector result for a pending id, from its wire form to the reply: all triplets and then all
      quintuplets, in order, with the expected response of a quintuplet as `res`. It is sent if and
      only if the pending IMSI and every component fit, and then read back as it was if and only if,
      besides, the elements of each tuple total at most 255 octets. */
  lemma {:induction false} VectorsEndToEnd(s: ProxyState, m: MapMessage, now: int)
    requires m.component.ReturnResult? && m.operation == SEND_AUTHENTICATION_INFO
    requires m.transactionId in s.Transactions()
    ensures var tid := m.transactionId;
            var tx := s.Transactions()[tid];
            var g := BLANK_GSUP.(mtype := SEND_AUTH_INFO_RESULT, imsi := tx.imsi,
                                 authTuples := Tuples(m.triplets, m.quintuplets));
            var reply := Gsup.Encoded(g);
            && (reply.Success? <==> CarriableImsi(tx.imsi) && VectorsShort(m))
            && (reply.Success? ==>
                  (Gsup.Decoded(reply.value) == Success(g) <==> GsupRoundTrip.TuplesFit(g.authTuples)))
            && (Map.Encoded(m).Success? ==>
                  OnMap(s, Map.Encoded(m).value, now)
                  == if reply.Failure? then s.Without(tid) else s.Without(tid).Reply(reply.value, tx.clientContext, tid))
  {
    hide Map.Encoded, Map.Decoded, Gsup.Encoded, Gsup.Decoded, Tuples, OnAnswer, VectorsShort, CarriableImsi,
         Answerable,
         GsupRoundTrip.TupleEncodable, GsupRoundTrip.FitsWire, GsupRoundTrip.TuplesFit, GsupRoundTrip.Encodable;
    var c := MapRoundTrip.Carried(m);
    if Map.Encoded(m).Success? { MapRoundTrip.RoundTripExact(m); }
    assert Map.Encoded(m).Success? ==> OnMap(s, Map.Encoded(m).value, now) == OnAnswer(s, c);
    AnswerIs(s, c);
    var g := BLANK_GSUP.(mtype := SEND_AUTH_INFO_RESULT, imsi := s.Transactions()[m.transactionId].imsi,
                         authTuples := Tuples(m.triplets, m.quintuplets));
    assert MapToGsup(InContext(s, c)) == Success(g);
    AnswerableExactly(InContext(s, c));
    GsupRoundTrip.EncodesExactly(g);
    GsupRoundTrip.RoundTripExact(g);
    hide MapToGsup, InContext;
    VectorMessageFits(g, m);
  }

  lemma {:induction false} VectorMessageFits(g: GsupMessage, m: MapMessage)
    requires g == BLANK_GSUP.(mtype := g.mtype, imsi := g.imsi, authTuples := Tuples(m.triplets, m.quintuplets))
    ensures GsupRoundTrip.Encodable(g) <==> CarriableImsi(g.imsi) && VectorsShort(m)
    ensures GsupRoundTrip.FitsWire(g) <==> CarriableImsi(g.imsi) && GsupRoundTrip.TuplesFit(g.authTuples)
  {
    hide VectorsShort, Tuples, GsupRoundTrip.TupleEncodable;
    TuplesEncodable(m);
  }

  // ------------------------------------------------------------- bulk failure

  /** The error sent for a request that gets no answer: the expected type, its IMSI and no cause. */
  function FailureMessage(r: Request): GsupMessage
    requires ExpectedError(r.kind).Success?
  {
    BLANK_GSUP.(mtype := ExpectedError(r.kind).value, imsi := r.imsi)
  }

  lemma {:induction false} FailureIsReadable(r: Request, op: MapOperation)
    requires OperationOf(r.kind) == Success(op) && AllDigits(r.imsi) && |r.imsi| <= 15
    ensures ExpectedError(r.kind).Success? && ErrorData(r.tid, op, r.imsi).Success?
    ensures Gsup.Decoded(ErrorData(r.tid, op, r.imsi).value) == Success(FailureMessage(r))
  {
    hide Gsup.Encoded, Gsup.Decoded;
    AnswersAreExpected(BLANK_GSUP.(mtype := r.kind), 0, 0, ErrorMessage(r.tid, op, r.imsi));
    GsupRoundTrip.RoundTripExact(FailureMessage(r));
    assert MapToGsup(ErrorMessage(r.tid, op, r.imsi)) == Success(FailureMessage(r));
  }

  /** The send that tells the client of a request that it failed. */
  ghost predicate TellsFailure(send: SgsnSend, r: Request) {
    && send.to == r.client && send.answers == Some(r.tid)
    && ExpectedError(r.kind).Success? && Gsup.Decoded(send.data) == Success(FailureMessage(r))
  }

  /** What the step to `s'` sends tells, one by one, the requests pending under the given ids. */
  ghost predicate ToldOneByOne(w: World, s': ProxyState, tids: seq<U32>) {
    && w.proxy.sgsnOut <= s'.sgsnOut && |s'.sgsnOut| == |w.proxy.sgsnOut| + |tids|
    && forall i, n :: 0 <= i < |tids| && PendingAt(w.requests, n, tids[i]) ==>
         TellsFailure(s'.sgsnOut[|w.proxy.sgsnOut| + i], w.requests[n])
  }

  /** The records whose IMSI the encoder accepts in an error. */
  function ShortOnes(txs: seq<PendingTransaction>): seq<PendingTransaction> {
    if txs == [] then []
    else ShortOnes(txs[..|txs| - 1]) + if |txs[|txs| - 1].imsi| <= 15 then [txs[|txs| - 1]] else []
  }

  lemma {:induction false} LongImsi(tid: U32, op: MapOperation, imsi: string)
    requires |imsi| > 15
    ensures ErrorData(tid, op, imsi).Failure?
  {
    hide Gsup.Encoded;
    var g := MapToGsup(ErrorMessage(tid, op, imsi));
    if g.Success? { GsupRoundTrip.EncodesExactly(g.value); }
  }

  lemma {:induction false} ShortOnesOf(txs: seq<PendingTransaction>)
    ensures forall x :: x in ShortOnes(txs) <==> x in txs && |x.imsi| <= 15
    ensures DistinctIds(txs) ==> DistinctIds(ShortOnes(txs))
  {
    if txs != [] {
      var init, last := txs[..|txs| - 1], txs[|txs| - 1];
      ShortOnesOf(init);
      assert txs == init + [last];
      if DistinctIds(txs) {
        var y := ShortOnes(init);
        forall i | 0 <= i < |y| ensures y[i].mapTransactionId != last.mapTransactionId {
          assert y[i] in init;
        }
      }
    }
  }

  /** Records whose error cannot be encoded get no reply, and make no difference to the others. */
  lemma {:induction false} RepliesSkipLong(ops: map<U32, MapOperation>, txs: seq<PendingTransaction>)
    requires forall i :: 0 <= i < |txs| ==> txs[i].mapTransactionId in ops
    ensures forall i :: 0 <= i < |ShortOnes(txs)| ==> ShortOnes(txs)[i].mapTransactionId in ops
    ensures RepliesTo(ops, txs) == RepliesTo(ops, ShortOnes(txs))
  {
    hide ErrorData;
    ShortOnesOf(txs);
    var all := ShortOnes(txs);
    forall i | 0 <= i < |all| ensures all[i].mapTransactionId in ops {
      assert all[i] in all;
    }
    if txs != [] {
      var init, last := txs[..|txs| - 1], txs[|txs| - 1];
      RepliesSkipLong(ops, init);
      if |last.imsi| > 15 {
        LongImsi(last.mapTransactionId, ops[last.mapTransactionId], last.imsi);
        assert RepliesTo(ops, init) + [] == RepliesTo(ops, init);
        assert all == ShortOnes(init);
      } else {
        assert all == ShortOnes(init) + [last] && all[..|all| - 1] == ShortOnes(init);
      }
    }
  }

  /** These records are on file, with their operations. */
  ghost predicate OnFile(s: ProxyState, txs: seq<PendingTransaction>) {
    forall x :: x in txs ==>
      && x.mapTransactionId in s.Transactions() && x == s.Transactions()[x.mapTransactionId]
      && x.mapTransactionId in s.pendingOps
  }

  lemma {:induction false} RepliesTell(w: World, s': ProxyState, txs: seq<PendingTransaction>)
    requires Safe(w) && OnFile(w.proxy, txs) && forall x :: x in txs ==> |x.imsi| <= 15
    requires s'.sgsnOut == w.proxy.sgsnOut + RepliesTo(w.proxy.pendingOps, txs)
    ensures ToldOneByOne(w, s', IdList(txs))
  {
    var ops, tids := w.proxy.pendingOps, IdList(txs);
    hide AnswersDelivered, RepliesAccounted, OperationOf, ErrorData, RepliesTo, Gsup.Decoded;
    assert forall i :: 0 <= i < |txs| ==> txs[i] in txs;
    forall i | 0 <= i < |txs|
      ensures ErrorData(txs[i].mapTransactionId, ops[txs[i].mapTransactionId], txs[i].imsi).Success?
    {
      var n :| PendingAt(w.requests, n, tids[i]);
      assert OnRecord(w.requests[n], w.proxy);
      FailureIsReadable(w.requests[n], ops[tids[i]]);
    }
    RepliesToAll(ops, txs);
    forall i, n | 0 <= i < |tids| && PendingAt(w.requests, n, tids[i])
      ensures TellsFailure(s'.sgsnOut[|w.proxy.sgsnOut| + i], w.requests[n])
    {
      assert OnRecord(w.requests[n], w.proxy);
      FailureIsReadable(w.requests[n], ops[w.requests[n].tid]);
      assert s'.sgsnOut[|w.proxy.sgsnOut| + i] == RepliesTo(ops, txs)[i];
    }
  }

  /** Of the records that are ended, those with a short IMSI are told one by one. */
  lemma {:induction false} ShortOnesTold(w: World, s': ProxyState, txs: seq<PendingTransaction>)
    requires Safe(w) && OnFile(w.proxy, txs)
    requires s'.sgsnOut == w.proxy.sgsnOut + RepliesTo(w.proxy.pendingOps, txs)
    ensures ToldOneByOne(w, s', IdList(ShortOnes(txs)))
  {
    hide Safe, RepliesTo, ToldOneByOne, IdList, ShortOnes;
    assert forall i :: 0 <= i < |txs| ==> txs[i] in txs;
    ShortOnesOf(txs);
    RepliesSkipLong(w.proxy.pendingOps, txs);
    RepliesTell(w, s', ShortOnes(txs));
  }

  function IdList(txs: seq<PendingTransaction>): seq<U32> {
    seq(|txs|, i requires 0 <= i < |txs| => txs[i].mapTransactionId)
  }

  lemma {:induction false} IdsOfList(txs: seq<PendingTransaction>)
    ensures |IdList(txs)| == |txs|
    ensures forall t :: t in IdList(txs) <==> exists x :: x in txs && x.mapTransactionId == t
    ensures DistinctIds(txs) ==> forall i, j :: 0 <= i < j < |txs| ==> IdList(txs)[i] != IdList(txs)[j]
  {
    forall t | exists x :: x in txs && x.mapTransactionId == t ensures t in IdList(txs) {
      var x :| x in txs && x.mapTransactionId == t;
      var i :| 0 <= i < |txs| && txs[i] == x;
      assert IdList(txs)[i] == t;
    }
    forall t | t in IdList(txs) ensures exists x :: x in txs && x.mapTransactionId == t {
      var i :| 0 <= i < |txs| && IdList(txs)[i] == t;
      assert txs[i] in txs;
    }
  }

  /** The ids of a list of records on file, cut down to the short IMSIs. */
  lemma {:induction false} ToldIds(s: ProxyState, txs: seq<PendingTransaction>)
    requires OnFile(s, txs) && DistinctIds(txs)
    ensures var told := IdList(ShortOnes(txs));
            && (forall t :: t in told <==> t in Ids(txs) && t in s.Transactions() && |s.Transactions()[t].imsi| <= 15)
            && (forall i, j :: 0 <= i < j < |told| ==> told[i] != told[j])
  {
    hide ShortOnes, IdList;
    ShortOnesOf(txs);
    IdsOfList(ShortOnes(txs));
    var told := IdList(ShortOnes(txs));
    forall t
      ensures t in told <==> t in Ids(txs) && t in s.Transactions() && |s.Transactions()[t].imsi| <= 15
    {
      if t in told {
        var x :| x in ShortOnes(txs) && x.mapTransactionId == t;
        var i :| 0 <= i < |txs| && txs[i] == x;
        assert txs[i].mapTransactionId in Ids(txs);
      }
      if t in Ids(txs) && t in s.Transactions() && |s.Transactions()[t].imsi| <= 15 {
        var i :| 0 <= i < |txs| && txs[i].mapTransactionId == t;
        assert txs[i] in ShortOnes(txs);
      }
    }
  }

  /** The requests a disconnect tells: those whose IMSI fits an error. */
  function ToldOnDisconnect(s: ProxyState, order: seq<U32>): seq<U32>
    requires forall t :: t in order ==> t in s.Transactions()
  {
    IdList(ShortOnes(Records(s.Transactions(), order)))
  }

  /** When the HLR link drops, each pending request whose IMSI has at most 15 digits is told of its
      failure exactly once, at its own client, nothing else is sent, and both tables end up empty. */
  lemma {:induction false} DisconnectExact(w: World, order: seq<U32>)
    requires Safe(w) && Enumerates(order, w.proxy.pendingOps.Keys)
    ensures forall t :: t in order <==> t in w.proxy.Transactions()
    ensures forall n, t :: PendingAt(w.requests, n, t) ==> t in order
    ensures var s, s', told := w.proxy, OnHlrDisconnect(w.proxy, order), ToldOnDisconnect(w.proxy, order);
            && s'.Transactions() == map[] && s'.pendingOps == map[]
            && ToldOneByOne(w, s', told)
            && (forall t :: t in told <==> t in s.Transactions() && |s.Transactions()[t].imsi| <= 15)
            && (forall i, j :: 0 <= i < j < |told| ==> told[i] != told[j])
  {
    var s := w.proxy;
    hide OnHlrDisconnect, RecordsPending, AnswersDelivered, RepliesAccounted, ToldOneByOne, RepliesTo, OperationOf,
         ShortOnes, IdList;
    DisconnectIs(s, order);
    var txs := Records(s.Transactions(), order);
    assert OnFile(s, txs);
    assert DistinctIds(txs);
    ShortOnesTold(w, OnHlrDisconnect(s, order), txs);
    ToldIds(s, txs);
    assert forall t :: t in order ==> t in Ids(txs) by { RecordIds(s.Transactions(), order); }
    PendingAreOnFile(w);
  }

  lemma {:induction false} RecordIds(ts: map<U32, PendingTransaction>, order: seq<U32>)
    requires SelfKeyed(ts) && forall t :: t in order ==> t in ts
    ensures forall t :: t in order ==> t in Ids(Records(ts, order))
  {
    forall t | t in order ensures t in Ids(Records(ts, order)) {
      var i :| 0 <= i < |order| && order[i] == t;
      assert Records(ts, order)[i].mapTransactionId == t;
    }
  }

  lemma {:induction false} PendingAreOnFile(w: World)
    requires Safe(w)
    ensures forall n, t :: PendingAt(w.requests, n, t) ==> t in w.proxy.Transactions() && t in w.proxy.pendingOps
  {
    hide RecordsPending, AnswersDelivered, RepliesAccounted, OperationOf;
    forall n, t | PendingAt(w.requests, n, t)
      ensures t in w.proxy.Transactions() && t in w.proxy.pendingOps
    {
      assert OnRecord(w.requests[n], w.proxy);
    }
  }

  /** The operations of the transactions that do not expire. */
  function UnexpiredOps(s: ProxyState, now: int): map<U32, MapOperation> {
    map t | t in s.pendingOps && t in Unexpired(s.Transactions(), now, s.tm.timeout) :: s.pendingOps[t]
  }

  lemma {:induction false} ExpiryTables(s: ProxyState, now: int, order: seq<U32>)
    requires TablesAgree(s) && Enumerates(order, s.Transactions().Keys)
    ensures var s' := OnExpireSgsn(s, now, order);
            && s'.Transactions() == Unexpired(s.Transactions(), now, s.tm.timeout)
            && s'.pendingOps == UnexpiredOps(s, now)
  {
    hide OnExpireSgsn, RepliesTo;
    ExpiryIs(s, now, order);
    StaleRecords(s.Transactions(), order, now, s.tm.timeout);
    hide StaleAmong;
  }

  /** The requests an expiry tells: the stale ones whose IMSI fits an error. */
  function ToldOnExpiry(s: ProxyState, now: int, order: seq<U32>): seq<U32>
    requires forall t :: t in order ==> t in s.Transactions()
  {
    IdList(ShortOnes(StaleAmong(s.Transactions(), order, now, s.tm.timeout)))
  }

  /** Expiry removes exactly the requests older than the timeout from both tables and leaves the rest
      as they are; those of them whose IMSI has at most 15 digits are told, each exactly once and at
      its own client, and nothing else is sent. */
  lemma {:induction false} ExpiryExact(w: World, now: int, order: seq<U32>)
    requires Safe(w) && Enumerates(order, w.proxy.Transactions().Keys)
    ensures var s, s', told := w.proxy, OnExpireSgsn(w.proxy, now, order), ToldOnExpiry(w.proxy, now, order);
            && s'.Transactions() == Unexpired(s.Transactions(), now, s.tm.timeout)
            && s'.pendingOps == UnexpiredOps(s, now)
            && ToldOneByOne(w, s', told)
            && (forall t :: t in told <==> t in s.Transactions() && Stale(s.Transactions()[t], now, s.tm.timeout)
                                           && |s.Transactions()[t].imsi| <= 15)
            && (forall i, j :: 0 <= i < j < |told| ==> told[i] != told[j])
  {
    hide PendingOnRecord, RecordsPending, AnswersDelivered, RepliesAccounted, ToldOneByOne, UnexpiredOps, Unexpired;
    hide OnExpireSgsn, RepliesTo, StaleAmong, ShortOnes, IdList;
    var s := w.proxy;
    var txs := StaleAmong(s.Transactions(), order, now, s.tm.timeout);
    ExpiryTables(s, now, order);
    ExpiryIs(s, now, order);
    StaleRecords(s.Transactions(), order, now, s.tm.timeout);
    assert OnFile(s, txs);
    ShortOnesTold(w, OnExpireSgsn(s, now, order), txs);
    ToldIds(s, txs);
  }
}

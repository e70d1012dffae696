/** The proxy as a step machine: what each handler does to the tables and sends on each side. */
module ProxyModel {
  import opened Basics
  import opened GsupMessages
  import opened MapMessages
  import opened Converter
  import opened Transactions
  import Gsup = GsupCodec
  import Map = MapCodec

  /** An Invoke of the HLR that waits for the SGSN's answer. */
  datatype HlrTxEntry = HlrTxEntry(mapTransactionId: U32, mapInvokeId: Byte, mapOperation: MapOperation, createdAt: int)

  /** A send on the SGSN transport: to one session, or to all of them when `to` is 0. Beside what the
      transport is given, the log keeps the transaction the send answers. */
  datatype SgsnSend = SgsnSend(data: Bytes, to: ClientId, answers: Option<U32>)

  /** A send on the HLR transport, with the IMSI whose Invoke it answers, if it is an answer. */
  datatype HlrSend = HlrSend(data: Bytes, answers: Option<string>)

  datatype ProxyState = ProxyState(
    tm: TmState,
    pendingOps: map<U32, MapOperation>,
    hlrTx: map<string, HlrTxEntry>,
    sgsnOut: seq<SgsnSend>,
    hlrOut: seq<HlrSend>)
  {
    function Transactions(): map<U32, PendingTransaction> { tm.transactions }

    /** Both tables without one transaction. */
    function Without(tid: U32): ProxyState {
      this.(tm := tm.(transactions := tm.transactions - {tid}), pendingOps := pendingOps - {tid})
    }

    function Reply(data: Bytes, to: ClientId, tid: U32): ProxyState {
      this.(sgsnOut := sgsnOut + [SgsnSend(data, to, Some(tid))])
    }
  }

  function Start(timeout: int): ProxyState {
    ProxyState(TmState(1, 1, timeout, map[]), map[], map[], [], [])
  }

  // ------------------------------------------------------------ GSUP from SGSN

  /** A request: an id is allocated before the conversion is attempted, and given back if it fails. */
  function OnRequest(s: ProxyState, g: GsupMessage, client: ClientId, now: int): ProxyState {
    var tid := NextTid(s.tm.tidCounter);
    var s1 := s.(tm := Allocated(s.tm, g.imsi, client, now));
    var converted := GsupToMap(g, tid, s1.tm.transactions[tid].mapInvokeId);
    if converted.Failure? then s1.(tm := s1.tm.(transactions := s1.tm.transactions - {tid}))
    else Forward(s1, tid, converted.value.operation, Map.Encoded(converted.value))
  }

  function Forward(s: ProxyState, tid: U32, op: MapOperation, encoded: Result<Bytes>): ProxyState {
    if encoded.Failure? then s.Without(tid)
    else s.(pendingOps := s.pendingOps[tid := op], hlrOut := s.hlrOut + [HlrSend(encoded.value, None)])
  }

  /** The SGSN's answer to an Invoke of the HLR, matched by IMSI. */
  function OnHlrResponse(s: ProxyState, g: GsupMessage): ProxyState {
    if g.imsi !in s.hlrTx then s
    else
      var entry := s.hlrTx[g.imsi];
      var s1 := s.(hlrTx := s.hlrTx - {g.imsi});
      var converted := GsupToMapResult(g, entry.mapTransactionId, entry.mapInvokeId);
      if converted.Failure? then s1 else AnswerHlr(s1, g.imsi, Map.Encoded(converted.value))
  }

  function AnswerHlr(s: ProxyState, imsi: string, encoded: Result<Bytes>): ProxyState {
    if encoded.Failure? then s else s.(hlrOut := s.hlrOut + [HlrSend(encoded.value, Some(imsi))])
  }

  function OnGsupMessage(s: ProxyState, g: GsupMessage, client: ClientId, now: int): ProxyState {
    if IsHlrInitiated(g.mtype) then OnHlrResponse(s, g) else OnRequest(s, g, client, now)
  }

  function OnGsup(s: ProxyState, payload: Bytes, client: ClientId, now: int): ProxyState {
    var g := Gsup.Decoded(payload);
    if g.Failure? then s else OnGsupMessage(s, g.value, client, now)
  }

  // ------------------------------------------------------------- MAP from HLR

  /** The answer as the converter sees it: IMSI and operation filled in from the pending tables. */
  function InContext(s: ProxyState, m: MapMessage): MapMessage
    requires m.transactionId in s.Transactions()
  {
    var m1 := if m.imsi == "" then m.(imsi := s.Transactions()[m.transactionId].imsi) else m;
    if m1.operation == UNKNOWN_OPERATION && m.transactionId in s.pendingOps
    then m1.(operation := s.pendingOps[m.transactionId]) else m1
  }

  function OnAnswer(s: ProxyState, m: MapMessage): ProxyState {
    var tid := m.transactionId;
    if tid !in s.Transactions() then s
    else
      var g := MapToGsup(InContext(s, m));
      if g.Failure? then s.Without(tid)
      else Settle(s, tid, Gsup.Encoded(g.value))
  }

  function Settle(s: ProxyState, tid: U32, encoded: Result<Bytes>): ProxyState
    requires tid in s.Transactions()
  {
    if encoded.Failure? then s.Without(tid)
    else s.Without(tid).Reply(encoded.value, s.Transactions()[tid].clientContext, tid)
  }

  /** An Invoke of the HLR: a later one for the same IMSI replaces an earlier one. */
  function OnHlrInvoke(s: ProxyState, m: MapMessage, now: int): ProxyState {
    var g := MapInvokeToGsup(m);
    if g.Failure? then s
    else
      var entry := HlrTxEntry(m.transactionId, m.invokeId, m.operation, now);
      Broadcast(s, g.value.imsi, entry, Gsup.Encoded(g.value))
  }

  function Broadcast(s: ProxyState, imsi: string, entry: HlrTxEntry, encoded: Result<Bytes>): ProxyState {
    if encoded.Failure? then s.(hlrTx := s.hlrTx - {imsi})
    else s.(hlrTx := s.hlrTx[imsi := entry], sgsnOut := s.sgsnOut + [SgsnSend(encoded.value, 0, None)])
  }

  function OnMapMessage(s: ProxyState, m: MapMessage, now: int): ProxyState {
    if m.component.Invoke? then OnHlrInvoke(s, m, now) else OnAnswer(s, m)
  }

  function OnMap(s: ProxyState, payload: Bytes, now: int): ProxyState {
    var m := Map.Decoded(payload);
    if m.Failure? then s else OnMapMessage(s, m.value, now)
  }

  // ------------------------------------------------------- expiry and disconnect

  function UnexpiredHlr(h: map<string, HlrTxEntry>, now: int, timeout: int): map<string, HlrTxEntry> {
    map i | i in h && now - h[i].createdAt <= timeout :: h[i]
  }

  function OnExpireHlr(s: ProxyState, now: int, timeout: int): ProxyState {
    s.(hlrTx := UnexpiredHlr(s.hlrTx, now, timeout))
  }

  /** The error message synthesised for a request that will get no answer. */
  function ErrorMessage(tid: U32, op: MapOperation, imsi: string): MapMessage {
    BLANK_MAP.(transactionId := tid, operation := op, component := ReturnError, imsi := imsi)
  }

  function ErrorData(tid: U32, op: MapOperation, imsi: string): Result<Bytes> {
    var g :- MapToGsup(ErrorMessage(tid, op, imsi));
    Gsup.Encoded(g)
  }

  function NackWith(s: ProxyState, tid: U32, data: Result<Bytes>): ProxyState
    requires tid in s.Transactions()
  {
    var client := s.Transactions()[tid].clientContext;
    var s1 := s.(tm := s.tm.(transactions := s.tm.transactions - {tid}));
    if data.Failure? then s1 else s1.Reply(data.value, client, tid)
  }

  function Nack(s: ProxyState, tid: U32): ProxyState
    requires tid in s.pendingOps
  {
    if tid !in s.Transactions() then s
    else NackWith(s, tid, ErrorData(tid, s.pendingOps[tid], s.Transactions()[tid].imsi))
  }

  /** The loop over the pending operations, in iteration order. */
  function NackEach(s: ProxyState, order: seq<U32>): (s': ProxyState)
    requires forall t :: t in order ==> t in s.pendingOps
    ensures s'.pendingOps == s.pendingOps
  {
    if order == [] then s else Nack(NackEach(s, order[..|order| - 1]), order[|order| - 1])
  }

  function OnHlrDisconnect(s: ProxyState, order: seq<U32>): ProxyState
    requires forall t :: t in order ==> t in s.pendingOps
  {
    NackEach(s, order).(pendingOps := map[])
  }

  function ExpireWith(s: ProxyState, tx: PendingTransaction, data: Result<Bytes>): ProxyState {
    var tid := tx.mapTransactionId;
    var s1 := s.(pendingOps := s.pendingOps - {tid});
    if data.Failure? then s1 else s1.Reply(data.value, tx.clientContext, tid)
  }

  function Expire(s: ProxyState, tx: PendingTransaction): ProxyState {
    var tid := tx.mapTransactionId;
    if tid !in s.pendingOps then s
    else ExpireWith(s, tx, ErrorData(tid, s.pendingOps[tid], tx.imsi))
  }

  function ExpireEach(s: ProxyState, txs: seq<PendingTransaction>): ProxyState {
    if txs == [] then s else Expire(ExpireEach(s, txs[..|txs| - 1]), txs[|txs| - 1])
  }

  function OnExpireSgsn(s: ProxyState, now: int, order: seq<U32>): ProxyState
    requires forall t :: t in order ==> t in s.Transactions()
  {
    var expired := StaleAmong(s.Transactions(), order, now, s.tm.timeout);
    ExpireEach(s.(tm := s.tm.(transactions := Unexpired(s.Transactions(), now, s.tm.timeout))), expired)
  }
}

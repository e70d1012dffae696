/** The proxy object: its handlers update the tables in place and compute the steps of `ProxyModel`. */
module Proxies {
  import opened Basics
  import opened GsupMessages
  import opened MapMessages
  import opened Converter
  import opened Transactions
  import opened ProxyModel
  import Gsup = GsupCodec
  import Map = MapCodec

  lemma {:induction false} UnexpiredIs(all: map<string, HlrTxEntry>, kept: map<string, HlrTxEntry>, now: int,
      timeout: int)
    requires forall i :: i in kept <==> i in all && now - all[i].createdAt <= timeout
    requires forall i :: i in kept ==> kept[i] == all[i]
    ensures kept == UnexpiredHlr(all, now, timeout)
  {
  }

  class Proxy {
    const txMgr: TransactionManager
    var pendingOps: map<U32, MapOperation>
    var hlrTx: map<string, HlrTxEntry>
    var sgsnOut: seq<SgsnSend>
    var hlrOut: seq<HlrSend>

    ghost function State(): ProxyState
      reads this, txMgr
    {
      ProxyState(txMgr.State(), pendingOps, hlrTx, sgsnOut, hlrOut)
    }

    constructor (txTimeout: int)
      ensures State() == Start(txTimeout) && fresh(txMgr)
    {
      txMgr := new TransactionManager(txTimeout);
      pendingOps, hlrTx, sgsnOut, hlrOut := map[], map[], [], [];
    }

    method HandleGsupPayload(payload: Bytes, client: ClientId, now: int)
      modifies this, txMgr
      ensures State() == OnGsup(old(State()), payload, client, now)
    {
      hide Gsup.Decoded, Map.Encoded;
      var decoded := Gsup.Decode(payload);
      if decoded.Failure? { return; }
      if IsHlrInitiated(decoded.value.mtype) {
        HandleGsupHlrResponse(decoded.value);
      } else {
        HandleRequest(decoded.value, client, now);
      }
    }

    method HandleRequest(g: GsupMessage, client: ClientId, now: int)
      modifies this, txMgr
      ensures State() == OnRequest(old(State()), g, client, now)
    {
      hide Map.Encoded, GsupToMap;
      var tid := txMgr.Allocate(g.imsi, client, now);
      var pending := txMgr.Find(tid);
      var converted := GsupToMap(g, tid, pending.value.mapInvokeId);
      if converted.Failure? {
        txMgr.Complete(tid);
        return;
      }
      pendingOps := pendingOps[tid := converted.value.operation];
      var data := Map.Encode(converted.value);
      if data.Failure? {
        txMgr.Complete(tid);
        pendingOps := pendingOps - {tid};
        return;
      }
      hlrOut := hlrOut + [HlrSend(data.value, None)];
    }

    method HandleMapPayload(payload: Bytes, now: int)
      modifies this, txMgr
      ensures State() == OnMap(old(State()), payload, now)
    {
      hide Map.Decoded, Gsup.Encoded;
      var decoded := Map.Decode(payload);
      if decoded.Failure? { return; }
      if decoded.value.component.Invoke? {
        HandleHlrInitiated(decoded.value, now);
      } else {
        HandleAnswer(decoded.value);
      }
    }

    method HandleAnswer(m: MapMessage)
      modifies this, txMgr
      ensures State() == OnAnswer(old(State()), m)
    {
      hide Gsup.Encoded, MapToGsup;
      var tid := m.transactionId;
      var pending := txMgr.Find(tid);
      if pending.None? { return; }
      var msg := m;
      if msg.imsi == "" { msg := msg.(imsi := pending.value.imsi); }
      if msg.operation == UNKNOWN_OPERATION {
        if tid in pendingOps { msg := msg.(operation := pendingOps[tid]); }
      }
      var converted := ConvertMapToGsup(msg);
      if converted.Failure? {
        txMgr.Complete(tid);
        pendingOps := pendingOps - {tid};
        return;
      }
      pendingOps := pendingOps - {tid};
      txMgr.Complete(tid);
      var data := Gsup.Encode(converted.value);
      if data.Failure? { return; }
      sgsnOut := sgsnOut + [SgsnSend(data.value, pending.value.clientContext, Some(tid))];
    }

    method HandleHlrInitiated(m: MapMessage, now: int)
      modifies this
      ensures State() == OnHlrInvoke(old(State()), m, now)
    {
      hide Gsup.Encoded, MapInvokeToGsup;
      var converted := MapInvokeToGsup(m);
      if converted.Failure? { return; }
      var imsi := converted.value.imsi;
      hlrTx := hlrTx[imsi := HlrTxEntry(m.transactionId, m.invokeId, m.operation, now)];
      var data := Gsup.Encode(converted.value);
      if data.Failure? {
        hlrTx := hlrTx - {imsi};
        return;
      }
      sgsnOut := sgsnOut + [SgsnSend(data.value, 0, None)];
    }

    method HandleGsupHlrResponse(g: GsupMessage)
      modifies this
      ensures State() == OnHlrResponse(old(State()), g)
    {
      hide Map.Encoded, GsupToMapResult;
      if g.imsi !in hlrTx { return; }
      var entry := hlrTx[g.imsi];
      var converted := GsupToMapResult(g, entry.mapTransactionId, entry.mapInvokeId);
      hlrTx := hlrTx - {g.imsi};
      if converted.Failure? { return; }
      var data := Map.Encode(converted.value);
      if data.Failure? { return; }
      hlrOut := hlrOut + [HlrSend(data.value, Some(g.imsi))];
    }

    /** Walks the HLR table in its iteration order, erasing as it goes. */
    method ExpireHlrTransactions(now: int, timeout: int, order: seq<string>)
      requires Enumerates(order, hlrTx.Keys)
      modifies this`hlrTx
      ensures State() == OnExpireHlr(old(State()), now, timeout)
    {
      hide UnexpiredHlr;
      ghost var all := hlrTx;
      for k := 0 to |order|
        invariant forall i :: i in hlrTx <==> i in all && (i in order[..k] ==> now - all[i].createdAt <= timeout)
        invariant forall i :: i in hlrTx ==> hlrTx[i] == all[i]
      {
        assert order[..k + 1] == order[..k] + [order[k]];
        assert order[k] !in order[..k];
        if now - hlrTx[order[k]].createdAt > timeout { hlrTx := hlrTx - {order[k]}; }
      }
      assert order[..|order|] == order;
      UnexpiredIs(all, hlrTx, now, timeout);
    }

    method EncodeError(tid: U32, op: MapOperation, imsi: string) returns (data: Result<Bytes>)
      ensures data == ErrorData(tid, op, imsi)
    {
      hide Gsup.Encoded, MapToGsup;
      var g :- ConvertMapToGsup(ErrorMessage(tid, op, imsi));
      data := Gsup.Encode(g);
    }

    method NackAllPendingTransactions(order: seq<U32>)
      requires Enumerates(order, pendingOps.Keys)
      modifies this, txMgr
      ensures State() == OnHlrDisconnect(old(State()), order)
    {
      hide ErrorData;
      for i := 0 to |order|
        invariant State() == NackEach(old(State()), order[..i])
      {
        assert order[..i + 1][..i] == order[..i];
        var tid := order[i];
        var pending := txMgr.Find(tid);
        if pending.Some? {
          var data := EncodeError(tid, pendingOps[tid], pending.value.imsi);
          if data.Success? {
            sgsnOut := sgsnOut + [SgsnSend(data.value, pending.value.clientContext, Some(tid))];
          }
          txMgr.Complete(tid);
        }
      }
      assert order[..|order|] == order;
      pendingOps := map[];
    }

    method ExpireSgsnTransactions(now: int, order: seq<U32>)
      requires Enumerates(order, txMgr.transactions.Keys)
      modifies this, txMgr
      ensures State() == OnExpireSgsn(old(State()), now, order)
    {
      hide ErrorData;
      var expired := txMgr.ExpireStale(now, order);
      ghost var s1 := State();
      for i := 0 to |expired|
        invariant State() == ExpireEach(s1, expired[..i])
      {
        assert expired[..i + 1][..i] == expired[..i];
        var tx := expired[i];
        if tx.mapTransactionId in pendingOps {
          var data := EncodeError(tx.mapTransactionId, pendingOps[tx.mapTransactionId], tx.imsi);
          if data.Success? {
            sgsnOut := sgsnOut + [SgsnSend(data.value, tx.clientContext, Some(tx.mapTransactionId))];
          }
          pendingOps := pendingOps - {tx.mapTransactionId};
        }
      }
      assert expired[..|expired|] == expired;
    }
  }
}

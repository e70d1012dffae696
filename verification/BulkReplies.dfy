/** What the two bulk handlers do, in closed form: disconnect and expiry. */
module BulkReplies {
  import opened Basics
  import opened MapMessages
  import opened Transactions
  import opened ProxyModel

  /** The error replies for a list of records, skipping those that cannot be encoded. */
  function RepliesTo(ops: map<U32, MapOperation>, txs: seq<PendingTransaction>): seq<SgsnSend>
    requires forall i :: 0 <= i < |txs| ==> txs[i].mapTransactionId in ops
  {
    if txs == [] then []
    else
      var init, tx := txs[..|txs| - 1], txs[|txs| - 1];
      var tid := tx.mapTransactionId;
      RepliesTo(ops, init) + ReplyWith(ErrorData(tid, ops[tid], tx.imsi), tx.clientContext, tid)
  }

  function ReplyWith(data: Result<Bytes>, to: ClientId, tid: U32): seq<SgsnSend> {
    if data.Failure? then [] else [SgsnSend(data.value, to, Some(tid))]
  }

  /** Records with pairwise different ids. */
  predicate DistinctIds(txs: seq<PendingTransaction>) {
    forall i, j :: 0 <= i < j < |txs| ==> txs[i].mapTransactionId != txs[j].mapTransactionId
  }

  function Ids(txs: seq<PendingTransaction>): set<U32> {
    set i | 0 <= i < |txs| :: txs[i].mapTransactionId
  }

  /** Every record is filed under its own id. */
  predicate SelfKeyed(ts: map<U32, PendingTransaction>) {
    forall t :: t in ts ==> ts[t].mapTransactionId == t
  }

  function Records(ts: map<U32, PendingTransaction>, order: seq<U32>): seq<PendingTransaction>
    requires forall t :: t in order ==> t in ts
  {
    seq(|order|, i requires 0 <= i < |order| => ts[order[i]])
  }

  function Elements(order: seq<U32>): set<U32> { set t | t in order }

  /** The state after the listed transactions have been removed and answered. */
  function Nacked(s: ProxyState, order: seq<U32>): ProxyState
    requires forall t :: t in order ==> t in s.pendingOps && t in s.Transactions()
    requires SelfKeyed(s.Transactions())
  {
    s.(tm := s.tm.(transactions := s.Transactions() - Elements(order)),
       sgsnOut := s.sgsnOut + RepliesTo(s.pendingOps, Records(s.Transactions(), order)))
  }

  lemma {:induction false} NackedSnoc(s: ProxyState, init: seq<U32>, last: U32)
    requires forall t :: t in init + [last] ==> t in s.pendingOps && t in s.Transactions()
    requires SelfKeyed(s.Transactions()) && last !in init
    ensures forall t :: t in init ==> t in s.pendingOps && t in s.Transactions()
    ensures Nack(Nacked(s, init), last) == Nacked(s, init + [last])
  {
    hide ErrorData, RepliesTo, ReplyWith, Elements;
    assert forall t :: t in init ==> t in init + [last];
    assert last in init + [last];
    RepliesSnoc(s.Transactions(), s.pendingOps, init, last);
    var ts: map<U32, PendingTransaction> := s.Transactions();
    ElementsSnoc(init, last);
    var kept: map<U32, PendingTransaction> := ts - Elements(init);
    var left: map<U32, PendingTransaction> := kept - {last};
    assert left == s.Transactions() - Elements(init + [last]);
    var r0 := RepliesTo(s.pendingOps, Records(ts, init));
    var data := ErrorData(last, s.pendingOps[last], ts[last].imsi);
    assert s.sgsnOut + (r0 + ReplyWith(data, ts[last].clientContext, last))
        == s.sgsnOut + r0 + ReplyWith(data, ts[last].clientContext, last);
    ReplyMeans(Nacked(s, init), data, last);
  }

  lemma {:induction false} ElementsSnoc(init: seq<U32>, last: U32)
    ensures Elements(init + [last]) == Elements(init) + {last}
    ensures forall t :: t in Elements(init) <==> t in init
  {
  }

  lemma {:induction false} ReplyMeans(s: ProxyState, data: Result<Bytes>, tid: U32)
    requires tid in s.Transactions()
    ensures NackWith(s, tid, data)
         == s.(tm := s.tm.(transactions := s.tm.transactions - {tid}),
               sgsnOut := s.sgsnOut + ReplyWith(data, s.Transactions()[tid].clientContext, tid))
  {
    assert s.sgsnOut + [] == s.sgsnOut;
  }

  lemma {:induction false} RepliesSnoc(ts: map<U32, PendingTransaction>, ops: map<U32, MapOperation>,
      init: seq<U32>, last: U32)
    requires forall t :: t in init + [last] ==> t in ops && t in ts
    requires forall t :: t in init ==> t in ops && t in ts
    requires SelfKeyed(ts) && last in ops && last in ts
    ensures RepliesTo(ops, Records(ts, init + [last]))
         == RepliesTo(ops, Records(ts, init)) + ReplyWith(ErrorData(last, ops[last], ts[last].imsi), ts[last].clientContext, last)
  {
    hide ErrorData, ReplyWith;
    var recs := Records(ts, init + [last]);
    assert recs[..|recs| - 1] == Records(ts, init) && recs[|recs| - 1] == ts[last];
  }

  /** Disconnect: every listed transaction is removed and gets one reply. */
  lemma {:induction false} NackEachIs(s: ProxyState, order: seq<U32>)
    requires forall t :: t in order ==> t in s.pendingOps && t in s.Transactions()
    requires forall i, j :: 0 <= i < j < |order| ==> order[i] != order[j]
    requires SelfKeyed(s.Transactions())
    ensures NackEach(s, order) == Nacked(s, order)
  {
    if order == [] {
      assert s.Transactions() - Elements(order) == s.Transactions();
      assert s.sgsnOut + [] == s.sgsnOut;
    } else {
      var init, last := order[..|order| - 1], order[|order| - 1];
      assert order == init + [last];
      hide Nack, Nacked;
      NackEachIs(s, init);
      NackedSnoc(s, init, last);
    }
  }

  /** Expiry: every listed record loses its pending operation and gets one reply. */
  lemma {:induction false} ExpireEachIs(s: ProxyState, txs: seq<PendingTransaction>)
    requires forall i :: 0 <= i < |txs| ==> txs[i].mapTransactionId in s.pendingOps
    requires DistinctIds(txs)
    ensures ExpireEach(s, txs)
         == s.(pendingOps := s.pendingOps - Ids(txs), sgsnOut := s.sgsnOut + RepliesTo(s.pendingOps, txs))
  {
    hide ErrorData;
    if txs == [] {
      assert s.pendingOps - Ids(txs) == s.pendingOps;
      assert s.sgsnOut + [] == s.sgsnOut;
    } else {
      var init, last := txs[..|txs| - 1], txs[|txs| - 1];
      ExpireEachIs(s, init);
      assert Ids(txs) == Ids(init) + {last.mapTransactionId};
      assert last.mapTransactionId !in Ids(init);
    }
  }

  /** Each reply answers one of the records and goes to its client. */
  ghost predicate RepliesMatch(replies: seq<SgsnSend>, txs: seq<PendingTransaction>) {
    && (forall k :: 0 <= k < |replies| ==>
          exists j :: 0 <= j < |txs| && replies[k].answers == Some(txs[j].mapTransactionId)
                      && replies[k].to == txs[j].clientContext)
    && (forall k, l :: 0 <= k < l < |replies| ==> replies[k].answers != replies[l].answers)
  }

  lemma {:induction false} RepliesToMatch(ops: map<U32, MapOperation>, txs: seq<PendingTransaction>)
    requires forall i :: 0 <= i < |txs| ==> txs[i].mapTransactionId in ops
    requires DistinctIds(txs)
    ensures RepliesMatch(RepliesTo(ops, txs), txs)
  {
    hide ErrorData;
    if txs != [] {
      var init := txs[..|txs| - 1];
      RepliesToMatch(ops, init);
      var r0, r := RepliesTo(ops, init), RepliesTo(ops, txs);
      forall k | 0 <= k < |r|
        ensures exists j :: 0 <= j < |txs| && r[k].answers == Some(txs[j].mapTransactionId)
                            && r[k].to == txs[j].clientContext
      {
        if k < |r0| {
          var j :| 0 <= j < |init| && r0[k].answers == Some(init[j].mapTransactionId)
                   && r0[k].to == init[j].clientContext;
          assert txs[j] == init[j];
        } else {
          assert r[k].answers == Some(txs[|txs| - 1].mapTransactionId);
        }
      }
    }
  }

  /** When every error can be encoded, the i-th record gets exactly the i-th reply. */
  lemma {:induction false} RepliesToAll(ops: map<U32, MapOperation>, txs: seq<PendingTransaction>)
    requires forall i :: 0 <= i < |txs| ==> txs[i].mapTransactionId in ops
    requires forall i :: 0 <= i < |txs| ==>
               ErrorData(txs[i].mapTransactionId, ops[txs[i].mapTransactionId], txs[i].imsi).Success?
    ensures |RepliesTo(ops, txs)| == |txs|
    ensures forall i :: 0 <= i < |txs| ==>
              RepliesTo(ops, txs)[i]
              == SgsnSend(ErrorData(txs[i].mapTransactionId, ops[txs[i].mapTransactionId], txs[i].imsi).value,
                          txs[i].clientContext, Some(txs[i].mapTransactionId))
  {
    hide ErrorData;
    if txs != [] {
      var init := txs[..|txs| - 1];
      RepliesToAll(ops, init);
      forall i | 0 <= i < |txs| - 1
        ensures RepliesTo(ops, txs)[i] == RepliesTo(ops, init)[i]
      {
      }
    }
  }

  /** The expired records are exactly the stale ones, each once. */
  lemma {:induction false} StaleRecords(ts: map<U32, PendingTransaction>, order: seq<U32>, now: int, timeout: int)
    requires forall t :: t in order ==> t in ts
    requires forall i, j :: 0 <= i < j < |order| ==> order[i] != order[j]
    requires SelfKeyed(ts)
    ensures var x := StaleAmong(ts, order, now, timeout);
            && DistinctIds(x)
            && (forall i :: 0 <= i < |x| ==> x[i].mapTransactionId in order && x[i] == ts[x[i].mapTransactionId]
                                             && Stale(x[i], now, timeout))
            && (forall t :: t in Ids(x) <==> t in order && Stale(ts[t], now, timeout))
  {
    if order != [] {
      var init, last := order[..|order| - 1], order[|order| - 1];
      assert order == init + [last] && last !in init;
      StaleRecords(ts, init, now, timeout);
      var x0, x := StaleAmong(ts, init, now, timeout), StaleAmong(ts, order, now, timeout);
      if Stale(ts[last], now, timeout) {
        assert x == x0 + [ts[last]];
        assert forall i :: 0 <= i < |x0| ==> x[i] == x0[i];
        assert Ids(x) == Ids(x0) + {last} by {
          assert x[|x0|].mapTransactionId == last;
          forall t | t in Ids(x0) ensures t in Ids(x) {
            var i :| 0 <= i < |x0| && x0[i].mapTransactionId == t;
            assert x[i].mapTransactionId == t;
          }
        }
      } else {
        assert x == x0;
      }
    }
  }
}

/** In-flight transactions towards the HLR: identifiers, records and expiry. */
module Transactions {
  import opened Basics

  datatype PendingTransaction = PendingTransaction(
    mapTransactionId: U32, mapInvokeId: Byte, imsi: string, clientContext: ClientId, createdAt: int)

  /** The contents of a transaction manager. */
  datatype TmState = TmState(
    tidCounter: U32, invokeIdCounter: Byte, timeout: int, transactions: map<U32, PendingTransaction>)

  function NextTid(counter: U32): U32 { if counter == 0 then 1 else counter }
  function TidCounterAfter(counter: U32): U32 { (NextTid(counter) + 1) % 0x1_0000_0000 }
  function NextInvokeId(counter: Byte): Byte { if counter > 127 then 1 else counter }
  function InvokeIdCounterAfter(counter: Byte): Byte { (NextInvokeId(counter) + 1) % 0x100 }

  /** `allocate`: the record is emplaced, so a live transaction with the same id is kept instead. */
  function Allocated(s: TmState, imsi: string, client: ClientId, now: int): TmState {
    var tid := NextTid(s.tidCounter);
    var t := PendingTransaction(tid, NextInvokeId(s.invokeIdCounter), imsi, client, now);
    TmState(TidCounterAfter(s.tidCounter), InvokeIdCounterAfter(s.invokeIdCounter), s.timeout,
            if tid in s.transactions then s.transactions else s.transactions[tid := t])
  }

  predicate Stale(t: PendingTransaction, now: int, timeout: int) { now - t.createdAt > timeout }

  /** The stale records among the given ids, in the order of the ids. */
  function StaleAmong(ts: map<U32, PendingTransaction>, order: seq<U32>, now: int,
      timeout: int): seq<PendingTransaction>
    requires forall k :: k in order ==> k in ts
  {
    if order == [] then []
    else
      var last := order[|order| - 1];
      StaleAmong(ts, order[..|order| - 1], now, timeout)
      + if Stale(ts[last], now, timeout) then [ts[last]] else []
  }

  function Unexpired(ts: map<U32, PendingTransaction>, now: int, timeout: int): map<U32, PendingTransaction> {
    map t | t in ts && !Stale(ts[t], now, timeout) :: ts[t]
  }

  lemma {:induction false} StaleUpTo(ts: map<U32, PendingTransaction>, order: seq<U32>, i: nat, now: int, timeout: int)
    requires i <= |order| && forall k :: k in order ==> k in ts
    ensures i == 0 ==> StaleAmong(ts, order[..i], now, timeout) == []
    ensures i < |order| ==>
              StaleAmong(ts, order[..i + 1], now, timeout)
              == StaleAmong(ts, order[..i], now, timeout) + if Stale(ts[order[i]], now, timeout) then [ts[order[i]]] else []
  {
    if i < |order| { assert order[..i + 1][..i] == order[..i]; }
  }

  class TransactionManager {
    var tidCounter: U32
    var invokeIdCounter: Byte
    const timeout: int
    var transactions: map<U32, PendingTransaction>

    ghost function State(): TmState
      reads this
    {
      TmState(tidCounter, invokeIdCounter, timeout, transactions)
    }

    constructor (timeout: int)
      ensures State() == TmState(1, 1, timeout, map[])
    {
      this.timeout := timeout;
      tidCounter, invokeIdCounter, transactions := 1, 1, map[];
    }

    method TakeTid() returns (tid: U32)
      modifies this`tidCounter
      ensures tid == NextTid(old(tidCounter)) && tidCounter == TidCounterAfter(old(tidCounter))
    {
      if tidCounter == 0 { tidCounter := 1; }
      tid := tidCounter;
      tidCounter := (tidCounter + 1) % 0x1_0000_0000;
    }

    method TakeInvokeId() returns (id: Byte)
      modifies this`invokeIdCounter
      ensures id == NextInvokeId(old(invokeIdCounter))
      ensures invokeIdCounter == InvokeIdCounterAfter(old(invokeIdCounter))
    {
      if invokeIdCounter > 127 { invokeIdCounter := 1; }
      id := invokeIdCounter;
      invokeIdCounter := (invokeIdCounter + 1) % 0x100;
    }

    method Allocate(imsi: string, client: ClientId, now: int) returns (tid: U32)
      modifies this
      ensures tid == NextTid(old(tidCounter)) && tid in transactions
      ensures State() == Allocated(old(State()), imsi, client, now)
    {
      tid := TakeTid();
      var invokeId := TakeInvokeId();
      var t := PendingTransaction(tid, invokeId, imsi, client, now);
      if tid !in transactions { transactions := transactions[tid := t]; }
    }

    method Find(tid: U32) returns (t: Option<PendingTransaction>)
      ensures t == if tid in transactions then Some(transactions[tid]) else None
    {
      t := if tid in transactions then Some(transactions[tid]) else None;
    }

    method Complete(tid: U32)
      modifies this`transactions
      ensures transactions == old(transactions) - {tid}
    {
      transactions := transactions - {tid};
    }

    /** Walks the table in its iteration order, which the language leaves open, erasing as it goes. */
    method ExpireStale(now: int, order: seq<U32>) returns (expired: seq<PendingTransaction>)
      requires Enumerates(order, transactions.Keys)
      modifies this`transactions
      ensures expired == StaleAmong(old(transactions), order, now, timeout)
      ensures transactions == Unexpired(old(transactions), now, timeout)
    {
      hide StaleAmong;
      ghost var all := transactions;
      expired := [];
      StaleUpTo(all, order, 0, now, timeout);
      for i := 0 to |order|
        invariant expired == StaleAmong(all, order[..i], now, timeout)
        invariant forall t :: t in transactions <==> t in all && (t in order[..i] ==> !Stale(all[t], now, timeout))
        invariant forall t :: t in transactions ==> transactions[t] == all[t]
      {
        var tid := order[i];
        StaleUpTo(all, order, i, now, timeout);
        assert order[..i + 1] == order[..i] + [tid];
        assert tid !in order[..i];
        if now - transactions[tid].createdAt > timeout {
          expired := expired + [transactions[tid]];
          transactions := transactions - {tid};
        }
      }
      assert order[..|order|] == order;
    }
  }

  // ------------------------------------------------------------ identifiers

  /** The counters after `n` allocations. */
  function TidCounterAt(n: nat): U32 { if n == 0 then 1 else TidCounterAfter(TidCounterAt(n - 1)) }
  function InvokeIdCounterAt(n: nat): Byte { if n == 0 then 1 else InvokeIdCounterAfter(InvokeIdCounterAt(n - 1)) }

  const TID_PERIOD := 0xFFFF_FFFF
  const INVOKE_ID_PERIOD := 127

  lemma {:induction false} TidAdvances(c: U32)
    ensures NextTid(TidCounterAfter(c)) == if NextTid(c) == TID_PERIOD then 1 else NextTid(c) + 1
  {
  }

  lemma {:induction false} InvokeIdAdvances(c: Byte)
    ensures NextInvokeId(InvokeIdCounterAfter(c)) == if NextInvokeId(c) == INVOKE_ID_PERIOD then 1 else NextInvokeId(c) + 1
  {
  }

  lemma {:induction false} SuccMod(n: nat, m: nat)
    requires m == TID_PERIOD || m == INVOKE_ID_PERIOD
    ensures (n + 1) % m == if n % m == m - 1 then 0 else n % m + 1
  {
  }

  /** The n-th transaction id, from 0, is 1 + n mod (2^32 - 1). */
  lemma {:induction false} NthTid(n: nat)
    ensures NextTid(TidCounterAt(n)) == 1 + n % TID_PERIOD
  {
    hide TidCounterAfter;
    if n > 0 {
      NthTid(n - 1);
      TidAdvances(TidCounterAt(n - 1));
      hide NextTid;
      SuccMod(n - 1, TID_PERIOD);
    }
  }

  /** The n-th invoke id, from 0, is 1 + n mod 127. */
  lemma {:induction false} NthInvokeId(n: nat)
    ensures NextInvokeId(InvokeIdCounterAt(n)) == 1 + n % INVOKE_ID_PERIOD
  {
    hide InvokeIdCounterAfter;
    if n > 0 {
      NthInvokeId(n - 1);
      InvokeIdAdvances(InvokeIdCounterAt(n - 1));
      hide NextInvokeId;
      SuccMod(n - 1, INVOKE_ID_PERIOD);
    }
  }

  /** Any 2^32 - 1 consecutive transaction ids are distinct and none is zero. */
  lemma {:induction false} TidsDistinct(i: nat, j: nat)
    requires i < j < i + TID_PERIOD
    ensures NextTid(TidCounterAt(i)) != NextTid(TidCounterAt(j))
    ensures NextTid(TidCounterAt(i)) != 0
  {
    hide *;
    NthTid(i);
    NthTid(j);
    ModDistinct(i, j);
  }

  lemma {:induction false} ModDistinct(i: nat, j: nat)
    requires i < j < i + TID_PERIOD
    ensures i % TID_PERIOD != j % TID_PERIOD
  {
  }

  // ----------------------------------------------------------------- expiry

  lemma {:induction false} StaleAmongMembers(ts: map<U32, PendingTransaction>, order: seq<U32>, now: int, timeout: int)
    requires forall k :: k in order ==> k in ts
    ensures forall x :: x in StaleAmong(ts, order, now, timeout)
                   <==> exists k :: k in order && ts[k] == x && Stale(x, now, timeout)
  {
    if order != [] {
      var init, last := order[..|order| - 1], order[|order| - 1];
      assert order == init + [last];
      StaleAmongMembers(ts, init, now, timeout);
    }
  }
}

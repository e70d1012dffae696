/** Time in the HLR-initiated direction: how long an Invoke can wait when sweeps come regularly. */
module HlrTimeBound {
  import opened Basics
  import opened ProxyModel
  import opened ProxySafety
  import opened HlrCorrelation
  import opened TimeBound

  /** A run against a monotone clock, in which every sweep uses the same timeout. */
  ghost predicate IsTimedHlrRun(ws: seq<HlrWorld>, es: seq<Event>, clock: seq<int>, timeout: int, hlrTimeout: int) {
    && |clock| == |ws| && IsHlrRun(ws, es, timeout)
    && forall i :: 0 <= i < |es| ==>
         && clock[i] <= clock[i + 1]
         && (TimeOf(es[i]).Some? ==> TimeOf(es[i]).value == clock[i + 1])
         && (es[i].ExpireHlr? ==> es[i].timeout == hlrTimeout)
  }

  /** When the latest of the first `n` events that is a sweep of the HLR file happened. */
  function LastSweep(es: seq<Event>, clock: seq<int>, n: nat): int
    requires n <= |es| < |clock|
  {
    if n == 0 then clock[0] else if es[n - 1].ExpireHlr? then clock[n] else LastSweep(es, clock, n - 1)
  }

  /** Every event comes at most `d` after the latest sweep before it, or after the start. */
  ghost predicate SweepsWithin(es: seq<Event>, clock: seq<int>, d: int) {
    |es| < |clock| && forall n :: 0 <= n < |es| ==> clock[n + 1] - LastSweep(es, clock, n) <= d
  }

  /** Every entry survived the last sweep, or came after it. */
  ghost predicate FileSwept(s: ProxyState, sweep: int, now: int, hlrTimeout: int) {
    && sweep <= now
    && forall imsi :: imsi in s.hlrTx ==>
         sweep - s.hlrTx[imsi].createdAt <= hlrTimeout && s.hlrTx[imsi].createdAt <= now
  }

  /** Entries on file do not change, and a new one is made now. */
  lemma {:induction false} EntriesAge(s: ProxyState, e: Event, imsi: string)
    requires Enabled(s, e) && imsi in Step(s, e).hlrTx
    ensures var entry := Step(s, e).hlrTx[imsi];
            (imsi in s.hlrTx && entry == s.hlrTx[imsi]) || TimeOf(e) == Some(entry.createdAt)
  {
    EventLawful(s, e);
    var s' := Step(s, e);
    var new_ := NewInvoke(s, e, s');
    NewInvokeIsNow(s, e, s');
    hide Step, Enabled, NewInvoke, Forwarded, AnswersEntry;
    if new_ != [] && new_[0].Imsi() == imsi {
      assert new_[0] in new_;
    }
  }

  lemma {:induction false} NewInvokeIsNow(s: ProxyState, e: Event, s': ProxyState)
    ensures forall v :: v in NewInvoke(s, e, s') ==> TimeOf(e) == Some(v.entry.createdAt)
  {
  }

  lemma {:induction false} SweepKeepsYoung(s: ProxyState, now: int, hlrTimeout: int)
    ensures forall imsi :: imsi in OnExpireHlr(s, now, hlrTimeout).hlrTx ==>
              imsi in s.hlrTx && OnExpireHlr(s, now, hlrTimeout).hlrTx[imsi] == s.hlrTx[imsi]
              && now - s.hlrTx[imsi].createdAt <= hlrTimeout
  {
  }

  lemma {:induction false} StepSweeps(s: ProxyState, e: Event, sweep: int, now: int, now': int, hlrTimeout: int)
    requires FileSwept(s, sweep, now, hlrTimeout) && Enabled(s, e) && hlrTimeout >= 0 && now <= now'
    requires TimeOf(e).Some? ==> TimeOf(e).value == now'
    requires e.ExpireHlr? ==> e.timeout == hlrTimeout
    ensures FileSwept(Step(s, e), if e.ExpireHlr? then now' else sweep, now', hlrTimeout)
  {
    if e.ExpireHlr? {
      SweepKeepsYoung(s, e.now, e.timeout);
    } else {
      hide Step, Enabled;
      forall imsi | imsi in Step(s, e).hlrTx
        ensures sweep - Step(s, e).hlrTx[imsi].createdAt <= hlrTimeout && Step(s, e).hlrTx[imsi].createdAt <= now'
      {
        EntriesAge(s, e, imsi);
      }
    }
  }

  lemma {:induction false} RunsAreFileSwept(
    ws: seq<HlrWorld>, es: seq<Event>, clock: seq<int>, timeout: int, hlrTimeout: int, n: nat)
    requires IsTimedHlrRun(ws, es, clock, timeout, hlrTimeout) && hlrTimeout >= 0 && n < |ws|
    ensures FileSwept(ws[n].proxy, LastSweep(es, clock, n), clock[n], hlrTimeout)
  {
    hide FileSwept, Enabled, Step, NewInvoke, Followed, TimeOf, Start;
    if n == 0 {
      EmptyFileSwept(timeout, clock[0], hlrTimeout);
    } else {
      RunsAreFileSwept(ws, es, clock, timeout, hlrTimeout, n - 1);
      assert ws[n] == AdvanceHlr(ws[n - 1], es[n - 1]);
      StepSweeps(ws[n - 1].proxy, es[n - 1], LastSweep(es, clock, n - 1), clock[n - 1], clock[n], hlrTimeout);
    }
  }

  lemma {:induction false} EmptyFileSwept(timeout: int, now: int, hlrTimeout: int)
    ensures FileSwept(Start(timeout), now, now, hlrTimeout)
  {
  }

  /** If sweeps are at most `d` apart, no Invoke waits longer than the timeout plus `d`: the n-th state
      lasts until the n-th event, and that is how old what waits in it is by then. */
  lemma {:induction false} NoInvokeOutlives(
    ws: seq<HlrWorld>, es: seq<Event>, clock: seq<int>, timeout: int, hlrTimeout: int, d: int, n: nat, i: nat)
    requires IsTimedHlrRun(ws, es, clock, timeout, hlrTimeout) && hlrTimeout >= 0 && SweepsWithin(es, clock, d)
    requires n < |es| && i < |ws[n].invokes| && ws[n].invokes[i].fate.Waiting?
    ensures clock[n + 1] - ws[n].invokes[i].entry.createdAt <= hlrTimeout + d
  {
    RunsAreFileSwept(ws, es, clock, timeout, hlrTimeout, n);
    RunsAreCorrelated(ws, es, timeout, n);
    hide IsHlrRun, FiledWaiting, AnswersRight, AnswersAccounted, Forwarded;
    assert Filed(ws[n].invokes[i], ws[n].proxy);
  }
}

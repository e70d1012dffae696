/** Which connections are registered, and which are active, over whole runs. */
module RegistryRuns {
  import opened Basics
  import opened Sessions
  import opened SessionRuns
  import opened Servers
  import opened Routing
  import Addressing
  import ProxySafety
  import SessionControl
  import Stream
  import Ipa = IpaCodec

  /** A registered connection has never reported a disconnect; an active one has reported to be ready
      besides. */
  ghost predicate OnlyLive(n: Net) {
    && |n.views| == |n.issued|
    && (forall c :: 0 <= c < |n.issued| && n.issued[c] in n.registry.all ==> n.views[c].disconnects == 0)
    && (forall c :: 0 <= c < |n.issued| && n.issued[c] in n.registry.sessions ==>
          n.views[c].disconnects == 0 && n.views[c].readies > 0)
  }

  /** And the other way round: every such connection is registered, and active. */
  ghost predicate AllLive(n: Net) {
    && |n.views| == |n.issued|
    && (forall c :: 0 <= c < |n.issued| && n.views[c].disconnects == 0 ==> n.issued[c] in n.registry.all)
    && (forall c :: 0 <= c < |n.issued| && n.views[c].disconnects == 0 && n.views[c].readies > 0 ==>
          n.issued[c] in n.registry.sessions)
  }

  lemma {:induction false} FrameCounts(v: SessionView, f: Ipa.IpaFrame)
    ensures OnFrame(v, f).readies >= v.readies
  {
    hide Ipa.Encoded;
  }

  lemma {:induction false} FramesCount(v: SessionView, fs: seq<Ipa.IpaFrame>)
    ensures OnFrames(v, fs).readies >= v.readies
    decreases |fs|
  {
    hide OnFrame;
    if fs != [] {
      FrameCounts(v, fs[0]);
      FramesCount(OnFrame(v, fs[0]), fs[1..]);
    }
  }

  lemma {:induction false} SocketCounts(v: SessionView, e: SessionEvent)
    requires CanHappen(v, e)
    ensures After(v, e).readies >= v.readies && After(v, e).disconnects >= v.disconnects
  {
    hide Ipa.Encoded, Ipa.IpaCut, Stream.Drain, OnFrames;
    SessionControl.EndsExactly(v, e);
    if e.Chunk? { FramesCount(v, FramesIn(Stream.Drain(Ipa.IpaCut, v.buf + e.data).frames)); }
  }

  lemma {:induction false} SendCounts(views: seq<SessionView>, conns: set<nat>, f: Ipa.IpaFrame)
    ensures var views' := ViewsAfterSend(views, conns, f);
            && |views'| == |views|
            && forall c :: 0 <= c < |views| ==>
                 views'[c].readies == views[c].readies && views'[c].disconnects == views[c].disconnects
  {
    hide Ipa.Encoded;
  }

  /** What the callbacks of one session do to its own id and to the others. */
  lemma {:induction false} CallbacksExact(r: Registry<nat>, id: ClientId, v: SessionView, v': SessionView)
    ensures var r' := Callbacks(r, id, v, v');
            && (forall i :: i != id ==> (i in r'.all <==> i in r.all) && (i in r'.sessions <==> i in r.sessions))
            && (id in r'.all <==> id in r.all && v'.disconnects <= v.disconnects)
            && (id in r'.sessions <==>
                  (id in r.sessions || (id in r.all && v'.readies > v.readies)) && v'.disconnects <= v.disconnects)
  {
  }

  lemma {:induction false} SocketLive(n: Net, n': Net, conn: nat, v': SessionView)
    requires IdsInOrder(n) && conn < |n.issued| && SubMap(n.registry)
    requires v'.readies >= n.views[conn].readies && v'.disconnects >= n.views[conn].disconnects
    requires n'.issued == n.issued && n'.views == n.views[conn := v']
    requires n'.registry == Callbacks(n.registry, n.issued[conn], n.views[conn], v')
    ensures OnlyLive(n) ==> OnlyLive(n')
    ensures OnlyLive(n) && AllLive(n) ==> AllLive(n')
  {
    hide Callbacks;
    CallbacksExact(n.registry, n.issued[conn], n.views[conn], v');
  }

  lemma {:induction false} SameLive(n: Net, n': Net)
    requires n'.issued == n.issued && n'.registry == n.registry && |n'.views| == |n.views| == |n.issued|
    requires forall c :: 0 <= c < |n.views| ==>
               n'.views[c].readies == n.views[c].readies && n'.views[c].disconnects == n.views[c].disconnects
    ensures OnlyLive(n) ==> OnlyLive(n')
    ensures AllLive(n) ==> AllLive(n')
  {
  }

  lemma {:induction false} AcceptLive(n: Net, n': Net)
    requires IdsInOrder(n) && RegistryHonest(n) && |n.issued| + 1 < 0x1_0000_0000_0000_0000
    requires n' == n.(registry := Accepted(n.registry, |n.issued|), issued := n.issued + [n.registry.next],
                      views := n.views + [StartedView()])
    ensures OnlyLive(n) ==> OnlyLive(n')
    ensures AllLive(n) ==> AllLive(n')
  {
    StartedCounts();
    hide StartedView;
    assert n.registry.next !in n.registry.all;
  }

  lemma {:induction false} StartedCounts()
    ensures StartedView().readies == 0 && StartedView().disconnects == 0
  {
    CcmEncodes();
    hide Ipa.Encoded;
  }

  lemma {:induction false} ProxyLive(n: Net, e: NetEvent)
    requires Possible(n, e) && (e.Handle? || e.Internal?)
    ensures NetStep(n, e).issued == n.issued && NetStep(n, e).registry == n.registry && NetStep(n, e).views == n.views
  {
    hide ProxySafety.Advance, ProxySafety.RequestIn, ProxySafety.Enabled;
  }

  lemma {:induction false} SocketIs(n: Net, conn: nat, action: SessionEvent)
    requires Possible(n, AtSocket(conn, action))
    ensures conn < |n.issued| && conn < |n.views| && CanHappen(n.views[conn], action)
    ensures var v, v', n' := n.views[conn], After(n.views[conn], action), NetStep(n, AtSocket(conn, action));
            && n'.issued == n.issued && n'.views == n.views[conn := v']
            && n'.registry == Callbacks(n.registry, n.issued[conn], v, v')
  {
    hide CanHappen, After, Callbacks;
  }

  lemma {:induction false} StepLive(n: Net, e: NetEvent)
    requires NetSound(n) && Possible(n, e)
    ensures OnlyLive(n) ==> OnlyLive(NetStep(n, e))
    ensures OnlyLive(n) && AllLive(n) && !e.ServerStops? ==> AllLive(NetStep(n, e))
  {
    hide OnlyLive, AllLive, NetSound, CanHappen, After, Callbacks, ViewsAfterSend, StartedView, ViewsAfterStop;
    SoundParts(n);
    match e {
      case Accept =>
        AcceptIs(n);
        hide NetStep, Possible, RegistryHonest, IdsInOrder;
        AcceptLive(n, NetStep(n, e));
      case AtSocket(conn, action) =>
        SocketIs(n, conn, action);
        hide NetStep, Possible;
        SocketCounts(n.views[conn], action);
        SocketLive(n, NetStep(n, e), conn, After(n.views[conn], action));
      case Handle(_) =>
        ProxyLive(n, e);
        hide NetStep, Possible;
        SameLive(n, NetStep(n, e));
      case Internal(_) =>
        ProxyLive(n, e);
        hide NetStep, Possible;
        SameLive(n, NetStep(n, e));
      case Dispatch =>
        DispatchIs(n);
        hide NetStep, Possible;
        var send := n.world.proxy.sgsnOut[n.dispatched];
        SendCounts(n.views, Targets(n.registry, send.to), FrameFor(send));
        SameLive(n, NetStep(n, e));
      case ServerStops =>
        StopIs(n);
        hide NetStep, Possible;
        StopLive(n, NetStep(n, e));
    }
  }

  lemma {:induction false} SoundParts(n: Net)
    requires NetSound(n)
    ensures IdsInOrder(n) && RegistryHonest(n) && SubMap(n.registry)
  {
    hide OriginsRight, DeliveriesRight, ViewsSound, Addressing.Addressed;
  }

  lemma {:induction false} StopLive(n: Net, n': Net)
    requires IdsInOrder(n) && n'.issued == n.issued && n'.registry.all == map[] && n'.registry.sessions == map[]
    requires n'.views == ViewsAfterStop(n.views, n.registry.all.Values)
    ensures OnlyLive(n')
  {
  }

  /** Over every run, only connections that never reported a disconnect are registered, and only those of
      them that reported to be ready are active; and as long as the server has not been stopped, all of
      them are. */
  lemma {:induction false} RunsRegisterLive(ns: seq<Net>, es: seq<NetEvent>, timeout: int, n: nat)
    requires IsNetRun(ns, es, timeout) && n < |ns|
    ensures OnlyLive(ns[n])
    ensures (forall i :: 0 <= i < n ==> !es[i].ServerStops?) ==> AllLive(ns[n])
  {
    hide NetStep, Possible;
    if n > 0 {
      RunsRegisterLive(ns, es, timeout, n - 1);
      RunsAreSound(ns, es, timeout, n - 1);
      hide OnlyLive, AllLive, NetSound, StartNet;
      StepLive(ns[n - 1], es[n - 1]);
    }
  }
}

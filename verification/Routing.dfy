/** Proxy, server and sessions together: an answer reaches the connection its request came from, or
    nobody. */
module Routing {
  import opened Basics
  import opened ProxyModel
  import opened ProxySafety
  import opened Sessions
  import opened SessionRuns
  import opened Servers
  import opened Addressing
  import Conservation
  import HlrCorrelation
  import Ipa = IpaCodec
  import Stream

  /** Connections are numbered in the order in which they are accepted. What happens at the socket of
      one, the handling of the next payload that a session has handed on, whatever else happens at the
      proxy, the execution of the next send the proxy has posted, and the shutdown of the server. */
  datatype NetEvent =
    | Accept
    | AtSocket(conn: nat, action: SessionEvent)
    | Handle(now: int)
    | Internal(event: Event)
    | Dispatch
    | ServerStops

  /** A payload handed on by a session and not handled yet. The source handles it at once; that other
      events may come between only allows for more runs. */
  datatype Inbound = Inbound(conn: nat, payload: Bytes)

  /** The send at an index of the proxy's log was enqueued on a connection, at a place of what that
      connection was sent. */
  datatype Delivery = Delivery(conn: nat, send: nat, place: nat)

  /** `issued` holds the id of each connection, `views` its session, `origins` the connection of each
      request of the ledger; the first `dispatched` sends have been executed by the server. */
  datatype Net = Net(
    world: World, registry: Registry<nat>, issued: seq<ClientId>, views: seq<SessionView>, inbox: seq<Inbound>,
    origins: seq<nat>, dispatched: nat, deliveries: set<Delivery>)

  /** A callback carries the id its connection was given when it was accepted. */
  function GsupEvent(n: Net, now: int): Event
    requires n.inbox != [] && n.inbox[0].conn < |n.issued|
  {
    GsupIn(n.inbox[0].payload, n.issued[n.inbox[0].conn], now)
  }

  ghost predicate Possible(n: Net, e: NetEvent) {
    match e
    case Accept => |n.issued| + 1 < 0x1_0000_0000_0000_0000
    case AtSocket(conn, event) =>
      conn < |n.issued| && conn < |n.views| && !event.Send? && !event.StopCalled? && CanHappen(n.views[conn], event)
    case Handle(_) => n.inbox != [] && n.inbox[0].conn < |n.issued|
    case Internal(event) => !event.GsupIn? && Enabled(n.world.proxy, event)
    case Dispatch => n.dispatched < |n.world.proxy.sgsnOut|
    case ServerStops => true
  }

  /** The event that the proxy sees, if any. */
  function ProxyEvent(n: Net, e: NetEvent): Option<Event> {
    match e
    case Handle(now) => if n.inbox != [] && n.inbox[0].conn < |n.issued| then Some(GsupEvent(n, now)) else None
    case Internal(event) => Some(event)
    case _ => None
  }

  function StartedView(): SessionView {
    CcmEncodes();
    Enqueued(FRESH_VIEW, ID_GET_FRAME)
  }

  /** The ready and disconnect callbacks a session has made. */
  function Callbacks(r: Registry<nat>, id: ClientId, v: SessionView, v': SessionView): Registry<nat> {
    var r1 := if v'.readies > v.readies then Readied(r, id) else r;
    if v'.disconnects > v.disconnects then Removed(r1, id) else r1
  }

  /** The payloads a session has handed on. */
  function HandedOn(conn: nat, v: SessionView, v': SessionView): seq<Inbound> {
    var n := |v.delivered|;
    seq(if n <= |v'.delivered| then |v'.delivered| - n else 0,
        i requires 0 <= i < |v'.delivered| - n => Inbound(conn, v'.delivered[n + i]))
  }

  /** The active connections a send addresses. */
  function Targets(r: Registry<nat>, to: ClientId): set<nat> {
    if to == 0 then r.sessions.Values else if to in r.sessions then {r.sessions[to]} else {}
  }

  function FrameFor(send: SgsnSend): Ipa.IpaFrame { Ipa.IpaFrame(Ipa.STREAM_GSUP, send.data) }

  function ViewsAfterSend(views: seq<SessionView>, conns: set<nat>, f: Ipa.IpaFrame): seq<SessionView> {
    seq(|views|, c requires 0 <= c < |views| => if c in conns then SentIfReady(views[c], f) else views[c])
  }

  /** A session takes the frame if it is ready and the frame can be encoded. */
  predicate Takes(v: SessionView, f: Ipa.IpaFrame) { v.phase.Ready? && Ipa.Encoded(f).Success? }

  function NewDeliveries(views: seq<SessionView>, conns: set<nat>, f: Ipa.IpaFrame, send: nat): set<Delivery> {
    set c | c in conns && c < |views| && Takes(views[c], f) :: Delivery(c, send, |views[c].sent|)
  }

  function ViewsAfterStop(views: seq<SessionView>, conns: set<nat>): seq<SessionView> {
    seq(|views|, c requires 0 <= c < |views| => if c in conns then views[c].(phase := Stopped) else views[c])
  }

  ghost function NetStep(n: Net, e: NetEvent): Net
    requires Possible(n, e)
  {
    match e
    case Accept =>
      n.(registry := Accepted(n.registry, |n.issued|), issued := n.issued + [n.registry.next],
         views := n.views + [StartedView()])
    case AtSocket(conn, event) =>
      var v, v' := n.views[conn], After(n.views[conn], event);
      n.(registry := Callbacks(n.registry, n.issued[conn], v, v'), views := n.views[conn := v'],
         inbox := n.inbox + HandedOn(conn, v, v'))
    case Handle(now) =>
      var event := GsupEvent(n, now);
      n.(world := Advance(n.world, event), inbox := n.inbox[1..],
         origins := n.origins + if RequestIn(event).Some? then [n.inbox[0].conn] else [])
    case Internal(event) => n.(world := Advance(n.world, event))
    case Dispatch =>
      var send := n.world.proxy.sgsnOut[n.dispatched];
      var conns, f := Targets(n.registry, send.to), FrameFor(send);
      n.(views := ViewsAfterSend(n.views, conns, f), dispatched := n.dispatched + 1,
         deliveries := n.deliveries + NewDeliveries(n.views, conns, f, n.dispatched))
    case ServerStops =>
      n.(registry := n.registry.(sessions := map[], all := map[]),
         views := ViewsAfterStop(n.views, n.registry.all.Values))
  }

  // -------------------------------------------------------------- invariant

  /** Ids are one more than the connection number: none is zero and none is used twice. */
  predicate IdsInOrder(n: Net) {
    && |n.issued| < 0x1_0000_0000_0000_0000 && |n.views| == |n.issued|
    && n.registry.next == (|n.issued| + 1) % 0x1_0000_0000_0000_0000
    && forall k :: 0 <= k < |n.issued| ==> n.issued[k] == k + 1
  }

  ghost predicate RegistryHonest(n: Net) {
    && SubMap(n.registry)
    && forall id :: id in n.registry.all ==> n.registry.all[id] < |n.issued| && n.issued[n.registry.all[id]] == id
  }

  predicate InboxRight(n: Net) {
    forall i :: 0 <= i < |n.inbox| ==> n.inbox[i].conn < |n.issued|
  }

  ghost predicate OriginsRight(n: Net) {
    && |n.origins| == |n.world.requests|
    && forall i :: 0 <= i < |n.origins| ==>
         n.origins[i] < |n.issued| && n.world.requests[i].client == n.issued[n.origins[i]]
  }

  /** The frame of a delivery stands at its place, on the connection the send was addressed to. */
  ghost predicate Stands(n: Net, d: Delivery) {
    && d.send < n.dispatched <= |n.world.proxy.sgsnOut| && d.conn < |n.issued| == |n.views|
    && d.place < |n.views[d.conn].sent| && n.views[d.conn].sent[d.place] == FrameFor(n.world.proxy.sgsnOut[d.send])
    && (n.world.proxy.sgsnOut[d.send].to != 0 ==> n.issued[d.conn] == n.world.proxy.sgsnOut[d.send].to)
  }

  ghost predicate DeliveriesRight(n: Net) {
    && n.dispatched <= |n.world.proxy.sgsnOut|
    && (forall d :: d in n.deliveries ==> Stands(n, d))
    && (forall d, d' :: d in n.deliveries && d' in n.deliveries && d.conn == d'.conn && d.send == d'.send ==> d == d')
  }

  ghost predicate ViewsSound(n: Net) {
    forall c :: 0 <= c < |n.views| ==> InOrder(n.views[c]) && GateHolds(n.views[c])
  }

  ghost predicate NetSound(n: Net) {
    && IdsInOrder(n) && RegistryHonest(n) && InboxRight(n) && OriginsRight(n) && DeliveriesRight(n) && ViewsSound(n)
    && Addressed(n.world.proxy)
  }

  // ------------------------------------------------------- sessions over a step

  /** What a session was sent, and handed on, only grows. */
  ghost predicate ViewGrows(v: SessionView, v': SessionView) { v.sent <= v'.sent && v.delivered <= v'.delivered }

  lemma {:induction false} FrameGrows(v: SessionView, f: Ipa.IpaFrame)
    ensures ViewGrows(v, OnFrame(v, f))
  {
    hide Ipa.Encoded;
  }

  lemma {:induction false} FramesGrow(v: SessionView, fs: seq<Ipa.IpaFrame>)
    ensures ViewGrows(v, OnFrames(v, fs))
    decreases |fs|
  {
    hide OnFrame;
    if fs != [] {
      FrameGrows(v, fs[0]);
      FramesGrow(OnFrame(v, fs[0]), fs[1..]);
    }
  }

  lemma {:induction false} SocketGrows(v: SessionView, e: SessionEvent)
    requires CanHappen(v, e)
    ensures ViewGrows(v, After(v, e))
  {
    hide Ipa.Encoded, Ipa.IpaCut, Stream.Drain, OnFrames;
    if e.Chunk? { FramesGrow(v, FramesIn(Stream.Drain(Ipa.IpaCut, v.buf + e.data).frames)); }
  }

  /** A send adds its frame at the end, exactly if the session takes it. */
  lemma {:induction false} SendGrows(v: SessionView, f: Ipa.IpaFrame)
    requires InOrder(v)
    ensures var v' := SentIfReady(v, f);
            && InOrder(v') && (GateHolds(v) ==> GateHolds(v')) && ViewGrows(v, v')
            && v'.sent == v.sent + (if Takes(v, f) then [f] else [])
  {
    hide Ipa.Encoded;
    if Takes(v, f) { EnqueuedInOrder(v, f); }
    hide InOrder, Gated, Thinned, Handshaken;
  }

  // ------------------------------------------------------------------- steps

  /** The ids, the log and what every connection was sent only grow. */
  ghost predicate Grows(n: Net, n': Net) {
    && n.world.proxy.sgsnOut <= n'.world.proxy.sgsnOut && n.issued <= n'.issued
    && |n.views| == |n.issued| && |n'.views| == |n'.issued|
    && forall c :: 0 <= c < |n.views| ==> ViewGrows(n.views[c], n'.views[c])
  }

  lemma {:induction false} StillStands(n: Net, n': Net, d: Delivery)
    requires Stands(n, d) && Grows(n, n') && n.dispatched <= n'.dispatched <= |n'.world.proxy.sgsnOut|
    ensures Stands(n', d)
  {
    hide FrameFor;
  }

  lemma {:induction false} DeliveriesKept(n: Net, n': Net)
    requires DeliveriesRight(n) && Grows(n, n') && n'.dispatched == n.dispatched && n'.deliveries == n.deliveries
    ensures DeliveriesRight(n')
  {
    hide Stands;
    forall d | d in n'.deliveries ensures Stands(n', d) {
      hide Grows;
      StillStands(n, n', d);
    }
  }

  /** Origins depend on the ledger and the ids alone. */
  lemma {:induction false} OriginsKept(n: Net, n': Net)
    requires OriginsRight(n) && n'.origins == n.origins && n'.world == n.world && n.issued <= n'.issued
    ensures OriginsRight(n')
  {
  }

  /** The registry's honesty depends on the registry and the ids alone. */
  lemma {:induction false} RegistryOnly(n: Net, n': Net)
    requires n'.issued == n.issued && RegistryHonest(n.(registry := n'.registry))
    ensures RegistryHonest(n')
  {
  }

  lemma {:induction false} AcceptIs(n: Net)
    requires Possible(n, Accept)
    ensures |n.issued| + 1 < 0x1_0000_0000_0000_0000
    ensures NetStep(n, Accept) == n.(registry := Accepted(n.registry, |n.issued|), issued := n.issued + [n.registry.next],
                                     views := n.views + [StartedView()])
  {
    hide StartedView;
  }

  lemma {:induction false} AcceptRegistered(n: Net, n': Net)
    requires IdsInOrder(n) && RegistryHonest(n) && |n.issued| + 1 < 0x1_0000_0000_0000_0000
    requires n'.registry == Accepted(n.registry, |n.issued|) && n'.issued == n.issued + [n.registry.next]
    requires n'.views == n.views + [StartedView()]
    ensures RegistryHonest(n') && IdsInOrder(n')
  {
    hide StartedView;
    OperationsKeepSubMap(n.registry, |n.issued|, 0);
  }

  lemma {:induction false} AcceptSound(n: Net)
    requires NetSound(n) && Possible(n, Accept)
    ensures NetSound(NetStep(n, Accept))
  {
    hide InOrder, GateHolds, Addressed, StartedView, RegistryHonest, DeliveriesRight, OriginsRight;
    AcceptIs(n);
    hide Possible;
    var n' := NetStep(n, Accept);
    hide NetStep;
    AcceptRegistered(n, n');
    StartedSound();
    forall c | 0 <= c < |n'.views| ensures InOrder(n'.views[c]) && GateHolds(n'.views[c]) {
      if c < |n.views| { assert n'.views[c] == n.views[c]; }
    }
    DeliveriesKept(n, n');
    OriginsKept(n, n');
  }

  lemma {:induction false} StartedSound()
    ensures InOrder(StartedView()) && GateHolds(StartedView())
  {
    CcmEncodes();
    EnqueuedInOrder(FRESH_VIEW, ID_GET_FRAME);
    hide Ipa.Encoded;
  }

  lemma {:induction false} CallbacksHonest(n: Net, id: ClientId, v: SessionView, v': SessionView)
    requires RegistryHonest(n)
    ensures var r := Callbacks(n.registry, id, v, v');
            RegistryHonest(n.(registry := r)) && r.next == n.registry.next
  {
    OperationsKeepSubMap(n.registry, 0, id);
    OperationsKeepSubMap(Readied(n.registry, id), 0, id);
  }

  lemma {:induction false} SocketSound(n: Net, conn: nat, action: SessionEvent)
    requires NetSound(n) && Possible(n, AtSocket(conn, action))
    ensures NetSound(NetStep(n, AtSocket(conn, action)))
  {
    hide InOrder, GateHolds, Addressed, CanHappen, After, Callbacks, RegistryHonest, DeliveriesRight, OriginsRight;
    var n', v, v' := NetStep(n, AtSocket(conn, action)), n.views[conn], After(n.views[conn], action);
    StepInOrder(v, action);
    StepKeepsGate(v, action);
    SocketGrows(v, action);
    CallbacksHonest(n, n.issued[conn], v, v');
    RegistryOnly(n, n');
    forall c | 0 <= c < |n'.views|
      ensures InOrder(n'.views[c]) && GateHolds(n'.views[c]) && ViewGrows(n.views[c], n'.views[c])
    {
      if c != conn { assert n'.views[c] == n.views[c]; }
    }
    DeliveriesKept(n, n');
    OriginsKept(n, n');
  }

  /** Every view after a send is sound and has grown. */
  lemma {:induction false} SendSound(n: Net, conns: set<nat>, f: Ipa.IpaFrame)
    requires ViewsSound(n)
    ensures var views' := ViewsAfterSend(n.views, conns, f);
            forall c :: 0 <= c < |n.views| ==>
              && InOrder(views'[c]) && GateHolds(views'[c]) && ViewGrows(n.views[c], views'[c])
              && views'[c].sent == n.views[c].sent + if c in conns && Takes(n.views[c], f) then [f] else []
  {
    hide InOrder, GateHolds, SentIfReady, Takes;
    forall c | 0 <= c < |n.views|
      ensures var v' := ViewsAfterSend(n.views, conns, f)[c];
              && InOrder(v') && GateHolds(v') && ViewGrows(n.views[c], v')
              && v'.sent == n.views[c].sent + if c in conns && Takes(n.views[c], f) then [f] else []
    {
      SendGrows(n.views[c], f);
      assert n.views[c].sent + [] == n.views[c].sent;
    }
  }

  lemma {:induction false} NewDeliveryStands(n: Net, n': Net, conns: set<nat>, f: Ipa.IpaFrame, d: Delivery)
    requires ViewsSound(n) && |n.views| == |n.issued| && n.dispatched < |n.world.proxy.sgsnOut|
    requires f == FrameFor(n.world.proxy.sgsnOut[n.dispatched])
    requires d in NewDeliveries(n.views, conns, f, n.dispatched)
    requires n'.world == n.world && n'.issued == n.issued && n'.dispatched == n.dispatched + 1
    requires n'.views == ViewsAfterSend(n.views, conns, f)
    requires forall c :: c in conns ==>
               n.world.proxy.sgsnOut[n.dispatched].to != 0 ==> c < |n.issued| && n.issued[c] == n.world.proxy.sgsnOut[n.dispatched].to
    ensures Stands(n', d) && d.send == n.dispatched
  {
    hide FrameFor, Takes;
    SendSound(n, conns, f);
    SameLength(n.views, conns, f);
    hide ViewsSound, ViewsAfterSend;
  }

  lemma {:induction false} SameLength(views: seq<SessionView>, conns: set<nat>, f: Ipa.IpaFrame)
    ensures |ViewsAfterSend(views, conns, f)| == |views|
  {
  }

  lemma {:induction false} DispatchDeliveries(n: Net, n': Net, conns: set<nat>, f: Ipa.IpaFrame)
    requires DeliveriesRight(n) && ViewsSound(n) && |n.views| == |n.issued| && n.dispatched < |n.world.proxy.sgsnOut|
    requires f == FrameFor(n.world.proxy.sgsnOut[n.dispatched]) && Grows(n, n')
    requires n'.world == n.world && n'.issued == n.issued && n'.dispatched == n.dispatched + 1
    requires n'.views == ViewsAfterSend(n.views, conns, f)
    requires n'.deliveries == n.deliveries + NewDeliveries(n.views, conns, f, n.dispatched)
    requires forall c :: c in conns ==>
               n.world.proxy.sgsnOut[n.dispatched].to != 0 ==> c < |n.issued| && n.issued[c] == n.world.proxy.sgsnOut[n.dispatched].to
    ensures DeliveriesRight(n')
  {
    hide ViewsSound, Stands, Grows, NewDeliveries, ViewsAfterSend, FrameFor;
    forall d | d in n'.deliveries
      ensures Stands(n', d) && (d in n.deliveries <==> d.send < n.dispatched)
    {
      if d in n.deliveries {
        assert Stands(n, d);
        StillStands(n, n', d);
        SendBefore(n, d);
      } else {
        NewDeliveryStands(n, n', conns, f, d);
      }
    }
    forall d, d' | d in n'.deliveries && d' in n'.deliveries && d.conn == d'.conn && d.send == d'.send
      ensures d == d'
    {
      if d !in n.deliveries {
        OnePlace(n.views, conns, f, n.dispatched, d, d');
      }
    }
  }

  lemma {:induction false} SendBefore(n: Net, d: Delivery)
    requires Stands(n, d)
    ensures d.send < n.dispatched
  {
  }

  lemma {:induction false} OnePlace(
    views: seq<SessionView>, conns: set<nat>, f: Ipa.IpaFrame, send: nat, d: Delivery, d': Delivery)
    requires d in NewDeliveries(views, conns, f, send) && d' in NewDeliveries(views, conns, f, send) && d.conn == d'.conn
    ensures d == d'
  {
  }

  lemma {:induction false} DispatchIs(n: Net)
    requires Possible(n, Dispatch)
    ensures n.dispatched < |n.world.proxy.sgsnOut|
    ensures var send := n.world.proxy.sgsnOut[n.dispatched];
            NetStep(n, Dispatch) == Dispatched(n, Targets(n.registry, send.to), FrameFor(send))
  {
    hide Targets, ViewsAfterSend, NewDeliveries, FrameFor;
  }

  /** The state after the next send has gone to these connections as this frame. */
  function Dispatched(n: Net, conns: set<nat>, f: Ipa.IpaFrame): Net {
    n.(views := ViewsAfterSend(n.views, conns, f), dispatched := n.dispatched + 1,
       deliveries := n.deliveries + NewDeliveries(n.views, conns, f, n.dispatched))
  }

  lemma {:induction false} DispatchedSound(n: Net)
    requires NetSound(n) && n.dispatched < |n.world.proxy.sgsnOut|
    ensures var send := n.world.proxy.sgsnOut[n.dispatched];
            NetSound(Dispatched(n, Targets(n.registry, send.to), FrameFor(send)))
  {
    hide Addressed, OriginsRight, RegistryHonest, DeliveriesRight, Targets, NewDeliveries, ViewsAfterSend, FrameFor,
         ViewsSound, Grows;
    var send := n.world.proxy.sgsnOut[n.dispatched];
    var conns, f := Targets(n.registry, send.to), FrameFor(send);
    var n' := Dispatched(n, conns, f);
    TargetsRight(n, send.to);
    DispatchedGrows(n, conns, f);
    DispatchDeliveries(n, n', conns, f);
    OriginsKept(n, n');
    SameRegistry(n, n');
  }

  lemma {:induction false} DispatchedGrows(n: Net, conns: set<nat>, f: Ipa.IpaFrame)
    requires ViewsSound(n) && |n.views| == |n.issued|
    ensures ViewsSound(Dispatched(n, conns, f)) && Grows(n, Dispatched(n, conns, f))
    ensures |Dispatched(n, conns, f).views| == |n.views|
  {
    hide InOrder, GateHolds, ViewGrows, Takes, NewDeliveries;
    SendSound(n, conns, f);
    SameLength(n.views, conns, f);
    hide ViewsAfterSend;
  }

  lemma {:induction false} DispatchSound(n: Net)
    requires NetSound(n) && Possible(n, Dispatch)
    ensures NetSound(NetStep(n, Dispatch))
  {
    hide NetSound, Dispatched;
    DispatchIs(n);
    hide NetStep, Possible;
    DispatchedSound(n);
  }

  lemma {:induction false} SameRegistry(n: Net, n': Net)
    requires RegistryHonest(n) && n'.registry == n.registry && n'.issued == n.issued
    ensures RegistryHonest(n')
  {
  }

  lemma {:induction false} TargetsRight(n: Net, to: ClientId)
    requires RegistryHonest(n)
    ensures forall c :: c in Targets(n.registry, to) ==> c < |n.issued| && (to != 0 ==> n.issued[c] == to)
  {
  }

  lemma {:induction false} StoppedViews(n: Net, conns: set<nat>)
    requires ViewsSound(n)
    ensures var views' := ViewsAfterStop(n.views, conns);
            && |views'| == |n.views|
            && forall c :: 0 <= c < |n.views| ==>
                 InOrder(views'[c]) && GateHolds(views'[c]) && ViewGrows(n.views[c], views'[c])
  {
    hide InOrder, GateHolds;
    forall c | 0 <= c < |n.views|
      ensures var v' := ViewsAfterStop(n.views, conns)[c];
              InOrder(v') && GateHolds(v') && ViewGrows(n.views[c], v')
    {
      StoppedSound(n.views[c]);
    }
  }

  lemma {:induction false} StopIs(n: Net)
    ensures NetStep(n, ServerStops) == n.(registry := n.registry.(sessions := map[], all := map[]),
                                          views := ViewsAfterStop(n.views, n.registry.all.Values))
  {
    hide ViewsAfterStop;
  }

  lemma {:induction false} EmptyHonest(n: Net)
    requires n.registry.sessions == map[] && n.registry.all == map[]
    ensures RegistryHonest(n)
  {
  }

  lemma {:induction false} StoppedNet(n: Net, n': Net)
    requires NetSound(n)
    requires n' == n.(registry := n.registry.(sessions := map[], all := map[]),
                      views := ViewsAfterStop(n.views, n.registry.all.Values))
    ensures NetSound(n')
  {
    hide Addressed, OriginsRight, InOrder, GateHolds, DeliveriesRight, RegistryHonest;
    StoppedViews(n, n.registry.all.Values);
    hide ViewsAfterStop;
    EmptyHonest(n');
    assert ViewsSound(n') && Grows(n, n');
    hide ViewsSound, Grows;
    DeliveriesKept(n, n');
    OriginsKept(n, n');
  }

  lemma {:induction false} StopSound(n: Net)
    requires NetSound(n)
    ensures NetSound(NetStep(n, ServerStops))
  {
    hide NetSound;
    StopIs(n);
    hide NetStep;
    StoppedNet(n, NetStep(n, ServerStops));
  }

  lemma {:induction false} StoppedSound(v: SessionView)
    requires InOrder(v) && GateHolds(v)
    ensures InOrder(v.(phase := Stopped)) && GateHolds(v.(phase := Stopped))
  {
    hide Ipa.Encoded, Gated, Thinned, Handshaken;
  }

  /** The ledger over any event: it grows by the request, and no client changes. */
  lemma {:induction false} LedgerGrows(w: World, e: Event)
    requires Enabled(w.proxy, e)
    ensures var w' := Advance(w, e);
            && |w'.requests| == |w.requests| + (if RequestIn(e).Some? then 1 else 0)
            && (forall i :: 0 <= i < |w.requests| ==> w'.requests[i].client == w.requests[i].client)
            && (RequestIn(e).Some? ==> w'.requests[|w.requests|].client == e.client)
            && w.proxy.sgsnOut <= w'.proxy.sgsnOut
  {
    HlrCorrelation.EventLawful(w.proxy, e);
    hide Step, Enabled, HlrCorrelation.Filed, HlrCorrelation.AnswersEntry;
    forall i | 0 <= i < |w.requests|
      ensures Advance(w, e).requests[i] == Settled(w.requests[i], w.proxy, Advance(w, e).proxy)
    {
    }
  }

  /** What an event at the proxy leaves to the rest. */
  lemma {:induction false} ProxySound(n: Net, e: Event, conn: nat, inbox: seq<Inbound>)
    requires NetSound(n) && Enabled(n.world.proxy, e) && (e.GsupIn? ==> e.client != 0)
    requires RequestIn(e).Some? ==> conn < |n.issued| && e.client == n.issued[conn]
    requires forall i :: 0 <= i < |inbox| ==> inbox[i].conn < |n.issued|
    ensures NetSound(n.(world := Advance(n.world, e), inbox := inbox,
                        origins := n.origins + if RequestIn(e).Some? then [conn] else []))
  {
    hide Advance, Step, Enabled, RequestIn, Addressed, RegistryHonest, DeliveriesRight, ViewsSound;
    LedgerGrows(n.world, e);
    StepAddressed(n.world.proxy, e);
    WorldProxy(n.world, e);
    var n' := n.(world := Advance(n.world, e), inbox := inbox,
                 origins := n.origins + if RequestIn(e).Some? then [conn] else []);
    SameRegistry(n, n');
    SameViews(n, n');
    DeliveriesKept(n, n');
  }

  lemma {:induction false} WorldProxy(w: World, e: Event)
    requires Enabled(w.proxy, e)
    ensures Advance(w, e).proxy == Step(w.proxy, e)
  {
    hide Step, Enabled, NewRequest, Bookkept;
  }

  lemma {:induction false} SameViews(n: Net, n': Net)
    requires ViewsSound(n) && n'.views == n.views
    ensures ViewsSound(n')
  {
  }

  lemma {:induction false} NoRequestWithoutGsup(e: Event)
    ensures !e.GsupIn? ==> RequestIn(e).None?
  {
  }

  lemma {:induction false} HandleSound(n: Net, now: int)
    requires NetSound(n) && Possible(n, Handle(now))
    ensures NetSound(NetStep(n, Handle(now)))
  {
    hide InOrder, GateHolds, Addressed, Advance, RequestIn, RegistryHonest, OriginsRight, DeliveriesRight, ViewsSound;
    assert Enabled(n.world.proxy, GsupEvent(n, now));
    hide Enabled;
    ProxySound(n, GsupEvent(n, now), n.inbox[0].conn, n.inbox[1..]);
  }

  lemma {:induction false} InternalSound(n: Net, event: Event)
    requires NetSound(n) && Possible(n, Internal(event))
    ensures NetSound(NetStep(n, Internal(event)))
  {
    hide InOrder, GateHolds, Addressed, Advance, RequestIn, RegistryHonest, OriginsRight, DeliveriesRight, ViewsSound,
         Enabled;
    NoRequestWithoutGsup(event);
    ProxySound(n, event, 0, n.inbox);
    assert n.origins + [] == n.origins;
  }

  /** Every event keeps registry, sessions, origins and deliveries right, fresh ids or not. */
  lemma {:induction false} StepSound(n: Net, e: NetEvent)
    requires NetSound(n) && Possible(n, e)
    ensures NetSound(NetStep(n, e))
  {
    hide NetSound, Advance, RequestIn, Enabled, CanHappen, After;
    match e {
      case Accept => AcceptSound(n);
      case AtSocket(conn, event) => SocketSound(n, conn, event);
      case Handle(now) => HandleSound(n, now);
      case Internal(event) => InternalSound(n, event);
      case Dispatch => DispatchSound(n);
      case ServerStops => StopSound(n);
    }
  }

  // --------------------------------------------------------------- theorems

  function StartNet(timeout: int): Net {
    Net(World(Start(timeout), []), EmptyRegistry(), [], [], [], [], 0, {})
  }

  /** Any run of proxy, server and sessions with fewer than 2^64 accepts; ids may be reissued. */
  ghost predicate IsNetRun(ns: seq<Net>, es: seq<NetEvent>, timeout: int) {
    && |ns| == |es| + 1 && ns[0] == StartNet(timeout)
    && forall i :: 0 <= i < |es| ==> Possible(ns[i], es[i]) && ns[i + 1] == NetStep(ns[i], es[i])
  }

  lemma {:induction false} StartSound(timeout: int)
    ensures NetSound(StartNet(timeout)) && Safe(StartNet(timeout).world)
  {
    Conservation.StartIsSafe(timeout);
    hide Safe;
  }

  /** Over every run, ids reissued or not: connection ids are nonzero and never reused, active sessions
      are registered ones, every session keeps its order and its gate, and what was delivered stands at
      its place on the connection it was addressed to; no reply is ever broadcast. */
  lemma {:induction false} RunsAreSound(ns: seq<Net>, es: seq<NetEvent>, timeout: int, n: nat)
    requires IsNetRun(ns, es, timeout) && n < |ns|
    ensures NetSound(ns[n])
  {
    hide NetSound, NetStep, Possible, StartNet;
    if n == 0 {
      StartSound(timeout);
    } else {
      RunsAreSound(ns, es, timeout, n - 1);
      StepSound(ns[n - 1], es[n - 1]);
    }
  }

  /** The event does not give a live id to a request. */
  predicate FreshNet(n: Net, e: NetEvent) {
    ProxyEvent(n, e).Some? ==> FreshId(n.world.proxy, ProxyEvent(n, e).value)
  }

  /** What an event does to the proxy and its ledger. */
  lemma {:induction false} WorldStep(n: Net, e: NetEvent)
    requires Possible(n, e)
    ensures ProxyEvent(n, e).Some? ==> Enabled(n.world.proxy, ProxyEvent(n, e).value)
    ensures NetStep(n, e).world == if ProxyEvent(n, e).None? then n.world else Advance(n.world, ProxyEvent(n, e).value)
  {
    hide Advance, CanHappen, After, RequestIn;
  }

  lemma {:induction false} StepNetSafeExactly(n: Net, e: NetEvent)
    requires Safe(n.world) && Possible(n, e)
    ensures Safe(NetStep(n, e).world) <==> FreshNet(n, e)
  {
    hide Safe, FreshId, Possible, NetStep, Advance, Enabled, ProxyEvent;
    WorldStep(n, e);
    if ProxyEvent(n, e).Some? { Conservation.StepSafeExactly(n.world, ProxyEvent(n, e).value); }
  }

  lemma {:induction false} NetSafeUpTo(ns: seq<Net>, es: seq<NetEvent>, timeout: int, n: nat)
    requires IsNetRun(ns, es, timeout) && n < |ns| && forall i :: 0 <= i < n ==> FreshNet(ns[i], es[i])
    ensures Safe(ns[n].world)
  {
    hide Safe, NetStep, Possible, FreshNet;
    if n == 0 {
      StartSound(timeout);
    } else {
      NetSafeUpTo(ns, es, timeout, n - 1);
      StepNetSafeExactly(ns[n - 1], es[n - 1]);
    }
  }

  /** The safety of the proxy over combined runs, exactly: in every state, if and only if no live id is
      ever reissued. */
  lemma {:induction false} NetRunsSafeExactly(ns: seq<Net>, es: seq<NetEvent>, timeout: int)
    requires IsNetRun(ns, es, timeout)
    ensures (forall n :: 0 <= n < |ns| ==> Safe(ns[n].world)) <==> (forall i :: 0 <= i < |es| ==> FreshNet(ns[i], es[i]))
  {
    hide Safe, NetStep, Possible, FreshNet;
    if forall n :: 0 <= n < |ns| ==> Safe(ns[n].world) {
      forall i | 0 <= i < |es| ensures FreshNet(ns[i], es[i]) {
        assert Possible(ns[i], es[i]) && ns[i + 1] == NetStep(ns[i], es[i]) && Safe(ns[i].world) && Safe(ns[i + 1].world);
        StepNetSafeExactly(ns[i], es[i]);
      }
    }
    if forall i :: 0 <= i < |es| ==> FreshNet(ns[i], es[i]) {
      forall n | 0 <= n < |ns| ensures Safe(ns[n].world) {
        NetSafeUpTo(ns, es, timeout, n);
      }
    }
  }

  /** The delivery is of the answer to the i-th request. */
  predicate AnswerDelivered(n: Net, i: int, d: Delivery) {
    0 <= i < |n.world.requests| && d in n.deliveries && n.world.requests[i].fate == Answered(d.send)
  }

  /** With fewer than 2^64 connections, over every run: connection ids are nonzero and never reused,
      active sessions are registered ones, and a reply, if it is delivered, is delivered to the one
      connection whose id it bears. As long as no live id was reissued, that is the connection the
      answered request came from, and no answer is delivered twice. */
  lemma {:induction false} AnswersReachTheirConnection(ns: seq<Net>, es: seq<NetEvent>, timeout: int, n: nat)
    requires IsNetRun(ns, es, timeout) && n < |ns|
    ensures SubMap(ns[n].registry)
    ensures forall k :: 0 <= k < |ns[n].issued| ==> ns[n].issued[k] != 0
    ensures forall k, l :: 0 <= k < l < |ns[n].issued| ==> ns[n].issued[k] != ns[n].issued[l]
    ensures forall d :: d in ns[n].deliveries ==>
              && d.send < |ns[n].world.proxy.sgsnOut| && d.conn < |ns[n].issued|
              && (ns[n].world.proxy.sgsnOut[d.send].answers.Some? ==>
                    ns[n].issued[d.conn] == ns[n].world.proxy.sgsnOut[d.send].to)
    ensures |ns[n].origins| == |ns[n].world.requests|
    ensures (forall i :: 0 <= i < n ==> FreshNet(ns[i], es[i])) ==>
              forall i, d :: AnswerDelivered(ns[n], i, d) ==> d.conn == ns[n].origins[i]
    ensures (forall i :: 0 <= i < n ==> FreshNet(ns[i], es[i])) ==>
              forall i, d, d' :: AnswerDelivered(ns[n], i, d) && AnswerDelivered(ns[n], i, d') ==> d == d'
  {
    hide FreshNet, InOrder, GateHolds, PendingOnRecord, RecordsPending, RepliesAccounted, TablesAgree;
    RunsAreSound(ns, es, timeout, n);
    if forall i :: 0 <= i < n ==> FreshNet(ns[i], es[i]) {
      NetSafeUpTo(ns, es, timeout, n);
      hide IsNetRun;
      AnswersDeliveredRight(ns[n]);
    }
    hide IsNetRun;
    forall d | d in ns[n].deliveries ensures Stands(ns[n], d) { }
  }

  lemma {:induction false} AnswersDeliveredRight(n: Net)
    requires NetSound(n) && Safe(n.world)
    ensures |n.origins| == |n.world.requests|
    ensures forall i, d :: AnswerDelivered(n, i, d) ==> d.conn == n.origins[i]
    ensures forall i, d, d' :: AnswerDelivered(n, i, d) && AnswerDelivered(n, i, d') ==> d == d'
  {
    hide InOrder, GateHolds, PendingOnRecord, RecordsPending, RepliesAccounted, TablesAgree, Addressed, ViewsSound,
         RegistryHonest;
    forall i, d | AnswerDelivered(n, i, d) ensures d.conn == n.origins[i] {
      assert Stands(n, d);
      var r := n.world.requests[i];
      assert n.world.proxy.sgsnOut[d.send].to == r.client == n.issued[n.origins[i]] == n.origins[i] + 1;
    }
  }
}

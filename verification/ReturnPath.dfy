/** The way back, from end to end: from the octets of an HLR answer to the frame an SGSN reads. */
module ReturnPath {
  import opened Basics
  import opened Ber
  import opened GsupMessages
  import opened MapMessages
  import opened Converter
  import opened ProxyModel
  import opened ProxySafety
  import opened Routing
  import Gsup = GsupCodec
  import Map = MapCodec
  import Ipa = IpaCodec
  import GsupRoundTrip
  import MapRoundTrip
  import Layering
  import M3uaStream
  import Pipeline
  import Addressing
  import Servers
  import Sessions
  import SessionRuns
  import Stream

  // ----------------------------------------------------------- size of a reply

  lemma {:induction false} TlvHolds(tag: Byte, v: Bytes)
    requires TlvBytes(tag, v).Success?
    ensures |v| + 2 <= |TlvBytes(tag, v).value|
  {
  }

  lemma {:induction false} TripletNoLarger(t: Triplet)
    requires Map.TripletTlv(t).Success? && Gsup.TupleBody(TripletTuple(t)).Success?
    ensures 2 + |Gsup.TupleBody(TripletTuple(t)).value| <= 2 * |Map.TripletTlv(t).value|
  {
    hide TlvBytes;
    TlvHolds(BER_OCTETS, t.rand);
    TlvHolds(BER_OCTETS, t.sres);
    TlvHolds(BER_OCTETS, t.kc);
    var inner := Map.OctetsTlv(t.rand).value + Map.OctetsTlv(t.sres).value + Map.OctetsTlv(t.kc).value;
    TlvHolds(BER_SEQUENCE, inner);
  }

  lemma {:induction false} QuintupletNoLarger(q: Quintuplet)
    requires Map.QuintupletTlv(q).Success? && Gsup.TupleBody(QuintupletTuple(q)).Success?
    ensures 2 + |Gsup.TupleBody(QuintupletTuple(q)).value| <= 2 * |Map.QuintupletTlv(q).value|
  {
    hide TlvBytes;
    TlvHolds(BER_OCTETS, q.rand);
    TlvHolds(BER_OCTETS, q.xres);
    TlvHolds(BER_OCTETS, q.ck);
    TlvHolds(BER_OCTETS, q.ik);
    TlvHolds(BER_OCTETS, q.autn);
    var inner := Map.OctetsTlv(q.rand).value + Map.OctetsTlv(q.xres).value + Map.OctetsTlv(q.ck).value
                 + Map.OctetsTlv(q.ik).value + Map.OctetsTlv(q.autn).value;
    TlvHolds(BER_SEQUENCE, inner);
  }

  lemma {:induction false} TupleIesSnoc(init: seq<AuthTuple>, last: AuthTuple)
    ensures var r, body := Gsup.TupleIes(init + [last]), Gsup.TupleBody(last);
            && (r.Success? <==> Gsup.TupleIes(init).Success? && body.Success?)
            && (r.Success? ==> |r.value| == |Gsup.TupleIes(init).value| + 2 + |body.value|)
  {
    hide Gsup.TupleBody;
    var all := init + [last];
    assert all[..|all| - 1] == init;
  }

  /** In GSUP the vectors of an answer take at most twice the octets they took in MAP. */
  lemma {:induction false} VectorsNoLarger(ts: seq<Triplet>, qs: seq<Quintuplet>)
    requires Map.TripletTlvs(ts).Success? && Map.QuintupletTlvs(qs).Success?
    requires Gsup.TupleIes(Tuples(ts, qs)).Success?
    ensures |Gsup.TupleIes(Tuples(ts, qs)).value|
         <= 2 * (|Map.TripletTlvs(ts).value| + |Map.QuintupletTlvs(qs).value|)
    decreases |ts| + |qs|
  {
    hide Gsup.TupleIes, Gsup.TupleBody, Map.TripletTlv, Map.QuintupletTlv;
    if qs != [] {
      var init, last := qs[..|qs| - 1], qs[|qs| - 1];
      assert Tuples(ts, qs) == Tuples(ts, init) + [QuintupletTuple(last)];
      TupleIesSnoc(Tuples(ts, init), QuintupletTuple(last));
      QuintupletNoLarger(last);
      VectorsNoLarger(ts, init);
    } else if ts != [] {
      var init, last := ts[..|ts| - 1], ts[|ts| - 1];
      assert Tuples(ts, qs) == Tuples(init, qs) + [TripletTuple(last)];
      TupleIesSnoc(Tuples(init, qs), TripletTuple(last));
      TripletNoLarger(last);
      VectorsNoLarger(init, qs);
    } else {
      NoTuples();
    }
  }

  lemma {:induction false} NoTuples()
    ensures Tuples([], []) == [] && Gsup.TupleIes(Tuples([], [])) == Success([])
  {
  }

  /** The arguments of a result lie within its encoding. */
  lemma {:induction false} ArgumentsWithin(m: MapMessage)
    requires m.component.ReturnResult? && Map.KnownOperation(m.operation) && Map.Encoded(m).Success?
    ensures Map.ArgFields(m).Success? && |Map.ArgFields(m).value| <= |Map.Encoded(m).value|
  {
    hide TlvBytes, Map.ArgFields, IntBytes;
    var inner := Map.ArgFields(m).value;
    TlvHolds(BER_SEQUENCE, inner);
    var args := Map.ArgBytes(m).value;
    var id, op := Map.IntTlv(m.invokeId).value, Map.IntTlv(m.operation).value;
    TlvHolds(BER_SEQUENCE, op + args);
    var result := TlvBytes(BER_SEQUENCE, op + args).value;
    TlvHolds(COMP_RETURN_RESULT, id + result);
    var component := Map.ComponentBytes(m, args).value;
    TlvHolds(TCAP_COMPONENTS, component);
    var tid := TlvBytes(TCAP_DTID, BE32(m.transactionId)).value;
    TlvHolds(TCAP_END, tid + TlvBytes(TCAP_COMPONENTS, component).value);
  }

  /** What the converter sees of an answer after the wire and the tables. */
  function Seen(s: ProxyState, m: MapMessage): MapMessage
    requires m.transactionId in s.Transactions()
  {
    InContext(s, MapRoundTrip.Carried(m))
  }

  lemma {:induction false} CarriedId(m: MapMessage)
    ensures MapRoundTrip.Carried(m).transactionId == m.transactionId
    ensures MapRoundTrip.Carried(m).component == m.component
  {
  }

  /** The vectors that are seen are those of the answer, or none. */
  lemma {:induction false} VectorsSeen(s: ProxyState, m: MapMessage)
    requires m.transactionId in s.Transactions() && !m.component.Invoke? && MapToGsup(Seen(s, m)).Success?
    ensures var tuples := MapToGsup(Seen(s, m)).value.authTuples;
            || tuples == Tuples([], [])
            || (m.component.ReturnResult? && m.operation == SEND_AUTHENTICATION_INFO
                && tuples == Tuples(m.triplets, m.quintuplets))
    ensures var g := MapToGsup(Seen(s, m)).value;
            g == BLANK_GSUP.(mtype := g.mtype, imsi := g.imsi, cause := g.cause, authTuples := g.authTuples,
                             hlrNumber := g.hlrNumber, freezePtmsi := g.freezePtmsi)
  {
    hide Tuples;
    NoTuples();
  }

  lemma {:induction false} PlainReplySize(g: GsupMessage)
    requires g == BLANK_GSUP.(mtype := g.mtype, imsi := g.imsi, cause := g.cause, authTuples := g.authTuples,
                              hlrNumber := g.hlrNumber, freezePtmsi := g.freezePtmsi)
    requires Gsup.Encoded(g).Success?
    ensures Gsup.TupleIes(g.authTuples).Success?
    ensures |Gsup.Encoded(g).value| <= 300 + |Gsup.TupleIes(g.authTuples).value|
  {
    hide Gsup.TupleIes;
    assert Gsup.PdpIes([]) == Success([]);
  }

  /** The reply to an answer that came in one SCCP unit fits one IPA frame. */
  lemma {:induction false} ReplyFitsFrame(s: ProxyState, m: MapMessage)
    requires m.transactionId in s.Transactions() && !m.component.Invoke?
    requires Map.Encoded(m).Success? && |Map.Encoded(m).value| <= 0xFF
    requires MapToGsup(Seen(s, m)).Success? && Gsup.Encoded(MapToGsup(Seen(s, m)).value).Success?
    ensures |Gsup.Encoded(MapToGsup(Seen(s, m)).value).value| < Ipa.MAX_WIRE_LEN
  {
    hide Gsup.Encoded, Gsup.TupleIes, Map.Encoded, MapToGsup, Seen, Tuples, Map.TripletTlvs, Map.QuintupletTlvs;
    var g := MapToGsup(Seen(s, m)).value;
    VectorsSeen(s, m);
    PlainReplySize(g);
    NoTuples();
    if g.authTuples != Tuples([], []) {
      ArgumentsWithin(m);
      VectorsNoLarger(m.triplets, m.quintuplets);
    }
  }

  // ---------------------------------------------------------------- the answer

  /** The i-th request is pending, and `m` is an answer to it that fits one SCCP unit and that the
      wire of the SGSN can carry. */
  ghost predicate DeliverableAnswer(w: World, i: nat, m: MapMessage) {
    && i < |w.requests| && w.requests[i].fate.Pending? && Pipeline.Answers(m, w.requests[i])
    && Map.Encoded(m).Success? && |Map.Encoded(m).value| <= 0xFF
    && m.transactionId in w.proxy.Transactions()
    && MapToGsup(Seen(w.proxy, m)).Success? && GsupRoundTrip.FitsWire(MapToGsup(Seen(w.proxy, m)).value)
  }

  /** The GSUP message the SGSN is to read. */
  ghost function AnswerFor(w: World, i: nat, m: MapMessage): GsupMessage
    requires DeliverableAnswer(w, i, m)
  {
    MapToGsup(Seen(w.proxy, m)).value
  }

  /** The octets of the answer make the proxy reply to the client of the request with octets that
      decode to the converted answer, and settle the request with that reply. */
  lemma {:induction false} AnswerSettles(w: World, i: nat, m: MapMessage, now: int)
    requires Safe(w) && DeliverableAnswer(w, i, m)
    ensures var g, r, j := AnswerFor(w, i, m), w.requests[i], |w.proxy.sgsnOut|;
            var w' := Advance(w, MapIn(Map.Encoded(m).value, now));
            && Gsup.Encoded(g).Success? && Gsup.Decoded(Gsup.Encoded(g).value) == Success(g)
            && |Gsup.Encoded(g).value| < Ipa.MAX_WIRE_LEN
            && w'.proxy.sgsnOut == w.proxy.sgsnOut + [SgsnSend(Gsup.Encoded(g).value, r.client, Some(r.tid))]
            && i < |w'.requests| && w'.requests[i] == r.(fate := Answered(j))
  {
    hide Map.Encoded, Map.Decoded, Gsup.Encoded, Gsup.Decoded, MapToGsup, Seen, OnAnswer, OperationOf, RecordsPending,
         AnswersDelivered, RepliesAccounted, GsupRoundTrip.FitsWire, Pipeline.Answerable, MapRoundTrip.Carried,
         ReplyFor;
    var c, r, e := MapRoundTrip.Carried(m), w.requests[i], MapIn(Map.Encoded(m).value, now);
    assert OnRecord(r, w.proxy);
    CarriedId(m);
    MapRoundTrip.RoundTripExact(m);
    NotInvokeFaithful(m);
    assert Seen(w.proxy, m) == InContext(w.proxy, c) by { SeenIs(w.proxy, m); }
    hide InContext;
    Pipeline.ReplyIsReadable(w.proxy, c);
    ReplyFitsFrame(w.proxy, m);
    assert Step(w.proxy, e) == OnAnswer(w.proxy, c);
    var w', j := Advance(w, e), |w.proxy.sgsnOut|;
    ReplyForFinds(w'.proxy.sgsnOut, j, r.tid);
    assert w'.proxy.sgsnOut[j].answers == Some(r.tid);
    assert w'.requests[i] == Settled(r, w.proxy, w'.proxy);
  }

  lemma {:induction false} SeenIs(s: ProxyState, m: MapMessage)
    requires m.transactionId in s.Transactions()
    ensures MapRoundTrip.Carried(m).transactionId == m.transactionId
    ensures Seen(s, m) == InContext(s, MapRoundTrip.Carried(m))
  {
  }

  lemma {:induction false} NotInvokeFaithful(m: MapMessage)
    requires !m.component.Invoke?
    ensures MapRoundTrip.Faithful(m)
  {
  }

  // ------------------------------------------------------------ until dispatch

  /** What later states of a combined run keep. */
  ghost predicate NetLater(n: Net, n': Net) {
    && n.world.proxy.sgsnOut <= n'.world.proxy.sgsnOut && n.deliveries <= n'.deliveries
    && n.issued <= n'.issued && n.origins <= n'.origins
  }

  lemma {:induction false} NetStepLater(n: Net, e: NetEvent)
    requires Possible(n, e)
    ensures NetLater(n, NetStep(n, e))
  {
    hide Advance, RequestIn, Enabled, SessionRuns.CanHappen, SessionRuns.After, Callbacks, NewDeliveries, Targets;
    WorldStep(n, e);
    if ProxyEvent(n, e).Some? { LedgerGrows(n.world, ProxyEvent(n, e).value); }
  }

  lemma {:induction false} NetRunLater(ns: seq<Net>, es: seq<NetEvent>, timeout: int, a: nat, b: nat)
    requires IsNetRun(ns, es, timeout) && a <= b < |ns|
    ensures NetLater(ns[a], ns[b])
  {
    hide NetStep, Possible, StartNet;
    if a < b {
      NetRunLater(ns, es, timeout, a, b - 1);
      hide NetLater;
      NetStepLater(ns[b - 1], es[b - 1]);
      NetLaterChains(ns[a], ns[b - 1], ns[b]);
    }
  }

  lemma {:induction false} NetLaterChains(x: Net, y: Net, z: Net)
    requires NetLater(x, y) && NetLater(y, z)
    ensures NetLater(x, z)
  {
  }

  /** The connection is active, and its session ready. */
  predicate Open(n: Net, conn: nat)
    requires conn < |n.issued| && conn < |n.views|
  {
    n.issued[conn] in n.registry.sessions && n.views[conn].phase.Ready?
  }

  // ------------------------------------------------------------------ the SGSN

  /** The decoder of the SGSN gives the frame at that place. */
  ghost predicate ReadAt(f: Ipa.IpaFrame, k: nat, chunks: seq<Bytes>) {
    var d := Stream.Reassembled(Ipa.IpaCut, chunks);
    !d.broken && k < |d.frames| && Sessions.FramesIn(d.frames)[k] == f
  }

  /** In this state, the frame is read at this place of the connection, however its octets are split,
      if it has been written and no rejected frame was written before. */
  ghost predicate Readable(n: Net, conn: nat, place: nat, f: Ipa.IpaFrame) {
    && conn < |n.views|
    && (place < |n.views[conn].socket| && SessionRuns.ShortSoFar(n.views[conn]) ==>
          forall chunks :: Flatten(chunks) == Flatten(n.views[conn].socket) ==> ReadAt(f, place, chunks))
  }

  /** What was delivered is, once written, what the SGSN's decoder reads at its place, however the
      octets of the connection are split. */
  lemma {:induction false} DeliveredIsRead(n: Net, d: Delivery)
    requires NetSound(n) && d in n.deliveries
    ensures d.send < |n.world.proxy.sgsnOut| && Readable(n, d.conn, d.place, FrameFor(n.world.proxy.sgsnOut[d.send]))
  {
    hide OriginsRight, RegistryHonest, Addressing.Addressed, SessionRuns.GateHolds, ReadAt;
    assert Stands(n, d);
    var v := n.views[d.conn];
    if d.place < |v.socket| && SessionRuns.ShortSoFar(v) {
      hide Sessions.InOrder, SessionRuns.ShortSoFar;
      InOrderLength(v);
      forall chunks | Flatten(chunks) == Flatten(v.socket)
        ensures ReadAt(FrameFor(n.world.proxy.sgsnOut[d.send]), d.place, chunks)
      {
        SessionRuns.PeerReads(v, chunks);
        FrameAtPlace(v, d.place, chunks);
      }
    }
  }

  lemma {:induction false} FrameAtPlace(v: Sessions.SessionView, place: nat, chunks: seq<Bytes>)
    requires place < |v.socket| <= |v.sent|
    requires var d := Stream.Reassembled(Ipa.IpaCut, chunks);
             !d.broken && Sessions.FramesIn(d.frames) == v.sent[..|v.socket|]
    ensures ReadAt(v.sent[place], place, chunks)
  {
    hide Stream.Reassembled;
    assert |Sessions.FramesIn(Stream.Reassembled(Ipa.IpaCut, chunks).frames)| == |v.socket|;
  }

  lemma {:induction false} InOrderLength(v: Sessions.SessionView)
    requires Sessions.InOrder(v)
    ensures |v.socket| <= |v.sent|
  {
  }

  /** The answer, once delivered, is there to be read in every later state. */
  lemma {:induction false} StaysReadable(
    ns: seq<Net>, es: seq<NetEvent>, timeout: int, b: nat, c: nat, d: Delivery, f: Ipa.IpaFrame)
    requires IsNetRun(ns, es, timeout) && b <= c < |ns| && d in ns[b].deliveries
    requires d.send < |ns[b].world.proxy.sgsnOut| && FrameFor(ns[b].world.proxy.sgsnOut[d.send]) == f
    ensures Readable(ns[c], d.conn, d.place, f)
  {
    hide NetSound, Readable;
    NetRunLater(ns, es, timeout, b, c);
    RunsAreSound(ns, es, timeout, c);
    hide IsNetRun;
    DeliveredIsRead(ns[c], d);
  }

  /** The send of this index put the frame at the end of what the connection was sent, if that was open
      when it was executed, and did nothing else. */
  ghost predicate Enqueues(n: Net, n': Net, conn: nat, send: nat, f: Ipa.IpaFrame)
    requires conn < |n.issued| && conn < |n.views|
  {
    var v := n.views[conn];
    if Open(n, conn) then
      && n'.deliveries == n.deliveries + {Delivery(conn, send, |v.sent|)}
      && n'.views == n.views[conn := Servers.SentIfReady(v, f)] && n'.views[conn].sent == v.sent + [f]
    else n'.deliveries == n.deliveries && n'.views == n.views
  }

  /** Executing a send to one connection enqueues its frame there, and touches no other. */
  lemma {:induction false} DispatchTo(n: Net, conn: nat)
    requires NetSound(n) && Possible(n, Dispatch) && conn < |n.issued|
    requires n.world.proxy.sgsnOut[n.dispatched].to == n.issued[conn]
    requires Ipa.Encoded(FrameFor(n.world.proxy.sgsnOut[n.dispatched])).Success?
    ensures conn < |n.views|
    ensures Enqueues(n, NetStep(n, Dispatch), conn, n.dispatched, FrameFor(n.world.proxy.sgsnOut[n.dispatched]))
  {
    hide NetSound, Ipa.Encoded, Takes, Targets, ViewsAfterSend, NewDeliveries, Servers.SentIfReady;
    LengthsAgree(n);
    DispatchIs(n);
    hide NetStep, Possible;
    var v, f := n.views[conn], FrameFor(n.world.proxy.sgsnOut[n.dispatched]);
    hide FrameFor;
    OneTarget(n, conn);
    assert n.deliveries + {} == n.deliveries;
    if n.issued[conn] in n.registry.sessions {
      SentToOne(n, conn, f);
      SentAtEnd(n, conn, f);
    } else {
      SentToNone(n, f);
    }
  }

  lemma {:induction false} SentAtEnd(n: Net, conn: nat, f: Ipa.IpaFrame)
    requires NetSound(n) && conn < |n.views|
    ensures Takes(n.views[conn], f) ==> Servers.SentIfReady(n.views[conn], f).sent == n.views[conn].sent + [f]
  {
    hide Sessions.InOrder, SessionRuns.GateHolds, OriginsRight, DeliveriesRight, RegistryHonest, Addressing.Addressed;
    SendGrows(n.views[conn], f);
    hide Takes, Servers.SentIfReady;
  }

  /** Executing a broadcast enqueues its frame on exactly the open connections, once each. */
  lemma {:induction false} DispatchToAll(n: Net)
    requires NetSound(n) && Possible(n, Dispatch) && n.world.proxy.sgsnOut[n.dispatched].to == 0
    requires Ipa.Encoded(FrameFor(n.world.proxy.sgsnOut[n.dispatched])).Success?
    ensures |n.views| == |n.issued| && |NetStep(n, Dispatch).views| == |n.views|
    ensures var n', f := NetStep(n, Dispatch), FrameFor(n.world.proxy.sgsnOut[n.dispatched]);
            forall c :: 0 <= c < |n.views| ==>
              n'.views[c] == if Open(n, c) then Servers.SentIfReady(n.views[c], f) else n.views[c]
  {
    hide NetSound, Ipa.Encoded, Servers.SentIfReady, NewDeliveries, Targets;
    LengthsAgree(n);
    DispatchIs(n);
    AllTargets(n);
    var f := FrameFor(n.world.proxy.sgsnOut[n.dispatched]);
    NotReadySame(f);
    hide NetStep, Possible, FrameFor;
  }

  lemma {:induction false} AllTargets(n: Net)
    requires NetSound(n)
    ensures |n.views| == |n.issued|
    ensures forall c :: 0 <= c < |n.views| ==> (c in Targets(n.registry, 0) <==> n.issued[c] in n.registry.sessions)
  {
    hide OriginsRight, DeliveriesRight, ViewsSound, Addressing.Addressed;
    forall c | 0 <= c < |n.views|
      ensures c in Targets(n.registry, 0) <==> n.issued[c] in n.registry.sessions
    {
      if n.issued[c] in n.registry.sessions {
        assert n.registry.sessions[n.issued[c]] == c;
      }
      if c in Targets(n.registry, 0) {
        var id :| id in n.registry.sessions && n.registry.sessions[id] == c;
        assert n.issued[c] == id;
      }
    }
  }

  lemma {:induction false} NotReadySame(f: Ipa.IpaFrame)
    ensures forall v: Sessions.SessionView :: !v.phase.Ready? ==> Servers.SentIfReady(v, f) == v
  {
    hide Ipa.Encoded, Sessions.Enqueued;
  }

  lemma {:induction false} OneTarget(n: Net, conn: nat)
    requires NetSound(n) && conn < |n.issued|
    ensures n.issued[conn] != 0
    ensures Targets(n.registry, n.issued[conn]) == if n.issued[conn] in n.registry.sessions then {conn} else {}
  {
    hide OriginsRight, DeliveriesRight, ViewsSound, Addressing.Addressed;
    if n.issued[conn] in n.registry.sessions { assert n.registry.sessions[n.issued[conn]] == conn; }
  }

  lemma {:induction false} SentToOne(n: Net, conn: nat, f: Ipa.IpaFrame)
    requires conn < |n.views| && Ipa.Encoded(f).Success?
    ensures Takes(n.views[conn], f) <==> n.views[conn].phase.Ready?
    ensures ViewsAfterSend(n.views, {conn}, f)
         == if Takes(n.views[conn], f) then n.views[conn := Servers.SentIfReady(n.views[conn], f)] else n.views
    ensures NewDeliveries(n.views, {conn}, f, n.dispatched)
         == if Takes(n.views[conn], f) then {Delivery(conn, n.dispatched, |n.views[conn].sent|)} else {}
  {
    hide Ipa.Encoded, Sessions.Enqueued;
  }

  lemma {:induction false} SentToNone(n: Net, f: Ipa.IpaFrame)
    ensures ViewsAfterSend(n.views, {}, f) == n.views && NewDeliveries(n.views, {}, f, n.dispatched) == {}
  {
  }

  /** The return path. The octets of an answer to a pending request, split into chunks in any way, are
      handed to the proxy; handling them settles the request with one reply; when the server executes
      that send, in whatever state the run is by then, its frame goes to the end of what the connection
      that the request came from was sent, if that connection is open, and nowhere else; and in every
      later state in which the frame has been written, the SGSN that reads that connection, again split
      in any way, finds at its place the converted answer. */
  lemma {:induction false} AnswerReachesSgsn(
    ns: seq<Net>, es: seq<NetEvent>, timeout: int, a: nat, b: nat, i: nat, m: MapMessage, now: int)
    requires IsNetRun(ns, es, timeout) && a < b < |es| && forall k :: 0 <= k < a ==> FreshNet(ns[k], es[k])
    requires DeliverableAnswer(ns[a].world, i, m) && es[a] == Internal(MapIn(Map.Encoded(m).value, now))
    requires es[b] == Dispatch && ns[b].dispatched == |ns[a].world.proxy.sgsnOut|
    ensures forall cfg, chunks :: Layering.ChunksOf(chunks, cfg, Map.Encoded(m).value) ==>
                                    Layering.Delivered(chunks) == [Map.Encoded(m).value]
    ensures i < |ns[a + 1].world.requests| && ns[a + 1].world.requests[i].fate == Answered(ns[b].dispatched)
    ensures i < |ns[a].origins| && ns[a].origins[i] < |ns[b].issued| == |ns[b].views|
    ensures ns[b].dispatched < |ns[b].world.proxy.sgsnOut|
    ensures var conn, j, f := ns[a].origins[i], ns[b].dispatched, FrameFor(ns[b].world.proxy.sgsnOut[ns[b].dispatched]);
            && Gsup.Decoded(f.payload) == Success(AnswerFor(ns[a].world, i, m))
            && Enqueues(ns[b], ns[b + 1], conn, j, f)
            && (Open(ns[b], conn) ==> forall c :: b < c < |ns| ==> Readable(ns[c], conn, |ns[b].views[conn].sent|, f))
  {
    hide Safe, Advance, Layering.Delivered, Layering.ChunksOf, Map.Encoded, Gsup.Decoded, Gsup.Encoded,
         DeliverableAnswer,
         AnswerFor, FreshNet, NetSound, Readable, StartNet, Open, Possible, Enqueues;
    OneUnit(ns[a].world, i, m);
    RequestIsAt(ns[a].world, i, m);
    forall cfg, chunks | Layering.ChunksOf(chunks, cfg, Map.Encoded(m).value)
      ensures Layering.Delivered(chunks) == [Map.Encoded(m).value]
    {
      Layering.ChunksDeliver(chunks, cfg, Map.Encoded(m).value);
    }
    RunsAreSound(ns, es, timeout, a);
    NetSafeUpTo(ns, es, timeout, a);
    AnswerSettles(ns[a].world, i, m, now);
    WorldStep(ns[a], es[a]);
    RunsAreSound(ns, es, timeout, b);
    NetRunLater(ns, es, timeout, a, b);
    NetRunLater(ns, es, timeout, a + 1, b);
    OriginOf(ns[a], i);
    LengthsAgree(ns[b]);
    var conn, j := ns[a].origins[i], ns[b].dispatched;
    var f := FrameFor(ns[b].world.proxy.sgsnOut[j]);
    Ipa.Encodes(f);
    DispatchTo(ns[b], conn);
    if Open(ns[b], conn) {
      var d := Delivery(conn, j, |ns[b].views[conn].sent|);
      StepKeepsLog(ns, es, timeout, b);
      assert d in ns[b + 1].deliveries by { OpenDelivers(ns[b], ns[b + 1], conn, j, f); }
      forall c | b < c < |ns| ensures Readable(ns[c], conn, |ns[b].views[conn].sent|, f) {
        StaysReadable(ns, es, timeout, b + 1, c, d, f);
      }
    }
  }

  lemma {:induction false} OpenDelivers(n: Net, n': Net, conn: nat, send: nat, f: Ipa.IpaFrame)
    requires conn < |n.issued| && conn < |n.views| && Enqueues(n, n', conn, send, f) && Open(n, conn)
    ensures Delivery(conn, send, |n.views[conn].sent|) in n'.deliveries
  {
  }

  lemma {:induction false} StepKeepsLog(ns: seq<Net>, es: seq<NetEvent>, timeout: int, b: nat)
    requires IsNetRun(ns, es, timeout) && b < |es| && es[b] == Dispatch
    ensures ns[b + 1].world == ns[b].world
  {
    hide Possible;
  }

  lemma {:induction false} OriginOf(n: Net, i: nat)
    requires NetSound(n) && i < |n.world.requests|
    ensures i < |n.origins| && n.origins[i] < |n.issued| && n.world.requests[i].client == n.issued[n.origins[i]]
  {
    hide DeliveriesRight, ViewsSound, RegistryHonest, Addressing.Addressed;
  }

  lemma {:induction false} LengthsAgree(n: Net)
    requires NetSound(n)
    ensures |n.issued| == |n.views|
  {
    hide DeliveriesRight, ViewsSound, RegistryHonest, OriginsRight, Addressing.Addressed;
  }

  lemma {:induction false} OneUnit(w: World, i: nat, m: MapMessage)
    requires DeliverableAnswer(w, i, m)
    ensures Map.Encoded(m).Success? && |Map.Encoded(m).value| <= 0xFF
  {
    hide Map.Encoded;
  }

  lemma {:induction false} RequestIsAt(w: World, i: nat, m: MapMessage)
    requires DeliverableAnswer(w, i, m)
    ensures i < |w.requests|
  {
    hide Map.Encoded;
  }
}

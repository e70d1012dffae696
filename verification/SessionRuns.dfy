/** A session over whole runs: a FIFO channel outwards, a gated one inwards. */
module SessionRuns {
  import opened Basics
  import opened Stream
  import opened IpaCodec
  import opened Sessions

  /** A callback or call that reaches the session. */
  datatype SessionEvent = Send(payload: Bytes) | WriteEnds(ok: bool) | Chunk(data: Bytes) | ReadFails | StopCalled

  /** A write can end only if one is in flight; a chunk that makes the decoder throw ends the run. */
  predicate CanHappen(s: SessionView, e: SessionEvent) {
    match e
    case WriteEnds(_) => s.inFlight > 0 && s.queue != []
    case Chunk(data) => !Drain(IpaCut, s.buf + data).broken
    case _ => true
  }

  function After(s: SessionView, e: SessionEvent): SessionView
    requires CanHappen(s, e)
  {
    match e
    case Send(payload) =>
      var f := IpaFrame(STREAM_GSUP, payload);
      if Encoded(f).Failure? then s else Enqueued(s, f)
    case WriteEnds(ok) => Written(s, ok)
    case Chunk(data) => OnChunk(s, data)
    case ReadFails => Disconnected(s)
    case StopCalled => s.(phase := Stopped)
  }

  ghost predicate IsSessionRun(ss: seq<SessionView>, es: seq<SessionEvent>) {
    && |ss| == |es| + 1 && Encoded(ID_GET_FRAME).Success? && ss[0] == Enqueued(FRESH_VIEW, ID_GET_FRAME)
    && forall i :: 0 <= i < |es| ==> CanHappen(ss[i], es[i]) && ss[i + 1] == After(ss[i], es[i])
  }

  // --------------------------------------------------------------- outwards

  lemma {:induction false} StepInOrder(s: SessionView, e: SessionEvent)
    requires InOrder(s) && CanHappen(s, e)
    ensures InOrder(After(s, e))
  {
    hide Encoded, IpaCut, Drain, Enqueued, Written, OnFrames;
    match e {
      case Send(payload) =>
        var f := IpaFrame(STREAM_GSUP, payload);
        if Encoded(f).Success? { EnqueuedInOrder(s, f); }
      case WriteEnds(ok) => WrittenInOrder(s, ok);
      case Chunk(data) => FramesInOrder(s, FramesIn(Drain(IpaCut, s.buf + data).frames));
      case _ =>
    }
  }

  /** In every state of every run, the frames enqueued are those written followed by those waiting,
      in order, and at most one write is in flight. */
  lemma {:induction false} RunsAreInOrder(ss: seq<SessionView>, es: seq<SessionEvent>, n: nat)
    requires IsSessionRun(ss, es) && n < |ss|
    ensures InOrder(ss[n])
  {
    hide Encoded, CanHappen, After;
    if n == 0 {
      assert InOrder(FRESH_VIEW);
      EnqueuedInOrder(FRESH_VIEW, ID_GET_FRAME);
    } else {
      RunsAreInOrder(ss, es, n - 1);
      hide InOrder;
      StepInOrder(ss[n - 1], es[n - 1]);
    }
  }

  /** No frame written so far is one that the peer's decoder rejects. */
  predicate ShortSoFar(s: SessionView) {
    forall i :: 0 <= i < |s.socket| && i < |s.sent| ==> |s.sent[i].payload| < MAX_WIRE_LEN
  }

  lemma {:induction false} WrittenFrames(s: SessionView)
    requires InOrder(s) && ShortSoFar(s)
    ensures |s.socket| <= |s.sent| && s.socket == Wire(s.sent[..|s.socket|])
  {
    hide Encoded;
    forall i | 0 <= i < |s.socket| ensures Encoded(s.sent[i]) == Success(s.socket[i]) {
      assert (s.socket + s.queue)[i] == s.socket[i];
    }
  }

  /** The session is a FIFO channel: in every state of every run, a peer that reads what was written,
      split in any way, sees exactly the frames enqueued so far except those still waiting, in the
      order in which they were enqueued. */
  lemma {:induction false} ChannelIsFifo(ss: seq<SessionView>, es: seq<SessionEvent>, n: nat, chunks: seq<Bytes>)
    requires IsSessionRun(ss, es) && n < |ss| && Flatten(chunks) == Flatten(ss[n].socket)
    requires ShortSoFar(ss[n])
    ensures var s, d := ss[n], Reassembled(IpaCut, chunks);
            && |s.sent| == |s.socket| + |s.queue|
            && !d.broken && d.rest == [] && FramesIn(d.frames) == s.sent[..|s.socket|]
  {
    RunsAreInOrder(ss, es, n);
    hide IsSessionRun, Reassembled, FramesIn;
    PeerReads(ss[n], chunks);
  }

  lemma {:induction false} PeerReads(s: SessionView, chunks: seq<Bytes>)
    requires InOrder(s) && Flatten(chunks) == Flatten(s.socket)
    requires ShortSoFar(s)
    ensures var d := Reassembled(IpaCut, chunks);
            && |s.sent| == |s.socket| + |s.queue|
            && !d.broken && d.rest == [] && FramesIn(d.frames) == s.sent[..|s.socket|]
  {
    hide Encoded, IpaCut, Reassembled;
    WrittenFrames(s);
    var fs := s.sent[..|s.socket|];
    FramesSurviveChunking(fs, chunks);
    WireFrames(fs);
    hide Wire, FramesIn, FramesOf;
  }

  lemma {:induction false} WireFrames(fs: seq<IpaFrame>)
    requires forall i :: 0 <= i < |fs| ==> |fs[i].payload| < MAX_WIRE_LEN
    requires forall i :: 0 <= i < |fs| ==> |Wire(fs)[i]| >= HEADER_SIZE
    ensures FramesIn(Wire(fs)) == FramesOf(Wire(fs))
  {
    hide Encoded, FrameOf;
    var w := Wire(fs);
    assert |w| == |fs|;
    forall i | 0 <= i < |w| ensures FramesIn(w)[i] == FramesOf(w)[i] {
      assert |w[i]| >= HEADER_SIZE;
    }
  }

  // ---------------------------------------------------------------- inwards

  /** The octets fed to the session by a list of events. */
  function Fed(es: seq<SessionEvent>): Bytes {
    if es == [] then []
    else
      var last := es[|es| - 1];
      Fed(es[..|es| - 1]) + if last.Chunk? then last.data else []
  }

  /** What was received is what the octets stand for, and the buffer is what they leave over. */
  ghost predicate ReceivedAll(s: SessionView, fed: Bytes) {
    var d := Drain(IpaCut, fed);
    !d.broken && s.buf == d.rest && s.received == FramesIn(d.frames)
  }

  lemma {:induction false} FramesReceived(s: SessionView, fs: seq<IpaFrame>)
    ensures OnFrames(s, fs).received == s.received + fs
    decreases |fs|
  {
    if fs != [] {
      OneReceived(s, fs[0]);
      hide OnFrame;
      FramesReceived(OnFrame(s, fs[0]), fs[1..]);
      assert s.received + [fs[0]] + fs[1..] == s.received + fs;
    }
  }

  lemma {:induction false} OneReceived(s: SessionView, f: IpaFrame)
    ensures OnFrame(s, f).received == s.received + [f]
  {
    hide Encoded;
  }

  lemma {:induction false} StepReceived(s: SessionView, e: SessionEvent, fed: Bytes)
    requires CanHappen(s, e) && ReceivedAll(s, fed)
    ensures ReceivedAll(After(s, e), fed + if e.Chunk? then e.data else [])
  {
    if e.Chunk? {
      hide IpaCut, Drain, OnChunk;
      ChunkReceived(s, e.data, fed);
    } else {
      hide IpaCut, Drain, Encoded, FramesIn;
      assert fed + [] == fed;
    }
  }

  lemma {:induction false} ChunkReceived(s: SessionView, data: Bytes, fed: Bytes)
    requires ReceivedAll(s, fed) && !Drain(IpaCut, s.buf + data).broken
    ensures ReceivedAll(OnChunk(s, data), fed + data)
  {
    hide IpaCut, Drain, OnFrames, Stable;
    IpaStable();
    DrainMore(IpaCut, fed, data);
    var d0, d := Drain(IpaCut, fed), Drain(IpaCut, s.buf + data);
    FramesReceived(s, FramesIn(d.frames));
    FramesInAppend(d0.frames, d.frames);
    hide FramesIn;
  }

  lemma {:induction false} FramesInAppend(a: seq<Bytes>, b: seq<Bytes>)
    ensures FramesIn(a + b) == FramesIn(a) + FramesIn(b)
  {
  }

  /** Over any run, the frames received depend on the octets alone, not on how they were split. */
  lemma {:induction false} RunsReceiveAll(ss: seq<SessionView>, es: seq<SessionEvent>, n: nat)
    requires IsSessionRun(ss, es) && n < |ss|
    ensures ReceivedAll(ss[n], Fed(es[..n]))
  {
    hide CanHappen, After, Encoded;
    if n == 0 {
      assert Drain(IpaCut, []) == Drained([], [], false);
    } else {
      RunsReceiveAll(ss, es, n - 1);
      hide ReceivedAll;
      StepReceived(ss[n - 1], es[n - 1], Fed(es[..n - 1]));
      assert es[..n][..n - 1] == es[..n - 1];
    }
  }

  // ------------------------------------------------------------------- gate

  predicate IsIdResp(f: IpaFrame) { f.streamId == STREAM_CCM && f.payload != [] && f.payload[0] == CCM_ID_RESP }

  predicate Handshaken(fs: seq<IpaFrame>) { exists i :: 0 <= i < |fs| && IsIdResp(fs[i]) }

  /** The GSUP payloads that come after an identity response. */
  function Gated(fs: seq<IpaFrame>): seq<Bytes> {
    if fs == [] then []
    else
      var init, f := fs[..|fs| - 1], fs[|fs| - 1];
      Gated(init) + if f.streamId == STREAM_GSUP && Handshaken(init) then [f.payload] else []
  }

  /** `a` is `b` with some elements left out. */
  predicate Thinned(a: seq<Bytes>, b: seq<Bytes>) {
    if b == [] then a == []
    else
      || Thinned(a, b[..|b| - 1])
      || (a != [] && a[|a| - 1] == b[|b| - 1] && Thinned(a[..|a| - 1], b[..|b| - 1]))
  }

  lemma {:induction false} ThinnedGrows(a: seq<Bytes>, b: seq<Bytes>, x: Bytes)
    requires Thinned(a, b)
    ensures Thinned(a, b + [x]) && Thinned(a + [x], b + [x])
  {
    assert (b + [x])[..|b|] == b && (a + [x])[..|a|] == a;
  }

  /** Nothing is handed on before the handshake, and nothing but GSUP payloads in order of arrival. */
  ghost predicate GateHolds(s: SessionView) {
    (s.phase.Ready? ==> Handshaken(s.received)) && Thinned(s.delivered, Gated(s.received))
  }

  /** A session that never failed or was stopped hands on everything after the handshake. */
  ghost predicate GateExact(s: SessionView) {
    s.phase == (if Handshaken(s.received) then Ready else Handshaking) && s.delivered == Gated(s.received)
  }

  lemma {:induction false} ReceivedMore(fs: seq<IpaFrame>, f: IpaFrame)
    ensures Handshaken(fs + [f]) <==> Handshaken(fs) || IsIdResp(f)
    ensures Gated(fs + [f]) == Gated(fs) + if f.streamId == STREAM_GSUP && Handshaken(fs) then [f.payload] else []
  {
    assert (fs + [f])[..|fs|] == fs;
    if Handshaken(fs) {
      var i :| 0 <= i < |fs| && IsIdResp(fs[i]);
      assert (fs + [f])[i] == fs[i];
    }
    if IsIdResp(f) { assert (fs + [f])[|fs|] == f; }
  }

  /** What a frame does to the gate. */
  lemma {:induction false} FrameGate(s: SessionView, f: IpaFrame)
    ensures var s' := OnFrame(s, f);
            && s'.received == s.received + [f]
            && s'.phase == (if IsIdResp(f) then Ready else s.phase)
            && s'.delivered == s.delivered + if f.streamId == STREAM_GSUP && s.phase.Ready? then [f.payload] else []
  {
    hide Encoded;
  }

  lemma {:induction false} FrameKeepsGate(s: SessionView, f: IpaFrame)
    ensures GateHolds(s) ==> GateHolds(OnFrame(s, f))
    ensures GateExact(s) ==> GateExact(OnFrame(s, f))
  {
    hide OnFrame, Handshaken, Gated, Thinned;
    FrameGate(s, f);
    ReceivedMore(s.received, f);
    assert s.delivered + [] == s.delivered && Gated(s.received) + [] == Gated(s.received);
    if GateHolds(s) { ThinnedGrows(s.delivered, Gated(s.received), f.payload); }
  }

  lemma {:induction false} FramesKeepGate(s: SessionView, fs: seq<IpaFrame>)
    ensures GateHolds(s) ==> GateHolds(OnFrames(s, fs))
    ensures GateExact(s) ==> GateExact(OnFrames(s, fs))
    decreases |fs|
  {
    hide GateHolds, GateExact, OnFrame;
    if fs != [] {
      FrameKeepsGate(s, fs[0]);
      FramesKeepGate(OnFrame(s, fs[0]), fs[1..]);
    }
  }

  predicate Harmless(e: SessionEvent) { e.Send? || e.Chunk? || (e.WriteEnds? && e.ok) }

  lemma {:induction false} StepKeepsGate(s: SessionView, e: SessionEvent)
    requires CanHappen(s, e)
    ensures GateHolds(s) ==> GateHolds(After(s, e))
    ensures GateExact(s) && Harmless(e) ==> GateExact(After(s, e))
  {
    hide Handshaken, Gated, Thinned, Encoded, IpaCut, Drain, OnFrames;
    if e.Chunk? { FramesKeepGate(s, FramesIn(Drain(IpaCut, s.buf + e.data).frames)); }
  }

  /** The handshake gate over every run: only GSUP payloads received after an identity response are
      handed to the server, in order; and all of them, as long as nothing fails or stops. */
  lemma {:induction false} RunsAreGated(ss: seq<SessionView>, es: seq<SessionEvent>, n: nat)
    requires IsSessionRun(ss, es) && n < |ss|
    ensures GateHolds(ss[n])
    ensures (forall i :: 0 <= i < n ==> Harmless(es[i])) ==> GateExact(ss[n])
  {
    hide CanHappen, After, Encoded;
    if n > 0 {
      RunsAreGated(ss, es, n - 1);
      hide GateHolds, GateExact, Harmless;
      StepKeepsGate(ss[n - 1], es[n - 1]);
    }
  }

  /** What an SGSN sends reaches the server: whatever chunks its frames arrive in, and whatever is
      sent and written meanwhile, the server gets the GSUP payloads after the handshake, in order. */
  lemma {:induction false} FramesReachServer(ss: seq<SessionView>, es: seq<SessionEvent>, n: nat, fs: seq<IpaFrame>)
    requires IsSessionRun(ss, es) && n < |ss| && forall i :: 0 <= i < n ==> Harmless(es[i])
    requires forall i :: 0 <= i < |fs| ==> |fs[i].payload| < MAX_WIRE_LEN
    requires Fed(es[..n]) == Flatten(Wire(fs))
    ensures ss[n].received == fs && ss[n].delivered == Gated(fs)
  {
    RunsReceiveAll(ss, es, n);
    RunsAreGated(ss, es, n);
    hide IsSessionRun, Encoded, IpaCut, Harmless, Gated, Handshaken, Drain;
    OctetsAreFrames(fs);
  }

  lemma {:induction false} OctetsAreFrames(fs: seq<IpaFrame>)
    requires forall i :: 0 <= i < |fs| ==> |fs[i].payload| < MAX_WIRE_LEN
    ensures Drain(IpaCut, Flatten(Wire(fs))).frames == Wire(fs) && FramesIn(Wire(fs)) == fs
  {
    hide Encoded, IpaCut, Drain, Stable;
    var whole := [Flatten(Wire(fs))];
    assert whole[1..] == [] && Flatten(whole) == Flatten(Wire(fs));
    FramesSurviveChunking(fs, whole);
    IpaStable();
    ChunkingIrrelevant(IpaCut, whole);
    WireFrames(fs);
    hide FramesIn, FramesOf, Wire;
  }
}

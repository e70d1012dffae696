/** One IPA connection to an SGSN: the handshake gate, the write queue and the read loop. */
module Sessions {
  import opened Basics
  import opened Stream
  import opened IpaCodec

  const CCM_PING: Byte := 0x00
  const CCM_PONG: Byte := 0x01
  const CCM_ID_REQ: Byte := 0x04
  const CCM_ID_RESP: Byte := 0x05
  const CCM_ID_ACK: Byte := 0x06

  datatype Phase = Handshaking | Ready | Stopped

  /** A session and what its surroundings have seen of it: the number of writes the socket is
      working on, the octet strings it has written, the frames enqueued and received, the payloads
      handed to the server and the number of ready and disconnect callbacks. */
  datatype SessionView = SessionView(
    phase: Phase, queue: seq<Bytes>, writing: bool, buf: Bytes,
    inFlight: nat, socket: seq<Bytes>, sent: seq<IpaFrame>, received: seq<IpaFrame>,
    delivered: seq<Bytes>, readies: nat, disconnects: nat)

  const FRESH_VIEW := SessionView(Handshaking, [], false, [], 0, [], [], [], [], 0, 0)

  const ID_GET_FRAME := IpaFrame(STREAM_CCM, [CCM_ID_REQ, 0x01, 0x07])
  const ID_ACK_FRAME := IpaFrame(STREAM_CCM, [CCM_ID_ACK])
  const PONG_FRAME := IpaFrame(STREAM_CCM, [CCM_PONG])

  // --------------------------------------------------------------- handlers

  function WriteNext(s: SessionView): SessionView {
    if s.queue == [] then s.(writing := false) else s.(writing := true, inFlight := s.inFlight + 1)
  }

  function Enqueued(s: SessionView, f: IpaFrame): SessionView
    requires Encoded(f).Success?
  {
    var s1 := s.(queue := s.queue + [Encoded(f).value], sent := s.sent + [f]);
    if s.writing then s1 else WriteNext(s1)
  }

  function Disconnected(s: SessionView): SessionView {
    if s.phase.Stopped? then s else s.(phase := Stopped, disconnects := s.disconnects + 1)
  }

  /** The completion of the write of the first queued octet string. */
  function Written(s: SessionView, ok: bool): SessionView
    requires s.inFlight > 0 && s.queue != []
  {
    var s1 := s.(inFlight := s.inFlight - 1);
    if ok then WriteNext(s1.(queue := s.queue[1..], socket := s.socket + [s.queue[0]])) else Disconnected(s1)
  }

  /** An identity response makes the session ready, whatever it was before. */
  function OnCcm(s: SessionView, payload: Bytes): SessionView {
    if payload == [] then s
    else if payload[0] == CCM_ID_RESP then Enqueued(s, ID_ACK_FRAME).(phase := Ready, readies := s.readies + 1)
    else if payload[0] == CCM_PING then Enqueued(s, PONG_FRAME)
    else s
  }

  function OnFrame(s: SessionView, f: IpaFrame): SessionView {
    var s1 := s.(received := s.received + [f]);
    if f.streamId == STREAM_CCM then OnCcm(s1, f.payload)
    else if f.streamId == STREAM_GSUP && s.phase.Ready? then s1.(delivered := s.delivered + [f.payload])
    else s1
  }

  function OnFrames(s: SessionView, fs: seq<IpaFrame>): SessionView
    decreases |fs|
  {
    if fs == [] then s else OnFrames(OnFrame(s, fs[0]), fs[1..])
  }

  /** The frames in a chunk, after what was left of the chunks before. */
  function FramesIn(raws: seq<Bytes>): seq<IpaFrame> {
    seq(|raws|, i requires 0 <= i < |raws| => if |raws[i]| >= HEADER_SIZE then FrameOf(raws[i]) else IpaFrame(0, []))
  }

  function OnChunk(s: SessionView, chunk: Bytes): SessionView {
    var d := Drain(IpaCut, s.buf + chunk);
    OnFrames(s, FramesIn(d.frames)).(buf := d.rest)
  }

  // -------------------------------------------------------------- invariant

  /** What was enqueued is what was written followed by what waits, in order; the queue is being
      written as long as it is not empty, and by at most one write at a time. */
  ghost predicate InOrder(s: SessionView) {
    && |s.sent| == |s.socket| + |s.queue|
    && (forall i :: 0 <= i < |s.sent| ==> Encoded(s.sent[i]) == Success((s.socket + s.queue)[i]))
    && (s.writing <==> s.queue != []) && s.inFlight <= 1 && (s.inFlight == 1 ==> s.writing)
  }

  lemma {:induction false} EnqueuedInOrder(s: SessionView, f: IpaFrame)
    requires InOrder(s) && Encoded(f).Success?
    ensures InOrder(Enqueued(s, f))
  {
    hide Encoded;
    var s' := Enqueued(s, f);
    assert s'.socket + s'.queue == s.socket + s.queue + [Encoded(f).value];
  }

  lemma {:induction false} WrittenInOrder(s: SessionView, ok: bool)
    requires InOrder(s) && s.inFlight > 0
    ensures s.queue != [] && InOrder(Written(s, ok))
  {
    hide Encoded;
    var s' := Written(s, ok);
    assert s'.socket + s'.queue == s.socket + s.queue;
  }

  lemma {:induction false} CcmEncodes()
    ensures Encoded(ID_GET_FRAME).Success? && Encoded(ID_ACK_FRAME).Success? && Encoded(PONG_FRAME).Success?
  {
  }

  lemma {:induction false} FrameInOrder(s: SessionView, f: IpaFrame)
    requires InOrder(s)
    ensures InOrder(OnFrame(s, f))
  {
    hide Encoded, Enqueued;
    CcmEncodes();
    var s1 := s.(received := s.received + [f]);
    assert InOrder(s1);
    EnqueuedInOrder(s1, ID_ACK_FRAME);
    EnqueuedInOrder(s1, PONG_FRAME);
  }

  lemma {:induction false} FramesInOrder(s: SessionView, fs: seq<IpaFrame>)
    requires InOrder(s)
    ensures InOrder(OnFrames(s, fs))
    decreases |fs|
  {
    hide InOrder, OnFrame;
    if fs != [] {
      FrameInOrder(s, fs[0]);
      FramesInOrder(OnFrame(s, fs[0]), fs[1..]);
    }
  }

  // ---------------------------------------------------------------- session

  class IpaSession {
    var state: Phase
    var writeQueue: seq<Bytes>
    var writing: bool
    const decoder: IpaDecoder

    var inFlight: nat
    var socket: seq<Bytes>
    var sent: seq<IpaFrame>
    var received: seq<IpaFrame>
    var delivered: seq<Bytes>
    var readies: nat
    var disconnects: nat

    ghost function View(): SessionView
      reads this, decoder
    {
      SessionView(state, writeQueue, writing, decoder.buf, inFlight, socket, sent, received, delivered, readies,
          disconnects)
    }

    constructor ()
      ensures fresh(decoder) && View() == FRESH_VIEW
    {
      state, writeQueue, writing := Handshaking, [], false;
      decoder := new IpaDecoder();
      inFlight, socket, sent, received, delivered, readies, disconnects := 0, [], [], [], [], 0, 0;
    }

    method DoWrite()
      modifies this
      ensures View() == WriteNext(old(View()))
    {
      if writeQueue == [] {
        writing := false;
        return;
      }
      writing := true;
      inFlight := inFlight + 1;
    }

    method Enqueue(f: IpaFrame)
      requires Encoded(f).Success?
      modifies this
      ensures View() == Enqueued(old(View()), f)
    {
      hide Encoded;
      writeQueue := writeQueue + [Encoded(f).value];
      sent := sent + [f];
      if !writing { DoWrite(); }
    }

    method Begin()
      requires View() == FRESH_VIEW
      modifies this
      ensures View() == Enqueued(FRESH_VIEW, ID_GET_FRAME)
    {
      Enqueue(ID_GET_FRAME);
    }

    /** A payload that the framing cannot express throws before anything is queued. */
    method SendGsup(payload: Bytes) returns (st: Status)
      modifies this
      ensures var f := IpaFrame(STREAM_GSUP, payload);
              if Encoded(f).Failure? then st.Thrown? && View() == old(View())
              else st.Done? && View() == Enqueued(old(View()), f)
    {
      var f := IpaFrame(STREAM_GSUP, payload);
      var frame := Encoded(f);
      if frame.Failure? { return Thrown; }
      Enqueue(f);
      return Done;
    }

    method OnWritten(ok: bool)
      requires inFlight > 0 && InOrder(View())
      modifies this
      ensures old(View()).queue != [] && View() == Written(old(View()), ok)
    {
      WrittenInOrder(View(), ok);
      inFlight := inFlight - 1;
      if ok {
        socket := socket + [writeQueue[0]];
        writeQueue := writeQueue[1..];
        DoWrite();
      } else if state != Stopped {
        state := Stopped;
        disconnects := disconnects + 1;
      }
    }

    method HandleCcm(payload: Bytes)
      modifies this
      ensures View() == OnCcm(old(View()), payload)
    {
      if payload == [] { return; }
      if payload[0] == CCM_ID_RESP {
        Enqueue(ID_ACK_FRAME);
        state := Ready;
        readies := readies + 1;
      } else if payload[0] == CCM_PING {
        Enqueue(PONG_FRAME);
      }
    }

    method ProcessFrame(f: IpaFrame)
      modifies this
      ensures View() == OnFrame(old(View()), f)
    {
      hide OnCcm;
      received := received + [f];
      if f.streamId == STREAM_CCM {
        HandleCcm(f.payload);
      } else if f.streamId == STREAM_GSUP && state == Ready {
        delivered := delivered + [f.payload];
      }
    }

    /** The read callback for a chunk. When the decoder throws, the frames before have been handled. */
    method OnRead(chunk: Bytes) returns (st: Status)
      modifies this, decoder
      ensures var d := Drain(IpaCut, old(decoder.buf) + chunk);
              && (st.Thrown? <==> d.broken)
              && View().(buf := []) == OnChunk(old(View()), chunk).(buf := [])
              && (st.Done? ==> View() == OnChunk(old(View()), chunk))
    {
      hide IpaCut, Drain, OnFrame, Encoded;
      decoder.Feed(chunk);
      ghost var v0, all := old(View()), decoder.buf;
      ghost var done: seq<Bytes> := [];
      NoneHandled(v0, all);
      while true
        invariant HandledSoFar(v0, all, done, View())
        decreases |decoder.buf|
      {
        ghost var before, v := decoder.buf, View();
        DrainCases(IpaCut, before);
        CutSized(before);
        var r := decoder.Next();
        if r.Failure? {
          AllHandled(v0, all, done, v);
          return Thrown;
        }
        if r.value.None? {
          AllHandled(v0, all, done, v);
          break;
        }
        ProcessFrame(r.value.value);
        ghost var n := IpaCut(before).size;
        FrameIgnoresBuffer(v, r.value.value, before[n..]);
        OneMoreHandled(v0, all, done, v);
        done := done + [before[..n]];
      }
      return Done;
    }

    method OnReadError()
      modifies this
      ensures View() == Disconnected(old(View()))
    {
      if state != Stopped {
        state := Stopped;
        disconnects := disconnects + 1;
      }
    }

    method Stop()
      modifies this
      ensures View() == old(View()).(phase := Stopped)
    {
      state := Stopped;
    }
  }

  // ----------------------------------------------------- the loop, step by step

  /** The frames `done` have been taken off `all` and handled; `v.buf` is what is left to drain. */
  ghost predicate HandledSoFar(v0: SessionView, all: Bytes, done: seq<Bytes>, v: SessionView) {
    && Drain(IpaCut, all) == Drained(done, [], false).Then(Drain(IpaCut, v.buf))
    && v == OnFrames(v0, FramesIn(done)).(buf := v.buf)
  }

  lemma {:induction false} CutSized(b: Bytes)
    ensures IpaCut(b).Frame? ==> HEADER_SIZE <= IpaCut(b).size <= |b|
  {
  }

  lemma {:induction false} NoneHandled(v0: SessionView, all: Bytes)
    ensures HandledSoFar(v0, all, [], v0.(buf := all))
  {
    var d := Drain(IpaCut, all);
    hide Drain;
    assert [] + d.frames == d.frames;
  }

  lemma {:induction false} AllHandled(v0: SessionView, all: Bytes, done: seq<Bytes>, v: SessionView)
    requires HandledSoFar(v0, all, done, v) && !IpaCut(v.buf).Frame?
    ensures Drain(IpaCut, all).frames == done
    ensures Drain(IpaCut, all).broken <==> IpaCut(v.buf).Bad?
    ensures IpaCut(v.buf).NeedMore? ==> Drain(IpaCut, all).rest == v.buf
  {
    hide IpaCut, Drain, OnFrames;
    DrainCases(IpaCut, v.buf);
  }

  lemma {:induction false} FramesSnoc(s: SessionView, fs: seq<IpaFrame>, f: IpaFrame)
    ensures OnFrames(s, fs + [f]) == OnFrame(OnFrames(s, fs), f)
    decreases |fs|
  {
    hide OnFrame;
    if fs == [] {
      assert [f][1..] == [];
    } else {
      FramesSnoc(OnFrame(s, fs[0]), fs[1..], f);
      assert (fs + [f])[1..] == fs[1..] + [f];
    }
  }

  /** Handling a frame does not look at the buffer. */
  lemma {:induction false} FrameIgnoresBuffer(s: SessionView, f: IpaFrame, b: Bytes)
    ensures OnFrame(s.(buf := b), f) == OnFrame(s, f).(buf := b)
    ensures OnFrame(s, f).buf == s.buf
  {
  }

  lemma {:induction false} OneMoreHandled(v0: SessionView, all: Bytes, done: seq<Bytes>, v: SessionView)
    requires HandledSoFar(v0, all, done, v) && IpaCut(v.buf).Frame?
    ensures HEADER_SIZE <= IpaCut(v.buf).size <= |v.buf|
    ensures var n := IpaCut(v.buf).size;
            HandledSoFar(v0, all, done + [v.buf[..n]], OnFrame(v, FrameOf(v.buf[..n])).(buf := v.buf[n..]))
  {
    hide IpaCut, Drain, OnFrame, OnFrames;
    CutSized(v.buf);
    DrainCases(IpaCut, v.buf);
    var n := IpaCut(v.buf).size;
    var raw := v.buf[..n];
    var d := Drain(IpaCut, v.buf[n..]);
    assert done + ([raw] + d.frames) == done + [raw] + d.frames;
    assert FramesIn(done + [raw]) == FramesIn(done) + [FrameOf(raw)];
    FramesSnoc(v0, FramesIn(done), FrameOf(raw));
    FrameIgnoresBuffer(OnFrames(v0, FramesIn(done)), FrameOf(raw), v.buf);
  }
}

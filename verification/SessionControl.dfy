/** What a session sends of its own accord, and how it ends, written out by octets. */
module SessionControl {
  import opened Basics
  import opened Stream
  import opened IpaCodec
  import opened Sessions
  import opened SessionRuns

  /** The payloads of the frames on one stream: 0xFE is control, 0xEE is GSUP. */
  function OnStream(fs: seq<IpaFrame>, stream: Byte): seq<Bytes> {
    if fs == [] then []
    else
      var f := fs[|fs| - 1];
      OnStream(fs[..|fs| - 1], stream) + if f.streamId == stream then [f.payload] else []
  }

  /** The answers that received frames ask for: to an identity response its acknowledgement, to a ping
      a pong, and to everything else nothing. */
  function AnswersTo(fs: seq<IpaFrame>): seq<Bytes> {
    if fs == [] then []
    else AnswersTo(fs[..|fs| - 1]) + AnswerTo(fs[|fs| - 1])
  }

  function AnswerTo(f: IpaFrame): seq<Bytes> {
    if f.streamId != 0xFE || f.payload == [] then []
    else if f.payload[0] == 0x05 then [[0x06]]
    else if f.payload[0] == 0x00 then [[0x01]]
    else []
  }

  /** How often a received frame says that the handshake is done. */
  function ReadyTimes(fs: seq<IpaFrame>): nat {
    if fs == [] then 0
    else
      var f := fs[|fs| - 1];
      ReadyTimes(fs[..|fs| - 1]) + if f.streamId == 0xFE && f.payload != [] && f.payload[0] == 0x05 then 1 else 0
  }

  /** The payloads the server asked the session to send, without those that cannot be framed. */
  function Asked(es: seq<SessionEvent>): seq<Bytes> {
    if es == [] then []
    else
      var e := es[|es| - 1];
      Asked(es[..|es| - 1]) + if e.Send? && |e.payload| <= 0xFFFF then [e.payload] else []
  }

  /** The identity request, then one answer for each frame that asks for one, in order. */
  ghost predicate ControlRight(v: SessionView) {
    && OnStream(v.sent, 0xFE) == [[0x04, 0x01, 0x07]] + AnswersTo(v.received)
    && v.readies == ReadyTimes(v.received)
  }

  /** What was asked for, in order, and nothing else on that stream or any third one. */
  ghost predicate DataRight(v: SessionView, asked: seq<Bytes>) {
    && OnStream(v.sent, 0xEE) == asked
    && forall i :: 0 <= i < |v.sent| ==> v.sent[i].streamId == 0xFE || v.sent[i].streamId == 0xEE
  }

  lemma {:induction false} OneMoreOnStream(fs: seq<IpaFrame>, f: IpaFrame, stream: Byte)
    ensures OnStream(fs + [f], stream) == OnStream(fs, stream) + if f.streamId == stream then [f.payload] else []
  {
    assert (fs + [f])[..|fs|] == fs;
  }

  lemma {:induction false} OneMoreReceived(fs: seq<IpaFrame>, f: IpaFrame)
    ensures AnswersTo(fs + [f]) == AnswersTo(fs) + AnswerTo(f)
    ensures ReadyTimes(fs + [f])
         == ReadyTimes(fs) + if f.streamId == 0xFE && f.payload != [] && f.payload[0] == 0x05 then 1 else 0
  {
    assert (fs + [f])[..|fs|] == fs;
  }

  lemma {:induction false} EnqueuedIs(v: SessionView, f: IpaFrame)
    requires Encoded(f).Success?
    ensures var v' := Enqueued(v, f);
            && v'.sent == v.sent + [f] && v'.received == v.received && v'.readies == v.readies
            && v'.phase == v.phase && v'.disconnects == v.disconnects
  {
    hide Encoded;
  }

  /** What one received frame does to what is sent. */
  lemma {:induction false} FrameSends(v: SessionView, f: IpaFrame)
    ensures var v' := OnFrame(v, f);
            && v'.received == v.received + [f]
            && v'.sent == v.sent + (if AnswerTo(f) == [] then [] else [IpaFrame(0xFE, AnswerTo(f)[0])])
            && v'.readies == v.readies + (if f.streamId == 0xFE && f.payload != [] && f.payload[0] == 0x05 then 1 else 0)
  {
    hide Encoded, Enqueued;
    CcmEncodes();
    var v1 := v.(received := v.received + [f]);
    EnqueuedIs(v1, ID_ACK_FRAME);
    EnqueuedIs(v1, PONG_FRAME);
    assert v.sent + [] == v.sent;
  }

  lemma {:induction false} FrameControl(v: SessionView, f: IpaFrame, asked: seq<Bytes>)
    requires ControlRight(v) && DataRight(v, asked)
    ensures ControlRight(OnFrame(v, f)) && DataRight(OnFrame(v, f), asked)
  {
    FrameSends(v, f);
    OneMoreReceived(v.received, f);
    AtMostOneAnswer(f);
    hide OnFrame, AnswerTo, AnswersTo, ReadyTimes, OnStream;
    var start: seq<Bytes> := [[0x04, 0x01, 0x07]];
    if AnswerTo(f) == [] {
      assert v.sent + [] == v.sent && AnswersTo(v.received) + [] == AnswersTo(v.received);
    } else {
      var a := IpaFrame(0xFE, AnswerTo(f)[0]);
      OneMoreOnStream(v.sent, a, 0xFE);
      OneMoreOnStream(v.sent, a, 0xEE);
      assert start + AnswersTo(v.received) + [a.payload] == start + (AnswersTo(v.received) + [a.payload]);
      assert asked + [] == asked;
    }
  }

  lemma {:induction false} AtMostOneAnswer(f: IpaFrame)
    ensures AnswerTo(f) == [] || AnswerTo(f) == [AnswerTo(f)[0]]
  {
  }

  lemma {:induction false} FramesControl(v: SessionView, fs: seq<IpaFrame>, asked: seq<Bytes>)
    requires ControlRight(v) && DataRight(v, asked)
    ensures ControlRight(OnFrames(v, fs)) && DataRight(OnFrames(v, fs), asked)
    decreases |fs|
  {
    hide ControlRight, DataRight, OnFrame;
    if fs != [] {
      FrameControl(v, fs[0], asked);
      FramesControl(OnFrame(v, fs[0]), fs[1..], asked);
    }
  }

  /** Both depend on these logs alone. */
  lemma {:induction false} SameLogs(v: SessionView, v': SessionView, asked: seq<Bytes>)
    requires ControlRight(v) && DataRight(v, asked)
    requires v'.sent == v.sent && v'.received == v.received && v'.readies == v.readies
    ensures ControlRight(v') && DataRight(v', asked)
  {
  }

  /** A payload asked for goes out on the GSUP stream. */
  lemma {:induction false} SendControl(v: SessionView, payload: Bytes, asked: seq<Bytes>)
    requires ControlRight(v) && DataRight(v, asked)
    ensures var v' := After(v, Send(payload));
            ControlRight(v') && DataRight(v', asked + if |payload| <= 0xFFFF then [payload] else [])
  {
    hide OnStream, AnswersTo, ReadyTimes, Encoded, Enqueued;
    var f := IpaFrame(STREAM_GSUP, payload);
    Encodes(f);
    if |payload| <= 0xFFFF {
      EnqueuedIs(v, f);
      OneMoreOnStream(v.sent, f, 0xFE);
      OneMoreOnStream(v.sent, f, 0xEE);
      assert OnStream(v.sent, 0xFE) + [] == OnStream(v.sent, 0xFE);
    } else {
      assert asked + [] == asked;
    }
  }

  lemma {:induction false} StepControl(v: SessionView, e: SessionEvent, asked: seq<Bytes>)
    requires CanHappen(v, e) && ControlRight(v) && DataRight(v, asked)
    ensures ControlRight(After(v, e))
    ensures DataRight(After(v, e), asked + if e.Send? && |e.payload| <= 0xFFFF then [e.payload] else [])
  {
    hide ControlRight, DataRight, Encoded, IpaCut, Drain, OnFrames;
    assert asked + [] == asked;
    match e {
      case Send(payload) => SendControl(v, payload, asked);
      case WriteEnds(ok) => SameLogs(v, After(v, e), asked);
      case Chunk(data) =>
        var v' := OnFrames(v, FramesIn(Drain(IpaCut, v.buf + data).frames));
        FramesControl(v, FramesIn(Drain(IpaCut, v.buf + data).frames), asked);
        SameLogs(v', After(v, e), asked);
      case ReadFails => SameLogs(v, After(v, e), asked);
      case StopCalled => SameLogs(v, After(v, e), asked);
    }
  }

  lemma {:induction false} StartControl()
    ensures Encoded(ID_GET_FRAME).Success?
    ensures ControlRight(Enqueued(FRESH_VIEW, ID_GET_FRAME)) && DataRight(Enqueued(FRESH_VIEW, ID_GET_FRAME), [])
  {
    CcmEncodes();
    EnqueuedIs(FRESH_VIEW, ID_GET_FRAME);
    OneMoreOnStream([], ID_GET_FRAME, 0xFE);
    OneMoreOnStream([], ID_GET_FRAME, 0xEE);
    hide Encoded, Enqueued;
    assert [] + [ID_GET_FRAME] == [ID_GET_FRAME];
  }

  /** Over every run, a session sends on the control stream the identity request [4, 1, 7] and then one
      answer for each received control frame that asks for one, [6] or [1], in order; on the GSUP stream
      exactly the payloads it was asked to send, in order; and nothing else. It reports to be ready once
      for each identity response. */
  lemma {:induction false} RunsAnswerControl(ss: seq<SessionView>, es: seq<SessionEvent>, n: nat)
    requires IsSessionRun(ss, es) && n < |ss|
    ensures ControlRight(ss[n]) && DataRight(ss[n], Asked(es[..n]))
  {
    hide CanHappen, After, Encoded, ControlRight, DataRight, Enqueued;
    if n == 0 {
      StartControl();
    } else {
      RunsAnswerControl(ss, es, n - 1);
      StepControl(ss[n - 1], es[n - 1], Asked(es[..n - 1]));
      assert es[..n][..n - 1] == es[..n - 1];
    }
  }

  /** How a session ends: a failed write or read stops it and is reported, unless it has stopped
      already; a call of stop is not reported; and nothing else is. */
  lemma {:induction false} EndsExactly(v: SessionView, e: SessionEvent)
    requires CanHappen(v, e)
    ensures var v' := After(v, e);
            var fails := e.ReadFails? || (e.WriteEnds? && !e.ok);
            && v'.disconnects == v.disconnects + (if fails && !v.phase.Stopped? then 1 else 0)
            && (fails || e.StopCalled? ==> v'.phase.Stopped?)
            && (!fails && !e.StopCalled? && !e.Chunk? ==> v'.phase == v.phase)
  {
    hide Encoded, IpaCut, Drain, OnFrames;
    if e.Chunk? { FramesReportNothing(v, FramesIn(Drain(IpaCut, v.buf + e.data).frames)); }
  }

  lemma {:induction false} FrameReportsNothing(v: SessionView, f: IpaFrame)
    ensures OnFrame(v, f).disconnects == v.disconnects
  {
    hide Encoded;
  }

  lemma {:induction false} FramesReportNothing(v: SessionView, fs: seq<IpaFrame>)
    ensures OnFrames(v, fs).disconnects == v.disconnects
    decreases |fs|
  {
    hide OnFrame;
    if fs != [] {
      FrameReportsNothing(v, fs[0]);
      FramesReportNothing(OnFrame(v, fs[0]), fs[1..]);
    }
  }
}

/** MAP over SCCP over M3UA: what the transport towards the HLR puts on the wire and takes off it. */
module Layering {
  import opened Basics
  import opened Bcd
  import opened Stream
  import opened M3uaCodec
  import opened M3uaStream
  import opened SccpCodec
  import opened SccpRoundTrip
  import opened GsupMessages
  import opened MapMessages
  import Map = MapCodec
  import MapRoundTrip
  import opened Transactions
  import opened ProxyModel
  import Gsup = GsupCodec
  import MapSizes
  import Converter
  import Allocation
  import Meaning

  const CLASS_TRANSFER: Byte := 1
  const TYPE_DATA: Byte := 1
  const SI_SCCP: Byte := 3
  const NI_INTERNATIONAL: Byte := 0

  datatype TransportConfig = TransportConfig(
    opc: U32, dpc: U32, routingContext: Option<U32>,
    hlrGt: string, hlrSsn: Byte, localGt: string, localSsn: Byte)

  function UdtFor(cfg: TransportConfig, payload: Bytes): SccpUdt {
    SccpUdt(0, MakeGtAddress(cfg.hlrGt, cfg.hlrSsn, true), MakeGtAddress(cfg.localGt, cfg.localSsn, true), payload)
  }

  /** `send`: the payload in a UDT in a DATA message. */
  function Wrap(cfg: TransportConfig, payload: Bytes): M3uaMessage {
    M3uaMessage(CLASS_TRANSFER, TYPE_DATA, cfg.routingContext,
                Some(ProtocolData(cfg.opc, cfg.dpc, SI_SCCP, NI_INTERNATIONAL, 0, 0, EncodedUdt(UdtFor(cfg,
                    payload)))), [])
  }

  /** `processMessage`: the payload handed to the proxy, if the message carries one. */
  function Unwrap(m: M3uaMessage): seq<Bytes> {
    if m.msgClass != CLASS_TRANSFER || m.msgType != TYPE_DATA then []
    else if m.protocolData.None? || m.protocolData.value.si != SI_SCCP then []
    else
      var udt := DecodedUdt(m.protocolData.value.userData);
      if udt.Failure? then [] else [udt.value.data]
  }

  /** What a cut-off message hands to the proxy. */
  function UnwrapRaw(raw: Bytes): seq<Bytes> {
    var m := Decoded(raw);
    if m.Success? && m.value.Some? then Unwrap(m.value.value) else []
  }

  function UnwrapAll(raws: seq<Bytes>): seq<Bytes> {
    if raws == [] then [] else UnwrapRaw(raws[0]) + UnwrapAll(raws[1..])
  }

  method Unpacked(m: M3uaMessage) returns (delivered: seq<Bytes>)
    ensures delivered == Unwrap(m)
  {
    if m.msgClass == CLASS_TRANSFER && m.msgType == TYPE_DATA {
      if m.protocolData.None? { return []; }
      var pd := m.protocolData.value;
      if pd.si != SI_SCCP { return []; }
      var udt := DecodeUdt(pd.userData);
      return if udt.Failure? then [] else [udt.value.data];
    }
    return [];
  }

  /** The states of the connection to the signalling gateway. */
  datatype LinkState = Disconnected | Connecting | AspUp | Active | Stopped

  /** What a sent frame says on the wire: a DATA message for the configured network part, from the own
      point code to the HLR's, SCCP, international, with a unitdata message of class 0 from the own title
      and subsystem to the HLR's. A title is read back if its characters are nibbles, as digits are. */
  predicate FrameSays(frame: Bytes, cfg: TransportConfig, payload: Bytes) {
    var m := Decoded(frame);
    && m.Success? && m.value.Some? && m.value.value.protocolData.Some?
    && var pd := m.value.value.protocolData.value;
    && m.value.value == M3uaMessage(1, 1, cfg.routingContext, Some(pd), [])
    && pd == ProtocolData(cfg.opc, cfg.dpc, 3, 0, 0, 0, pd.userData)
    && var u := DecodedUdt(pd.userData);
    && u.Success? && u.value.protocolClass == 0
    && TitleSays(u.value.called, cfg.hlrGt, cfg.hlrSsn) && TitleSays(u.value.calling, cfg.localGt, cfg.localSsn)
    && u.value.data == Truncated(payload)
  }

  /** An international E.164 title with a subsystem number, routed by title. */
  predicate TitleSays(a: SccpAddress, title: string, ssn: Byte) {
    && a == SccpAddress(true, a.digits, 0x00, 0x10, 0x04, true, ssn, false, 0)
    && (NibbleDigits(title) ==> a.digits == title)
  }

  lemma {:induction false} TitleRead(title: string, ssn: Byte)
    ensures var a := DecodedAddress(EncodedAddress(MakeGtAddress(title, ssn, true)));
            a.Success? && TitleSays(a.value, title, ssn)
  {
    hide EncodedGt, DecodedGt, NibbleDigits;
    var a := MakeGtAddress(title, ssn, true);
    var blank := BLANK_ADDRESS.(ssnPresent := true, ssn := ssn);
    assert EncodedAddress(a)[2..] == EncodedGt(a);
    GtRead(a, blank);
    assert DecodedAddress(EncodedAddress(a)) == DecodedGt(EncodedGt(a), blank);
  }

  lemma {:induction false} UdtSays(cfg: TransportConfig, payload: Bytes)
    requires TitlesFit(cfg)
    ensures var u := DecodedUdt(EncodedUdt(UdtFor(cfg, payload)));
            && u.Success? && u.value.protocolClass == 0
            && TitleSays(u.value.called, cfg.hlrGt, cfg.hlrSsn) && TitleSays(u.value.calling, cfg.localGt, cfg.localSsn)
            && u.value.data == Truncated(payload)
    ensures |EncodedUdt(UdtFor(cfg, payload))| <= |payload| + 0x200
  {
    hide EncodedAddress, DecodedAddress, DecodedUdt, TitleSays;
    var u := UdtFor(cfg, payload);
    GtSize(cfg.hlrGt, cfg.hlrSsn);
    GtSize(cfg.localGt, cfg.localSsn);
    TitleRead(cfg.hlrGt, cfg.hlrSsn);
    TitleRead(cfg.localGt, cfg.localSsn);
    hide MakeGtAddress;
    UdtExact(u);
  }

  lemma {:induction false} WrapSays(cfg: TransportConfig, payload: Bytes)
    requires TitlesFit(cfg) && |payload| <= 0xF000
    ensures FrameSays(Encoded(Wrap(cfg, payload)), cfg, payload)
  {
    hide Encoded, Decoded, EncodedUdt, DecodedUdt, TitlesFit, TitleSays;
    UdtSays(cfg, payload);
    var m := Wrap(cfg, payload);
    WrapParams(m);
    RoundTrip(m);
  }

  lemma {:induction false} WrapParams(m: M3uaMessage)
    requires m.heartbeatData == [] && m.protocolData.Some? && |m.protocolData.value.userData| <= 0xF200
    ensures forall p :: p in ParamsOf(m) ==> ParamFits(p)
  {
    hide BE32;
    ProtocolDataBack(m.protocolData.value);
    if m.routingContext.Some? { Back32(m.routingContext.value); }
    hide ProtocolDataBytes;
  }

  /** Nothing is sent unless the link is active; then it is one frame, for the configured addresses. */
  method Send(state: LinkState, cfg: TransportConfig, payload: Bytes) returns (frames: seq<Bytes>)
    ensures frames == if state.Active? then [Encoded(Wrap(cfg, payload))] else []
    ensures state.Active? && TitlesFit(cfg) && |payload| <= 0xF000 ==> FrameSays(frames[0], cfg, payload)
  {
    hide Encoded, EncodedUdt, FrameSays, TitlesFit;
    if state != Active { return []; }
    var udt := UdtFor(cfg, payload);
    var sccpFrame := EncodeUdt(udt);
    var pd := ProtocolData(cfg.opc, cfg.dpc, SI_SCCP, NI_INTERNATIONAL, 0, 0, sccpFrame);
    var frame := Encode(M3uaMessage(CLASS_TRANSFER, TYPE_DATA, cfg.routingContext, Some(pd), []));
    if TitlesFit(cfg) && |payload| <= 0xF000 { WrapSays(cfg, payload); }
    return [frame];
  }

  /** The messages that hand a payload to the proxy, by their codes. */
  lemma {:induction false} UnwrapsExactly(m: M3uaMessage)
    ensures Unwrap(m) == if m.msgClass == 1 && m.msgType == 1 && m.protocolData.Some? && m.protocolData.value.si == 3
                            && DecodedUdt(m.protocolData.value.userData).Success?
                         then [DecodedUdt(m.protocolData.value.userData).value.data] else []
  {
    hide DecodedUdt;
  }

  /** The body of the read callback: the chunk is fed, and messages are handled until none is left. */
  method ReadChunk(d: M3uaDecoder, chunk: Bytes) returns (delivered: seq<Bytes>)
    modifies d
    ensures var dr := Drain(M3uaCut, old(d.buf) + chunk);
            delivered == UnwrapAll(dr.frames) && (!dr.broken ==> d.buf == dr.rest)
  {
    hide M3uaCut, Decoded, Unwrap, Drain, UnwrapAll, Stable;
    d.Feed(chunk);
    ghost var all := d.buf;
    M3uaStable();
    delivered := [];
    ghost var done: seq<Bytes> := [];
    NothingDone(all);
    while true
      invariant delivered == UnwrapAll(done) && DoneSoFar(all, done, d.buf)
      decreases |d.buf|
    {
      ghost var before := d.buf;
      DrainCases(M3uaCut, before);
      var r := d.Next();
      if r.Failure? || r.value.None? {
        assert done + [] == done;
        break;
      }
      OneMoreDone(all, done, before);
      var payloads := Unpacked(r.value.value);
      delivered := delivered + payloads;
      ghost var n := M3uaCut(before).size;
      UnwrapSnoc(done, before[..n]);
      done := done + [before[..n]];
    }
  }

  /** Draining `all` is having taken off `done` and draining `buf`. */
  ghost predicate DoneSoFar(all: Bytes, done: seq<Bytes>, buf: Bytes) {
    Drain(M3uaCut, all) == Drained(done, [], false).Then(Drain(M3uaCut, buf))
  }

  lemma {:induction false} NothingDone(all: Bytes)
    ensures DoneSoFar(all, [], all) && UnwrapAll([]) == []
  {
    var d := Drain(M3uaCut, all);
    hide Drain;
    assert [] + d.frames == d.frames;
  }

  lemma {:induction false} OneMoreDone(all: Bytes, done: seq<Bytes>, buf: Bytes)
    requires DoneSoFar(all, done, buf) && M3uaCut(buf).Frame?
    ensures 0 < M3uaCut(buf).size <= |buf|
    ensures DoneSoFar(all, done + [buf[..M3uaCut(buf).size]], buf[M3uaCut(buf).size..])
  {
    hide M3uaCut, Drain;
    CutIsSized(buf);
    DrainCases(M3uaCut, buf);
    var n := M3uaCut(buf).size;
    var d := Drain(M3uaCut, buf[n..]);
    assert done + ([buf[..n]] + d.frames) == done + [buf[..n]] + d.frames;
  }

  lemma {:induction false} UnwrapSnoc(raws: seq<Bytes>, last: Bytes)
    ensures UnwrapAll(raws + [last]) == UnwrapAll(raws) + UnwrapRaw(last)
  {
    hide UnwrapRaw;
    if raws == [] {
      assert [last][1..] == [];
      assert [] + UnwrapRaw(last) == UnwrapRaw(last);
    } else {
      UnwrapSnoc(raws[1..], last);
      assert (raws + [last])[1..] == raws[1..] + [last];
    }
  }

  // ------------------------------------------------------------ transparency

  /** The two global titles leave room for the pointers of the UDT. */
  predicate TitlesFit(cfg: TransportConfig) { (|cfg.hlrGt| + 1) / 2 + (|cfg.localGt| + 1) / 2 <= 242 }

  lemma {:induction false} GtSize(digits: string, ssn: Byte)
    ensures |EncodedAddress(MakeGtAddress(digits, ssn, true))| == 5 + (|digits| + 1) / 2
  {
    hide PackBcd;
  }

  /** One payload through both layers: whatever characters the titles hold, it comes out cut to its
      length modulo 256, and so unchanged if and only if it has at most 255 octets. */
  lemma {:induction false} PayloadExact(cfg: TransportConfig, payload: Bytes)
    requires TitlesFit(cfg)
    ensures Unwrap(Wrap(cfg, payload)) == [Truncated(payload)]
    ensures Unwrap(Wrap(cfg, payload)) == [payload] <==> |payload| <= 0xFF
  {
    hide EncodedAddress, DecodedAddress, EncodedUdt, DecodedUdt;
    var u := UdtFor(cfg, payload);
    GtSize(cfg.hlrGt, cfg.hlrSsn);
    GtSize(cfg.localGt, cfg.localSsn);
    AddressRoundTripExact(u.called);
    AddressRoundTripExact(u.calling);
    UdtExact(u);
  }

  lemma {:induction false} WrapFits(cfg: TransportConfig, payload: Bytes)
    requires TitlesFit(cfg) && |payload| <= 0xFF
    ensures |Encoded(Wrap(cfg, payload))| <= MAX_MESSAGE_SIZE
  {
    hide EncodedAddress, ParamsBytes;
    GtSize(cfg.hlrGt, cfg.hlrSsn);
    GtSize(cfg.localGt, cfg.localSsn);
    var m := Wrap(cfg, payload);
    assert |m.protocolData.value.userData| <= 0x300;
    hide EncodedUdt;
    SmallParams(m);
    SizeBoundOf(m);
  }

  lemma {:induction false} SmallParams(m: M3uaMessage)
    requires m.heartbeatData == [] && m.protocolData.Some? && |m.protocolData.value.userData| <= 0x300
    ensures |ParamsOf(m)| <= 2 && forall p :: p in ParamsOf(m) ==> |p.value| <= 0x400
  {
    hide BE32;
    ProtocolDataBack(m.protocolData.value);
    if m.routingContext.Some? { Back32(m.routingContext.value); }
    hide ProtocolDataBytes;
  }

  lemma {:induction false} SizeBoundOf(m: M3uaMessage)
    requires |ParamsOf(m)| <= 2 && forall p :: p in ParamsOf(m) ==> |p.value| <= 0x400
    ensures |Encoded(m)| <= MAX_MESSAGE_SIZE
  {
    EncodedShape(m);
    hide Encoded, ParamsOf;
    SmallSizes(ParamsOf(m));
  }

  lemma {:induction false} SmallSizes(ps: seq<Param>)
    requires forall p :: p in ps ==> |p.value| <= 0x400
    ensures |ParamsBytes(ps)| <= 0x500 * |ps|
  {
    if ps != [] { SmallSizes(ps[1..]); }
  }

  function UnwrapEach(ms: seq<M3uaMessage>): seq<Bytes> {
    if ms == [] then [] else Unwrap(ms[0]) + UnwrapEach(ms[1..])
  }

  /** What the transport hands to the proxy over a whole stream: a callback per chunk. */
  function Delivered(chunks: seq<Bytes>): seq<Bytes> { UnwrapAll(Reassembled(M3uaCut, chunks).frames) }

  lemma {:induction false} UnwrapAppend(a: seq<Bytes>, b: seq<Bytes>)
    ensures UnwrapAll(a + b) == UnwrapAll(a) + UnwrapAll(b)
  {
    hide UnwrapRaw;
    if a == [] {
      assert a + b == b;
    } else {
      UnwrapAppend(a[1..], b);
      assert (a + b)[0] == a[0] && (a + b)[1..] == a[1..] + b;
      var head := UnwrapRaw(a[0]);
      assert head + UnwrapAll(a[1..]) + UnwrapAll(b) == head + (UnwrapAll(a[1..]) + UnwrapAll(b));
    }
  }

  /** One more callback hands on what `ReadChunk` hands on, given the buffer the callbacks before it
      left: `Delivered` is what the callbacks deliver together. */
  lemma {:induction false} DeliveredStep(chunks: seq<Bytes>, last: Bytes)
    ensures var d := Reassembled(M3uaCut, chunks);
            Delivered(chunks + [last])
            == Delivered(chunks) + if d.broken then [] else UnwrapAll(Drain(M3uaCut, d.rest + last).frames)
  {
    hide M3uaCut, UnwrapAll, Drain;
    assert (chunks + [last])[..|chunks|] == chunks;
    var d := Reassembled(M3uaCut, chunks);
    if !d.broken { UnwrapAppend(d.frames, Drain(M3uaCut, d.rest + last).frames); }
  }

  lemma {:induction false} UnwrapWire(ms: seq<M3uaMessage>)
    requires forall i :: 0 <= i < |ms| ==> Decoded(Wire(ms)[i]) == Success(Some(ms[i]))
    ensures UnwrapAll(Wire(ms)) == UnwrapEach(ms)
  {
    hide Decoded, Encoded, Unwrap;
    if ms != [] {
      assert Wire(ms)[1..] == Wire(ms[1..]);
      forall i | 0 <= i < |ms| - 1 ensures Decoded(Wire(ms[1..])[i]) == Success(Some(ms[1..][i])) {
        assert Wire(ms)[i + 1] == Wire(ms[1..])[i];
      }
      UnwrapWire(ms[1..]);
      assert Decoded(Wire(ms)[0]) == Success(Some(ms[0]));
    }
  }

  /** Any messages of at most 64 KiB, DATA mixed with management, however the stream is split. */
  lemma {:induction false} DeliveredExactly(ms: seq<M3uaMessage>, chunks: seq<Bytes>)
    requires forall i :: 0 <= i < |ms| ==> |Encoded(ms[i])| <= MAX_MESSAGE_SIZE
    requires Flatten(chunks) == Flatten(Wire(ms))
    ensures Delivered(chunks) == UnwrapEach(ms)
  {
    hide Encoded, Decoded, M3uaCut, Unwrap;
    MessagesSurviveChunking(ms, chunks);
    UnwrapWire(ms);
  }

  function WrapAll(cfg: TransportConfig, payloads: seq<Bytes>): seq<M3uaMessage> {
    seq(|payloads|, i requires 0 <= i < |payloads| => Wrap(cfg, payloads[i]))
  }

  lemma {:induction false} UnwrapWrapped(cfg: TransportConfig, payloads: seq<Bytes>)
    requires TitlesFit(cfg) && forall i :: 0 <= i < |payloads| ==> |payloads[i]| <= 0xFF
    ensures UnwrapEach(WrapAll(cfg, payloads)) == payloads
  {
    hide Wrap, Unwrap, TitlesFit;
    if payloads != [] {
      PayloadExact(cfg, payloads[0]);
      UnwrapWrapped(cfg, payloads[1..]);
      assert WrapAll(cfg, payloads)[1..] == WrapAll(cfg, payloads[1..]);
      assert payloads == [payloads[0]] + payloads[1..];
    }
  }

  /** Layer transparency: payloads of at most 255 octets, wrapped, sent, split arbitrarily,
      reassembled and unwrapped, arrive unchanged and in order. */
  lemma {:induction false} LayersAreTransparent(cfg: TransportConfig, payloads: seq<Bytes>, chunks: seq<Bytes>)
    requires TitlesFit(cfg) && forall i :: 0 <= i < |payloads| ==> |payloads[i]| <= 0xFF
    requires Flatten(chunks) == Flatten(Wire(WrapAll(cfg, payloads)))
    ensures Delivered(chunks) == payloads
  {
    hide Wrap, Unwrap, TitlesFit, Encoded, M3uaCut;
    forall i | 0 <= i < |payloads| ensures |Encoded(WrapAll(cfg, payloads)[i])| <= MAX_MESSAGE_SIZE {
      WrapFits(cfg, payloads[i]);
    }
    DeliveredExactly(WrapAll(cfg, payloads), chunks);
    UnwrapWrapped(cfg, payloads);
  }

  /** The octets of a payload, wrapped for both layers and split into chunks. */
  ghost predicate ChunksOf(chunks: seq<Bytes>, cfg: TransportConfig, payload: Bytes) {
    TitlesFit(cfg) && Flatten(chunks) == Flatten(Wire(WrapAll(cfg, [payload])))
  }

  lemma {:induction false} ChunksDeliver(chunks: seq<Bytes>, cfg: TransportConfig, payload: Bytes)
    requires ChunksOf(chunks, cfg, payload) && |payload| <= 0xFF
    ensures Delivered(chunks) == [payload]
  {
    hide TitlesFit, Delivered, Wire, WrapAll;
    LayersAreTransparent(cfg, [payload], chunks);
  }

  /** A request of the five types reaches the HLR over any chunking as an Invoke about that subscriber,
      with the operation and the arguments of its type, if its IMSI has at most 15 digits and its MSISDN
      at most 218 octets. */
  lemma {:induction false} RequestReachesHlr(s: ProxyState, payload: Bytes, client: ClientId, now: int)
    requires Gsup.Decoded(payload).Success? && Allocation.InvokeIdsLegal(s)
    requires var g := Gsup.Decoded(payload).value;
             Meaning.IsRequest(g.mtype) && |g.imsi| <= 15 && (g.msisdn.Some? ==> |g.msisdn.value| <= 218)
    ensures var g, s', tid := Gsup.Decoded(payload).value, OnGsup(s, payload, client, now), NextTid(s.tm.tidCounter);
            && |s'.hlrOut| == |s.hlrOut| + 1 && tid in s'.Transactions()
            && forall cfg, chunks :: ChunksOf(chunks, cfg, Meaning.LastToHlr(s').data) ==>
                 && |Delivered(chunks)| == 1
                 && Map.Decoded(Delivered(chunks)[0])
                    == Success(Meaning.InvokeFor(g, tid, s'.Transactions()[tid].mapInvokeId))
  {
    hide Gsup.Decoded, Delivered, ChunksOf, Map.Decoded, Meaning.InvokeFor;
    var g, s', tid := Gsup.Decoded(payload).value, OnGsup(s, payload, client, now), NextTid(s.tm.tidCounter);
    Meaning.RequestMeaning(s, payload, client, now);
    OneUnitToHlr(s, payload, client, now);
    hide OnGsup;
    forall cfg, chunks | ChunksOf(chunks, cfg, Meaning.LastToHlr(s').data)
      ensures Delivered(chunks) == [Meaning.LastToHlr(s').data]
    {
      ChunksDeliver(chunks, cfg, Meaning.LastToHlr(s').data);
    }
  }

  /** The message to the HLR fits one SCCP unit. */
  lemma {:induction false} OneUnitToHlr(s: ProxyState, payload: Bytes, client: ClientId, now: int)
    requires Gsup.Decoded(payload).Success? && Allocation.InvokeIdsLegal(s)
    requires var g := Gsup.Decoded(payload).value;
             Meaning.IsRequest(g.mtype) && |g.imsi| <= 15 && (g.msisdn.Some? ==> |g.msisdn.value| <= 218)
    ensures var s' := OnGsup(s, payload, client, now);
            s'.hlrOut != [] && |Meaning.LastToHlr(s').data| <= 0xFF
  {
    hide Gsup.Decoded, Map.Encoded, Converter.GsupToMap, Converter.IsHlrInitiated, Meaning.InvokeFor;
    var g, tid := Gsup.Decoded(payload).value, NextTid(s.tm.tidCounter);
    Meaning.ExpectedTypes(g.mtype);
    Allocation.IssuedInvokeId(s.tm.invokeIdCounter);
    var id := Allocated(s.tm, g.imsi, client, now).transactions[tid].mapInvokeId;
    assert id < 0x80 by {
      Allocation.AllocationKeepsInvokeIds(s, g.imsi, client, now);
      var s1 := s.(tm := Allocated(s.tm, g.imsi, client, now));
      assert tid in s1.Transactions() && s1.Transactions()[tid].mapInvokeId == id;
    }
    Meaning.ConvertedInvoke(g, tid, id);
    MapSizes.RequestFitsUdt(g, tid, id);
    assert OnGsup(s, payload, client, now) == OnRequest(s, g, client, now);
  }
}

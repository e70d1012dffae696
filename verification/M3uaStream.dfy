/** M3UA round trips: one message, its padding, and a stream of messages split anyhow. */
module M3uaStream {
  import opened Basics
  import opened Stream
  import opened M3uaCodec

  // ------------------------------------------------------------- reassembly

  /** The rule of the reassembler. A message that cannot be decoded counts as unacceptable, as what
      happens after it is not described. */
  function M3uaCut(buf: Bytes): Cut {
    if |buf| < COMMON_HEADER_SIZE then NeedMore
    else
      var totalLen := FromBE32(buf[4..8]);
      if totalLen > MAX_MESSAGE_SIZE then Bad
      else if |buf| < totalLen then NeedMore
      else CutFor(totalLen, Decoded(buf[..totalLen]))
  }

  function CutFor(n: nat, d: Result<Option<M3uaMessage>>): Cut {
    if d.Success? && d.value.Some? then Frame(n) else Bad
  }

  class M3uaDecoder {
    var buf: Bytes

    constructor ()
      ensures buf == []
    {
      buf := [];
    }

    method Feed(data: Bytes)
      modifies this
      ensures buf == old(buf) + data
    {
      buf := buf + data;
    }

    /** A failure is an exception. A message is dropped from the buffer before it is decoded. */
    method Next() returns (r: Result<Option<M3uaMessage>>)
      modifies this
      ensures match M3uaCut(old(buf))
              case NeedMore => r == Success(None) && buf == old(buf)
              case Frame(n) => n <= |old(buf)| && buf == old(buf)[n..] && r == Decoded(old(buf)[..n]) && r.value.Some?
              case Bad =>
                var n := FromBE32(old(buf)[4..8]);
                if n > MAX_MESSAGE_SIZE then r == Failure && buf == []
                else n <= |old(buf)| && r == Decoded(old(buf)[..n]) && buf == old(buf)[n..]
      ensures r.Success? && r.value.Some? <==> M3uaCut(old(buf)).Frame?
    {
      hide Decoded;
      if |buf| < COMMON_HEADER_SIZE { return Success(None); }
      var totalLen := FromBE32(buf[4..8]);
      if totalLen > MAX_MESSAGE_SIZE {
        buf := [];
        return Failure;
      }
      if |buf| < totalLen { return Success(None); }
      var msg := buf[..totalLen];
      buf := buf[totalLen..];
      r := Decode(msg);
    }
  }

  lemma {:induction false} Back32(v: U32)
    ensures |BE32(v)| == 4 && FromBE32(BE32(v)) == v
  {
    hide Word;
    var b := BE32(v);
    HighWord(v);
    LowWord(v);
    assert FromBE32(b) == (v / 0x1_0000) * 0x1_0000 + v % 0x1_0000;
  }

  lemma {:induction false} HighWord(v: U32)
    ensures Word(v / 0x100_0000, v / 0x1_0000 % 0x100) == v / 0x1_0000
  {
    var h := v / 0x1_0000;
    assert h / 0x100 == v / 0x100_0000;
  }

  lemma {:induction false} LowWord(v: U32)
    ensures Word(v / 0x100 % 0x100, v % 0x100) == v % 0x1_0000
  {
    var q, l := v / 0x1_0000, v % 0x1_0000;
    var a, b := l / 0x100, l % 0x100;
    assert v == 0x100 * (0x100 * q + a) + b;
    QuotientAndRest(v, 0x100 * q + a, b);
    QuotientAndRest(0x100 * q + a, q, a);
  }

  lemma {:induction false} QuotientAndRest(x: int, q: int, r: int)
    requires x == 0x100 * q + r && 0 <= r < 0x100
    ensures x / 0x100 == q && x % 0x100 == r
  {
  }

  lemma {:induction false} CutIsSized(b: Bytes)
    requires M3uaCut(b).Frame?
    ensures 0 < M3uaCut(b).size <= |b|
  {
    hide Decoded, FromBE32;
    var n := FromBE32(b[4..8]);
    if n < COMMON_HEADER_SIZE { TooShort(b[..n]); }
  }

  lemma {:induction false} TooShort(b: Bytes)
    requires |b| < COMMON_HEADER_SIZE
    ensures Decoded(b) == Success(None)
  {
  }

  lemma {:induction false} CutIsStable(b: Bytes, c: Bytes)
    requires !M3uaCut(b).NeedMore?
    ensures M3uaCut(b + c) == M3uaCut(b)
  {
    hide Decoded, FromBE32;
    assert (b + c)[4..8] == b[4..8];
    var n := FromBE32(b[4..8]);
    if n <= |b| { assert (b + c)[..n] == b[..n]; }
  }

  lemma {:induction false} M3uaStable()
    ensures Stable(M3uaCut)
  {
    forall b: Bytes | M3uaCut(b).Frame?
      ensures 0 < M3uaCut(b).size <= |b|
    {
      CutIsSized(b);
    }
    forall b: Bytes, c: Bytes | !M3uaCut(b).NeedMore?
      ensures M3uaCut(b + c) == M3uaCut(b)
    {
      CutIsStable(b, c);
    }
    assert M3uaCut([]) == NeedMore;
    hide M3uaCut;
  }

  // ------------------------------------------------------------- parameters

  /** The parameter fits its 16-bit length field. */
  predicate ParamFits(p: Param) { |p.value| <= 0xFFFB }

  lemma {:induction false} HeadSplits(p: Param, rest: Bytes)
    requires ParamFits(p)
    ensures var b := ParamHead(p.tag, p.value) + rest;
            && |b| == 4 + |p.value| + |rest|
            && SplitParam(b) == Success(Split(p, if Pad(|p.value|) <= |rest| then rest[Pad(|p.value|)..] else rest))
  {
    var b := ParamHead(p.tag, p.value) + rest;
    var len := 4 + |p.value|;
    assert Word(b[0], b[1]) == p.tag && Word(b[2], b[3]) == len;
    assert b[4..len] == p.value && b[len..] == rest;
    var pad := Pad(|p.value|);
    assert pad < 4;
    if pad <= |rest| { assert b[len + pad..] == rest[pad..]; }
    hide Pad, BE16, Word, ParamHead;
  }

  /** A padded parameter is taken off whole; a last one without its padding is taken off as well. */
  lemma {:induction false} ParamTaken(p: Param, rest: Bytes, m: M3uaMessage)
    requires ParamFits(p)
    ensures TakeParams(ParamBytes(p.tag, p.value) + rest, m)
         == if TakeParam(p.tag, p.value, m).Failure? then Failure else TakeParams(rest, TakeParam(p.tag, p.value, m).value)
    ensures TakeParams(ParamHead(p.tag, p.value), m) == TakeParam(p.tag, p.value, m)
  {
    hide SplitParam, ParamHead, TakeParam;
    var head, pad := ParamHead(p.tag, p.value), Pad(|p.value|);
    var zeros := Zeros(pad);
    assert ParamBytes(p.tag, p.value) + rest == head + (zeros + rest);
    assert (zeros + rest)[pad..] == rest;
    HeadSplits(p, zeros + rest);
    HeadSplits(p, []);
    assert head + [] == head;
  }

  /** Padding is optional at the end: the parameters of a message are read the same way whether or
      not the last one's padding is there. */
  lemma {:induction false} LastPaddingOptional(ps: seq<Param>, last: Param, m: M3uaMessage)
    requires (forall p :: p in ps ==> ParamFits(p)) && ParamFits(last)
    ensures TakeParams(ParamsBytes(ps) + ParamHead(last.tag, last.value), m) == TakeParams(ParamsBytes(ps + [last]), m)
  {
    hide ParamBytes, ParamHead, TakeParam, TakeParams;
    var head := ParamHead(last.tag, last.value);
    if ps == [] {
      assert [last][1..] == [] && ParamsBytes([last]) == ParamBytes(last.tag, last.value) + [];
      assert ParamsBytes(ps) + head == head;
      ParamTaken(last, [], m);
      NothingTaken(TakeParam(last.tag, last.value, m));
    } else {
      var p, rest := ps[0], ps[1..];
      assert (ps + [last])[1..] == rest + [last];
      assert ParamsBytes(ps) + head == ParamBytes(p.tag, p.value) + (ParamsBytes(rest) + head);
      ParamTaken(p, ParamsBytes(rest) + head, m);
      ParamTaken(p, ParamsBytes(rest + [last]), m);
      var m' := TakeParam(p.tag, p.value, m);
      if m'.Success? { LastPaddingOptional(rest, last, m'.value); }
    }
  }

  lemma {:induction false} NothingTaken(r: Result<M3uaMessage>)
    ensures r.Success? ==> TakeParams([], r.value) == r
  {
  }

  // --------------------------------------------------------------- messages

  lemma {:induction false} HeaderRead(c: Byte, t: Byte, body: Bytes, length: U32)
    requires COMMON_HEADER_SIZE <= length <= COMMON_HEADER_SIZE + |body|
    ensures var m := TakeParams(body[..length - COMMON_HEADER_SIZE], BlankM3ua(c, t));
            Decoded(Header(c, t, length) + body) == if m.Failure? then Failure else Success(Some(m.value))
  {
    hide BE32, FromBE32, TakeParams;
    Back32(length);
    var data := Header(c, t, length) + body;
    assert data[4..8] == BE32(length);
    assert data[8..length] == body[..length - 8];
  }

  /** A receiver reads the same message whether the length in the header counts the padding of the
      last parameter, does not count it though it is sent, or does not count it and it is not sent. */
  lemma {:induction false} PaddingCountedOrNot(c: Byte, t: Byte, ps: seq<Param>, last: Param)
    requires (forall p :: p in ps ==> ParamFits(p)) && ParamFits(last)
    requires COMMON_HEADER_SIZE + |ParamsBytes(ps + [last])| < 0x1_0000_0000
    ensures var full, bare := ParamsBytes(ps + [last]), ParamsBytes(ps) + ParamHead(last.tag, last.value);
            && |full| == |bare| + Pad(|last.value|)
            && Decoded(Header(c, t, COMMON_HEADER_SIZE + |bare|) + bare)
               == Decoded(Header(c, t, COMMON_HEADER_SIZE + |full|) + full)
            && Decoded(Header(c, t, COMMON_HEADER_SIZE + |bare|) + full)
               == Decoded(Header(c, t, COMMON_HEADER_SIZE + |full|) + full)
  {
    hide ParamHead, Header, Decoded, TakeParams, Pad, ParamsBytes, ParamBytes, BlankM3ua, Zeros, ParamFits;
    var full, bare := ParamsBytes(ps + [last]), ParamsBytes(ps) + ParamHead(last.tag, last.value);
    BareAndFull(ps, last);
    HeaderRead(c, t, bare, COMMON_HEADER_SIZE + |bare|);
    HeaderRead(c, t, full, COMMON_HEADER_SIZE + |full|);
    HeaderRead(c, t, full, COMMON_HEADER_SIZE + |bare|);
    LastPaddingOptional(ps, last, BlankM3ua(c, t));
  }

  lemma {:induction false} BareAndFull(ps: seq<Param>, last: Param)
    ensures var full, bare := ParamsBytes(ps + [last]), ParamsBytes(ps) + ParamHead(last.tag, last.value);
            |full| == |bare| + Pad(|last.value|) && full[..|bare|] == bare && full[..|full|] == full && bare[..|bare|] == bare
  {
    ParamsSnoc(ps, last);
    hide ParamHead, Pad, ParamsBytes;
    var full, bare := ParamsBytes(ps + [last]), ParamsBytes(ps) + ParamHead(last.tag, last.value);
    assert full == bare + Zeros(Pad(|last.value|));
  }

  lemma {:induction false} ProtocolDataBack(pd: ProtocolData)
    ensures |ProtocolDataBytes(pd)| == 12 + |pd.userData| && ProtocolDataOf(ProtocolDataBytes(pd)) == pd
  {
    hide BE32, FromBE32;
    Back32(pd.opc);
    Back32(pd.dpc);
    var v := ProtocolDataBytes(pd);
    assert v[..4] == BE32(pd.opc) && v[4..8] == BE32(pd.dpc) && v[12..] == pd.userData;
  }

  /** The parameters of a message, taken one after the other, give the message. */
  lemma {:induction false} ParamsBack(m: M3uaMessage)
    requires forall p :: p in ParamsOf(m) ==> ParamFits(p)
    ensures TakeParams(ParamsBytes(ParamsOf(m)), BlankM3ua(m.msgClass, m.msgType)) == Success(m)
  {
    var m0 := BlankM3ua(m.msgClass, m.msgType);
    var m1 := m0.(routingContext := m.routingContext);
    var m2 := m1.(heartbeatData := m.heartbeatData);
    var rc: seq<Param> := if m.routingContext.None? then [] else [Param(TAG_ROUTING_CONTEXT,
        BE32(m.routingContext.value))];
    var hb: seq<Param> := if m.heartbeatData == [] then [] else [Param(TAG_HEARTBEAT_DATA, m.heartbeatData)];
    var pd: seq<Param> :=
      if m.protocolData.None? then [] else [Param(TAG_PROTOCOL_DATA, ProtocolDataBytes(m.protocolData.value))];
    assert ParamsOf(m) == rc + (hb + pd);
    ParamSteps(m);
    hide TakeParam, TakeParams, ParamsBytes, ParamsOf, ProtocolDataBytes, ProtocolDataOf, BE32, ParamFits;
    assert pd + [] == pd;
    Leading(rc, hb + pd, m0, m1);
    Leading(hb, pd, m1, m2);
    Leading(pd, [], m2, m);
    NothingTaken(Success(m));
    NoParams();
  }

  /** At most one parameter in front, which turns `a` into `b`. */
  lemma {:induction false} Leading(ps: seq<Param>, rest: seq<Param>, a: M3uaMessage, b: M3uaMessage)
    requires |ps| <= 1 && (forall p :: p in ps + rest ==> ParamFits(p))
    requires if ps == [] then a == b else TakeParam(ps[0].tag, ps[0].value, a) == Success(b)
    ensures TakeParams(ParamsBytes(ps + rest), a) == TakeParams(ParamsBytes(rest), b)
  {
    hide ParamBytes, TakeParams, TakeParam, ParamFits;
    if ps == [] {
      assert ps + rest == rest;
    } else {
      assert ps[0] in ps + rest && (ps + rest)[1..] == rest;
      ParamTaken(ps[0], ParamsBytes(rest), a);
    }
  }

  lemma {:induction false} ParamSteps(m: M3uaMessage)
    ensures m.routingContext.Some? ==> forall a ::
              TakeParam(TAG_ROUTING_CONTEXT, BE32(m.routingContext.value), a) == Success(a.(routingContext := m.routingContext))
    ensures forall a :: TakeParam(TAG_HEARTBEAT_DATA, m.heartbeatData, a) == Success(a.(heartbeatData := m.heartbeatData))
    ensures m.protocolData.Some? ==> forall a ::
              TakeParam(TAG_PROTOCOL_DATA, ProtocolDataBytes(m.protocolData.value), a) == Success(a.(protocolData := m.protocolData))
  {
    hide BE32, FromBE32, ProtocolDataOf, ProtocolDataBytes;
    if m.routingContext.Some? {
      Back32(m.routingContext.value);
      var b := BE32(m.routingContext.value);
      assert b[..4] == b;
    }
    if m.protocolData.Some? { ProtocolDataBack(m.protocolData.value); }
  }

  lemma {:induction false} EncodedShape(m: M3uaMessage)
    ensures |Encoded(m)| == COMMON_HEADER_SIZE + |ParamsBytes(ParamsOf(m))|
    ensures Encoded(m)[4..8] == BE32(|Encoded(m)| % 0x1_0000_0000)
  {
    hide BE32, ParamsBytes, ParamsOf;
    Back32(|Encoded(m)| % 0x1_0000_0000);
    Back32((COMMON_HEADER_SIZE + |ParamsBytes(ParamsOf(m))|) % 0x1_0000_0000);
  }

  lemma {:induction false} ParamsFitIn(ps: seq<Param>)
    requires |ParamsBytes(ps)| <= 0xFFF8
    ensures forall p :: p in ps ==> ParamFits(p)
  {
    if ps != [] {
      ParamsFitIn(ps[1..]);
      assert ps == [ps[0]] + ps[1..];
    }
  }

  /** Every message within the limits of the length fields is read back exactly. */
  lemma {:induction false} RoundTrip(m: M3uaMessage)
    requires forall p :: p in ParamsOf(m) ==> ParamFits(p)
    ensures Decoded(Encoded(m)) == Success(Some(m))
  {
    hide ParamsOf, ParamsBytes, Decoded, TakeParams, Header, ParamFits;
    ParamsBack(m);
    BodySmall(m);
    var body := ParamsBytes(ParamsOf(m));
    HeaderRead(m.msgClass, m.msgType, body, COMMON_HEADER_SIZE + |body|);
    assert body[..|body|] == body;
  }

  lemma {:induction false} BodySmall(m: M3uaMessage)
    requires forall p :: p in ParamsOf(m) ==> ParamFits(p)
    ensures |ParamsBytes(ParamsOf(m))| <= 0x3_0000
  {
    SizeBound(ParamsOf(m));
  }

  lemma {:induction false} ParamSize(p: Param)
    requires ParamFits(p)
    ensures |ParamBytes(p.tag, p.value)| <= 0x1_0000
  {
    var n := |p.value|;
    assert n + Pad(n) <= 0xFFFC;
  }

  lemma {:induction false} SizeBound(ps: seq<Param>)
    requires forall p :: p in ps ==> ParamFits(p)
    ensures |ParamsBytes(ps)| <= 0x1_0000 * |ps|
  {
    if ps != [] {
      ParamSize(ps[0]);
      hide ParamBytes, ParamFits;
      SizeBound(ps[1..]);
    }
  }

  /** The reassembler accepts an encoded message, as the message that was encoded, if and only if it
      has at most 64 KiB; the 16-bit parameter lengths are then never exceeded. */
  lemma {:induction false} EncodedIsFrame(m: M3uaMessage)
    ensures M3uaCut(Encoded(m)) == Frame(|Encoded(m)|) <==> |Encoded(m)| <= MAX_MESSAGE_SIZE
    ensures |Encoded(m)| <= MAX_MESSAGE_SIZE ==> Decoded(Encoded(m)) == Success(Some(m))
  {
    hide Encoded, Decoded, ParamsOf, ParamsBytes, BE32, FromBE32, ParamFits;
    var raw := Encoded(m);
    EncodedShape(m);
    Back32(|raw| % 0x1_0000_0000);
    if |raw| <= MAX_MESSAGE_SIZE {
      ParamsFitIn(ParamsOf(m));
      RoundTrip(m);
      assert raw[..|raw|] == raw;
    }
  }

  function Wire(ms: seq<M3uaMessage>): seq<Bytes> {
    seq(|ms|, i requires 0 <= i < |ms| => Encoded(ms[i]))
  }

  /** Any chunking of encoded messages of at most 64 KiB each gives exactly those messages. */
  lemma {:induction false} MessagesSurviveChunking(ms: seq<M3uaMessage>, chunks: seq<Bytes>)
    requires forall i :: 0 <= i < |ms| ==> |Encoded(ms[i])| <= MAX_MESSAGE_SIZE
    requires Flatten(chunks) == Flatten(Wire(ms))
    ensures Reassembled(M3uaCut, chunks) == Drained(Wire(ms), [], false)
    ensures forall i :: 0 <= i < |ms| ==> Decoded(Wire(ms)[i]) == Success(Some(ms[i]))
  {
    hide Encoded, Decoded, M3uaCut;
    M3uaStable();
    forall i | 0 <= i < |ms|
      ensures M3uaCut(Wire(ms)[i]) == Frame(|Wire(ms)[i]|) && Decoded(Wire(ms)[i]) == Success(Some(ms[i]))
    {
      EncodedIsFrame(ms[i]);
    }
    FramesBack(M3uaCut, Wire(ms), chunks);
  }
}

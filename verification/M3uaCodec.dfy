/** M3UA messages: an eight-octet header and parameters padded to four octets (RFC 4666). */
module M3uaCodec {
  import opened Basics
  import opened Buffer
  import opened Stream

  const VERSION: Byte := 1
  const TAG_ROUTING_CONTEXT: U16 := 0x0006
  const TAG_HEARTBEAT_DATA: U16 := 0x0009
  const TAG_PROTOCOL_DATA: U16 := 0x0210
  const COMMON_HEADER_SIZE := 8
  const MAX_MESSAGE_SIZE := 0x1_0000

  datatype ProtocolData = ProtocolData(opc: U32, dpc: U32, si: Byte, ni: Byte, mp: Byte, sls: Byte, userData: Bytes)

  datatype M3uaMessage = M3uaMessage(
    msgClass: Byte, msgType: Byte, routingContext: Option<U32>, protocolData: Option<ProtocolData>,
    heartbeatData: Bytes)

  // --------------------------------------------------------------- encoding

  function Pad(n: nat): nat { (4 - n % 4) % 4 }

  function Zeros(n: nat): Bytes { seq(n, _ => 0) }

  /** A parameter as written: the length field is cut to 16 bits and does not count the padding. */
  function ParamHead(tag: U16, v: Bytes): Bytes { BE16(tag) + BE16((4 + |v|) % 0x1_0000) + v }

  function ParamBytes(tag: U16, v: Bytes): Bytes { ParamHead(tag, v) + Zeros(Pad(|v|)) }

  function ProtocolDataBytes(pd: ProtocolData): Bytes {
    BE32(pd.opc) + BE32(pd.dpc) + [pd.si, pd.ni, pd.mp, pd.sls] + pd.userData
  }

  /** One parameter of a message. */
  datatype Param = Param(tag: U16, value: Bytes)

  /** The parameters of a message, in the order in which they are written. */
  function ParamsOf(m: M3uaMessage): seq<Param> {
    (if m.routingContext.None? then [] else [Param(TAG_ROUTING_CONTEXT, BE32(m.routingContext.value))])
    + (if m.heartbeatData == [] then [] else [Param(TAG_HEARTBEAT_DATA, m.heartbeatData)])
    + (if m.protocolData.None? then [] else [Param(TAG_PROTOCOL_DATA, ProtocolDataBytes(m.protocolData.value))])
  }

  function ParamsBytes(ps: seq<Param>): Bytes {
    if ps == [] then [] else ParamBytes(ps[0].tag, ps[0].value) + ParamsBytes(ps[1..])
  }

  function Header(msgClass: Byte, msgType: Byte, length: nat): Bytes {
    [VERSION, 0, msgClass, msgType] + BE32(length % 0x1_0000_0000)
  }

  function Encoded(m: M3uaMessage): Bytes {
    var body := ParamsBytes(ParamsOf(m));
    Header(m.msgClass, m.msgType, COMMON_HEADER_SIZE + |body|) + body
  }

  method WriteTlv(w: BufferWriter, tag: U16, value: Bytes)
    modifies w
    ensures w.buf == old(w.buf) + ParamBytes(tag, value)
  {
    var len := (4 + |value|) % 0x1_0000;
    w.WriteBE16(tag);
    w.WriteBE16(len);
    w.WriteBytes(value);
    var pad := (4 - |value| % 4) % 4;
    ghost var head := w.buf;
    assert head == old(w.buf) + ParamHead(tag, value);
    for i := 0 to pad
      invariant w.buf == head + Zeros(i)
    {
      w.Write8(0);
      assert Zeros(i + 1) == Zeros(i) + [0];
    }
  }

  method EncodeProtocolData(pd: ProtocolData) returns (r: Bytes)
    ensures r == ProtocolDataBytes(pd)
  {
    hide BE32;
    var pdw := new BufferWriter();
    pdw.WriteBE32(pd.opc);
    pdw.WriteBE32(pd.dpc);
    ghost var codes := pdw.buf;
    pdw.Write8(pd.si);
    pdw.Write8(pd.ni);
    pdw.Write8(pd.mp);
    pdw.Write8(pd.sls);
    assert pdw.buf == codes + [pd.si, pd.ni, pd.mp, pd.sls];
    pdw.WriteBytes(pd.userData);
    return pdw.buf;
  }

  method WriteHeader(w: BufferWriter, msgClass: Byte, msgType: Byte, length: U32)
    requires w.buf == []
    modifies w
    ensures w.buf == Header(msgClass, msgType, length)
  {
    hide BE32;
    w.Write8(VERSION);
    w.Write8(0);
    w.Write8(msgClass);
    w.Write8(msgType);
    assert w.buf == [VERSION, 0, msgClass, msgType];
    w.WriteBE32(length);
  }

  method Encode(m: M3uaMessage) returns (r: Bytes)
    ensures r == Encoded(m)
  {
    hide ParamBytes, ProtocolDataBytes, Header, BE32, ParamsBytes;
    ghost var ps: seq<Param> := [];
    var body := new BufferWriter();
    assert body.buf == ParamsBytes(ps) by { NoParams(); }
    if m.routingContext.Some? {
      WriteTlv(body, TAG_ROUTING_CONTEXT, BE32(m.routingContext.value));
      ps := AddParam(ps, Param(TAG_ROUTING_CONTEXT, BE32(m.routingContext.value)));
    }
    if m.heartbeatData != [] {
      WriteTlv(body, TAG_HEARTBEAT_DATA, m.heartbeatData);
      ps := AddParam(ps, Param(TAG_HEARTBEAT_DATA, m.heartbeatData));
    }
    if m.protocolData.Some? {
      var pd := EncodeProtocolData(m.protocolData.value);
      WriteTlv(body, TAG_PROTOCOL_DATA, pd);
      ps := AddParam(ps, Param(TAG_PROTOCOL_DATA, pd));
    }
    assert ps == ParamsOf(m);
    hide ParamsOf;
    var totalLen := (COMMON_HEADER_SIZE + |body.buf|) % 0x1_0000_0000;
    HeaderWraps(m.msgClass, m.msgType, COMMON_HEADER_SIZE + |body.buf|);
    var w := new BufferWriter();
    WriteHeader(w, m.msgClass, m.msgType, totalLen);
    w.WriteBytes(body.buf);
    return w.buf;
  }

  lemma {:induction false} NoParams()
    ensures ParamsBytes([]) == []
  {
  }

  lemma {:induction false} HeaderWraps(msgClass: Byte, msgType: Byte, length: nat)
    ensures Header(msgClass, msgType, length % 0x1_0000_0000) == Header(msgClass, msgType, length)
  {
    hide BE32;
    assert length % 0x1_0000_0000 % 0x1_0000_0000 == length % 0x1_0000_0000;
  }

  ghost function AddParam(ps: seq<Param>, p: Param): (qs: seq<Param>)
    ensures qs == ps + [p] && ParamsBytes(qs) == ParamsBytes(ps) + ParamBytes(p.tag, p.value)
  {
    ParamsSnoc(ps, p);
    ps + [p]
  }

  lemma {:induction false} ParamsSnoc(ps: seq<Param>, p: Param)
    ensures ParamsBytes(ps + [p]) == ParamsBytes(ps) + ParamBytes(p.tag, p.value)
  {
    hide ParamBytes;
    if ps == [] {
      assert [p][1..] == [];
    } else {
      ParamsSnoc(ps[1..], p);
      assert (ps + [p])[1..] == ps[1..] + [p];
    }
  }

  // --------------------------------------------------------------- decoding

  function ProtocolDataOf(v: Bytes): ProtocolData
    requires |v| >= 12
  {
    ProtocolData(FromBE32(v[..4]), FromBE32(v[4..8]), v[8], v[9], v[10], v[11], v[12..])
  }

  function TakeParam(tag: U16, v: Bytes, m: M3uaMessage): Result<M3uaMessage> {
    if tag == TAG_ROUTING_CONTEXT then Success(if |v| >= 4 then m.(routingContext := Some(FromBE32(v[..4]))) else m)
    else if tag == TAG_HEARTBEAT_DATA then Success(m.(heartbeatData := v))
    else if tag == TAG_PROTOCOL_DATA then
      if |v| < 12 then Failure else Success(m.(protocolData := Some(ProtocolDataOf(v))))
    else Success(m)
  }

  /** Padding is skipped only if all of it lies within the message. */
  function AfterParam(body: Bytes, len: nat): (r: Bytes)
    requires 4 <= len <= |body|
    ensures |r| < |body|
  {
    var pad := Pad(len - 4);
    if len + pad <= |body| then body[len + pad..] else body[len..]
  }

  /** A parameter taken off the front of a message body. */
  datatype Split = Split(param: Param, rest: Bytes)

  function SplitParam(body: Bytes): (r: Result<Split>)
    requires |body| >= 4
    ensures r.Success? ==> |r.value.rest| < |body|
  {
    var len := Word(body[2], body[3]);
    if len < 4 || len > |body| then Failure
    else Success(Split(Param(Word(body[0], body[1]), body[4..len]), AfterParam(body, len)))
  }

  function TakeParams(body: Bytes, m: M3uaMessage): Result<M3uaMessage>
    decreases |body|
  {
    if |body| < 4 then Success(m)
    else
      var s :- SplitParam(body);
      var m' :- TakeParam(s.param.tag, s.param.value, m);
      TakeParams(s.rest, m')
  }

  function BlankM3ua(msgClass: Byte, msgType: Byte): M3uaMessage { M3uaMessage(msgClass, msgType, None, None, []) }

  /** A failure is an exception; None means that the message is incomplete. */
  function Decoded(data: Bytes): Result<Option<M3uaMessage>> {
    if |data| < COMMON_HEADER_SIZE then Success(None)
    else
      var totalLen := FromBE32(data[4..8]);
      if data[0] != VERSION || totalLen < COMMON_HEADER_SIZE then Failure
      else if |data| < totalLen then Success(None)
      else
        var m :- TakeParams(data[COMMON_HEADER_SIZE..totalLen], BlankM3ua(data[2], data[3]));
        Success(Some(m))
  }

  method DecodeProtocolData(value: Bytes) returns (pd: ProtocolData)
    requires |value| >= 12
    ensures pd == ProtocolDataOf(value)
  {
    hide FromBE32, BufferReader.Rest;
    var pr := new BufferReader(value);
    Window(pr, 4);
    var opc := pr.ReadBE32();
    Window(pr, 4);
    var dpc := pr.ReadBE32();
    Window(pr, 1);
    var si := pr.Read8();
    Window(pr, 1);
    var ni := pr.Read8();
    Window(pr, 1);
    var mp := pr.Read8();
    Window(pr, 1);
    var sls := pr.Read8();
    var n := pr.Remaining();
    Window(pr, n);
    var userData := pr.ReadBytes(n);
    pd := ProtocolData(opc.value, dpc.value, si.value, ni.value, mp.value, sls.value, userData.value);
  }

  method DecodeParam(tag: U16, value: Bytes, m: M3uaMessage) returns (r: Result<M3uaMessage>)
    ensures r == TakeParam(tag, value, m)
  {
    hide ProtocolDataOf, FromBE32;
    if tag == TAG_ROUTING_CONTEXT {
      if |value| >= 4 { return Success(m.(routingContext := Some(FromBE32(value[..4])))); }
    } else if tag == TAG_HEARTBEAT_DATA {
      return Success(m.(heartbeatData := value));
    } else if tag == TAG_PROTOCOL_DATA {
      if |value| < 12 { return Failure; }
      var pd := DecodeProtocolData(value);
      return Success(m.(protocolData := Some(pd)));
    }
    return Success(m);
  }

  method Decode(data: Bytes) returns (r: Result<Option<M3uaMessage>>)
    ensures r == Decoded(data)
  {
    hide TakeParams, FromBE32, BufferReader.Rest;
    if |data| < COMMON_HEADER_SIZE { return Success(None); }
    var rd := new BufferReader(data);
    Window(rd, 1);
    var version := rd.Read8();
    Window(rd, 1);
    var reserved := rd.Read8();
    Window(rd, 1);
    var msgClass := rd.Read8();
    Window(rd, 1);
    var msgType := rd.Read8();
    Window(rd, 4);
    var totalLen := rd.ReadBE32();
    if version.value != VERSION { return Failure; }
    if totalLen.value < COMMON_HEADER_SIZE { return Failure; }
    if |data| < totalLen.value { return Success(None); }
    var bodyEnd: nat := totalLen.value;
    var m := BlankM3ua(msgClass.value, msgType.value);
    m :- DecodeBody(rd, bodyEnd, m);
    return Success(Some(m));
  }

  method ReadParam(rd: BufferReader, bodyEnd: nat) returns (r: Result<Param>)
    requires rd.Valid() && rd.pos + 4 <= bodyEnd <= |rd.data|
    modifies rd`pos
    ensures rd.Valid()
    ensures var s := SplitParam(old(rd.data[rd.pos..bodyEnd]));
            && (r.Success? <==> s.Success?)
            && (r.Success? ==> rd.pos <= bodyEnd && s.value == Split(r.value, rd.data[rd.pos..bodyEnd]))
  {
    hide FromBE16, BufferReader.Rest, SplitParam, Pad;
    ghost var at := rd.pos;
    Window(rd, 2);
    var tag := rd.ReadBE16();
    Window(rd, 2);
    var len := rd.ReadBE16();
    SplitIs(rd.data, at, bodyEnd);
    if len.value < 4 { return Failure; }
    var valueLen := len.value - 4;
    if rd.pos + valueLen > bodyEnd { return Failure; }
    var value := ReadPadded(rd, valueLen, bodyEnd);
    return Success(Param(tag.value, value));
  }

  /** The value and then its padding, if all of that is there. */
  method ReadPadded(rd: BufferReader, valueLen: nat, bodyEnd: nat) returns (value: Bytes)
    requires rd.Valid() && rd.pos + valueLen <= bodyEnd <= |rd.data|
    modifies rd`pos
    ensures rd.Valid() && value == old(rd.data[rd.pos..rd.pos + valueLen])
    ensures rd.pos == old(rd.pos) + valueLen
                      + if old(rd.pos) + valueLen + Pad(valueLen) <= bodyEnd then Pad(valueLen) else 0
  {
    hide BufferReader.Rest, Pad;
    Window(rd, valueLen);
    var v := rd.ReadBytes(valueLen);
    var pad := Pad(valueLen);
    if pad > 0 && rd.pos + pad <= bodyEnd {
      Window(rd, pad);
      var skipped := rd.ReadBytes(pad);
    }
    return v.value;
  }

  /** `SplitParam` in terms of positions in the whole message. */
  lemma {:induction false} SplitIs(data: Bytes, at: nat, end: nat)
    requires at + 4 <= end <= |data|
    ensures var tag, len := FromBE16(data[at..at + 2]), FromBE16(data[at + 2..at + 4]);
            SplitParam(data[at..end])
            == if len < 4 || at + len > end then Failure
               else
                 var next := if at + len + Pad(len - 4) <= end then at + len + Pad(len - 4) else at + len;
                 Success(Split(Param(tag, data[at + 4..at + len]), data[next..end]))
  {
    var len := FromBE16(data[at + 2..at + 4]);
    if 4 <= len && at + len <= end {
      SubWindow(data, at, end, 4, len);
      var next := if at + len + Pad(len - 4) <= end then len + Pad(len - 4) else len;
      SubWindow(data, at, end, next, end - at);
    }
  }

  lemma {:induction false} SubWindow(data: Bytes, at: nat, end: nat, i: nat, j: nat)
    requires i <= j && at + j <= end <= |data|
    ensures data[at..end][i..j] == data[at + i..at + j]
    ensures j == end - at ==> data[at..end][i..] == data[at + i..at + j]
  {
    forall k | 0 <= k < j - i ensures data[at..end][i..j][k] == data[at + i..at + j][k] { }
  }

  /** The parameter loop, bounded by the length in the header. */
  method DecodeBody(rd: BufferReader, bodyEnd: nat, start: M3uaMessage) returns (r: Result<M3uaMessage>)
    requires rd.Valid() && rd.pos <= bodyEnd <= |rd.data|
    modifies rd`pos
    ensures r == TakeParams(old(rd.data[rd.pos..bodyEnd]), start)
  {
    hide TakeParam, SplitParam;
    ghost var body := rd.data[rd.pos..bodyEnd];
    var m := start;
    while rd.pos + 4 <= bodyEnd
      invariant rd.Valid() && rd.pos <= bodyEnd
      invariant TakeParams(body, start) == TakeParams(rd.data[rd.pos..bodyEnd], m)
      decreases bodyEnd - rd.pos
    {
      var p :- ReadParam(rd, bodyEnd);
      m :- DecodeParam(p.tag, p.value, m);
    }
    return Success(m);
  }
}

/** The octets of encoded messages, laid out by the tag and code numbers of their protocols. Decoders read
    these octets back, as the round trips of the codecs say. */
module WireLayout {
  import opened Basics
  import opened Bcd
  import opened Ber
  import opened GsupMessages
  import opened MapMessages
  import Gsup = GsupCodec
  import Map = MapCodec
  import Ipa = IpaCodec
  import M3ua = M3uaCodec
  import M3uaStream
  import Sccp = SccpCodec

  // ---------------------------------------------------------------- numbers

  /** Numbers are written and read most significant octet first. */
  lemma {:induction false} BigEndian(v: U32, w: U16)
    ensures Unsigned(BE16(w)) == w && Unsigned(BE32(v)) == v
    ensures FromBE16(BE16(w)) == w && FromBE32(BE32(v)) == v
  {
    var b, c := BE32(v), BE16(w);
    assert c[..1] == [c[0]] && [c[0]][..0] == [] && Unsigned([]) == 0;
    assert Unsigned(c[..1]) == c[0];
    assert b[..3][..2] == b[..2] && b[..2][..1] == b[..1] && b[..1][..0] == [];
    assert Unsigned(b[..1]) == b[0];
    assert Unsigned(b[..2]) == v / 0x1_0000;
    assert Unsigned(b[..3]) == v / 0x100;
    assert b == [b[0], b[1], b[2], b[3]];
    hide Unsigned;
    Back32(v);
  }

  lemma {:induction false} Back32(v: U32)
    ensures FromBE32(BE32(v)) == v
  {
    M3uaStream.Back32(v);
    hide BE32, FromBE32;
  }

  /** The first digit of a pair is in the low nibble, and a last digit alone has 0xF beside it. */
  lemma {:induction false} DigitPairs(a: char, b: char, rest: string)
    requires '0' <= a <= '9' && '0' <= b <= '9'
    ensures PackBcd([a, b] + rest) == [(b as int - 48) * 16 + (a as int - 48)] + PackBcd(rest)
    ensures PackBcd([a]) == [0xF0 + (a as int - 48)] && PackBcd("") == []
  {
    hide PackPair, Nibble;
    var d := [a, b] + rest;
    assert d[2..] == rest;
    DigitNibble(a);
    DigitNibble(b);
    PackedPair(Nibble(a), Nibble(b));
    PackedPair(Nibble(a), 0x0F);
  }

  lemma {:induction false} DigitNibble(a: char)
    requires '0' <= a <= '9'
    ensures Nibble(a) == a as int - 48 && Nibble(a) < 16
  {
  }

  // -------------------------------------------------------------------- MAP

  /** A TLV with a definite length in its short form, or in the long form of one or two octets. */
  function Tagged(tag: Byte, v: Bytes): Bytes {
    [tag] + (if |v| < 0x80 then [|v|] else if |v| < 0x100 then [0x81, |v|] else [0x82, |v| / 0x100 % 0x100, |v| % 0x100]) + v
  }

  /** An INTEGER of one octet, with a zero octet before it if its top bit is set. */
  function Integer(v: Byte): Bytes { Tagged(0x02, if v < 0x80 then [v] else [0, v]) }

  function OctetString(v: Bytes): Bytes { Tagged(0x04, v) }

  function OptOctetString(v: Option<Bytes>): Bytes { if v.None? then [] else OctetString(v.value) }

  lemma {:induction false} TlvIs(tag: Byte, v: Bytes)
    ensures TlvBytes(tag, v).Success? ==> TlvBytes(tag, v).value == Tagged(tag, v)
  {
  }

  lemma {:induction false} IntIs(v: Byte)
    ensures Map.IntTlv(v) == Success(Integer(v))
  {
    if v >= 0x80 {
      assert IntBytes(0) == [0];
      assert IntBytes(v) == IntBytes(0) + [v] == [0, v];
    } else {
      assert IntBytes(v) == [v];
    }
    TlvIs(0x02, IntBytes(v));
  }

  function TripletOctets(ts: seq<Triplet>): Bytes {
    if ts == [] then []
    else
      var t := ts[|ts| - 1];
      TripletOctets(ts[..|ts| - 1]) + Tagged(0x30, OctetString(t.rand) + OctetString(t.sres) + OctetString(t.kc))
  }

  function QuintupletOctets(qs: seq<Quintuplet>): Bytes {
    if qs == [] then []
    else
      var q := qs[|qs| - 1];
      QuintupletOctets(qs[..|qs| - 1]) + Tagged(0x30, OctetString(q.rand) + OctetString(q.xres) + OctetString(q.ck) + OctetString(q.ik) + OctetString(q.autn))
  }

  /** The arguments of an Invoke. */
  function InvokeArguments(m: MapMessage): Bytes {
    var imsi := OctetString(PackBcd(m.imsi));
    if m.operation == 56 then Tagged(0x30, imsi + Integer(m.numRequestedVectors.GetOr(1)))
    else if m.operation == 23 then Tagged(0x30, imsi + OptOctetString(m.sgsnNumber) + OptOctetString(m.sgsnAddress))
    else if m.operation == 3 then Tagged(0x30, imsi + if m.cancelType.None? then [] else Tagged(0x02, [m.cancelType.value]))
    else if m.operation == 7 then Tagged(0x30, imsi + OptOctetString(m.msisdn))
    else if m.operation == 8 then Tagged(0x30, imsi)
    else if m.operation == 67 then Tagged(0x30, imsi + OptOctetString(m.sgsnNumber))
    else []
  }

  /** The arguments of a result. Those of the operations without results of their own are the IMSI. */
  function ResultArguments(m: MapMessage): Bytes {
    if m.operation == 56 then Tagged(0x30, TripletOctets(m.triplets) + QuintupletOctets(m.quintuplets))
    else if m.operation == 23 then Tagged(0x30, OptOctetString(m.hlrNumber))
    else if m.operation == 67 then Tagged(0x30, if m.freezePtmsi then Tagged(0x05, []) else [])
    else if m.operation == 3 then Tagged(0x30, OctetString(PackBcd(m.imsi)) + if m.cancelType.None? then [] else Tagged(0x02, [m.cancelType.value]))
    else if m.operation == 7 then Tagged(0x30, OctetString(PackBcd(m.imsi)) + OptOctetString(m.msisdn))
    else if m.operation == 8 then Tagged(0x30, OctetString(PackBcd(m.imsi)))
    else []
  }

  lemma {:induction false} TripletsAre(ts: seq<Triplet>)
    ensures Map.TripletTlvs(ts).Success? ==> Map.TripletTlvs(ts).value == TripletOctets(ts)
  {
    hide TlvBytes, Tagged;
    if ts != [] {
      var t := ts[|ts| - 1];
      TripletsAre(ts[..|ts| - 1]);
      TlvIs(0x04, t.rand);
      TlvIs(0x04, t.sres);
      TlvIs(0x04, t.kc);
      TlvIs(0x30, OctetString(t.rand) + OctetString(t.sres) + OctetString(t.kc));
    }
  }

  lemma {:induction false} QuintupletsAre(qs: seq<Quintuplet>)
    ensures Map.QuintupletTlvs(qs).Success? ==> Map.QuintupletTlvs(qs).value == QuintupletOctets(qs)
  {
    hide TlvBytes, Tagged;
    if qs != [] {
      var q := qs[|qs| - 1];
      QuintupletsAre(qs[..|qs| - 1]);
      TlvIs(0x04, q.rand);
      TlvIs(0x04, q.xres);
      TlvIs(0x04, q.ck);
      TlvIs(0x04, q.ik);
      TlvIs(0x04, q.autn);
      TlvIs(0x30, OctetString(q.rand) + OctetString(q.xres) + OctetString(q.ck) + OctetString(q.ik) + OctetString(q.autn));
    }
  }

  lemma {:induction false} OptIs(v: Option<Bytes>)
    ensures Map.OptOctetsTlv(v).Success? ==> Map.OptOctetsTlv(v).value == OptOctetString(v)
  {
    if v.Some? { TlvIs(0x04, v.value); }
    hide TlvBytes, Tagged;
  }

  lemma {:induction false} OneOctetInt(v: Byte)
    ensures Tagged(0x02, [v]) == [0x02, 0x01, v] && Tagged(0x05, []) == [0x05, 0x00]
  {
  }

  /** The arguments, whichever the component. */
  lemma {:induction false} ArgumentsAre(m: MapMessage)
    requires Map.ArgBytes(m).Success? && (m.component.Invoke? || m.component.ReturnResult?)
    ensures Map.ArgBytes(m).value == if m.component.Invoke? then InvokeArguments(m) else ResultArguments(m)
  {
    hide TlvBytes, Tagged, PackBcd, Map.IntTlv, Integer, Map.TripletTlvs, Map.QuintupletTlvs, Map.OptOctetsTlv,
         OptOctetString;
    TlvIs(0x04, PackBcd(m.imsi));
    IntIs(m.numRequestedVectors.GetOr(1));
    OptIs(m.sgsnNumber);
    OptIs(m.sgsnAddress);
    OptIs(m.msisdn);
    OptIs(m.hlrNumber);
    TripletsAre(m.triplets);
    QuintupletsAre(m.quintuplets);
    if m.cancelType.Some? { OneOctetInt(m.cancelType.value); } else { OneOctetInt(0); }
    if Map.ArgFields(m).Success? { TlvIs(0x30, Map.ArgFields(m).value); }
  }

  /** A whole message: the dialogue part, its transaction id and one component. */
  function Dialogue(pdu: Byte, tidTag: Byte, tid: U32, component: Bytes): Bytes {
    Tagged(pdu, Tagged(tidTag, BE32(tid)) + Tagged(0x6C, component))
  }

  /** Every encoded MAP message, octet by octet. */
  lemma {:induction false} MapOctets(m: MapMessage)
    requires Map.Encoded(m).Success?
    ensures Map.Encoded(m).value
         == match m.component
            case Invoke => Dialogue(0x62, 0x48, m.transactionId, Tagged(0xA1, Integer(m.invokeId) + Integer(m.operation) + InvokeArguments(m)))
            case ReturnResult =>
              Dialogue(0x64, 0x49, m.transactionId, Tagged(0xA2, Integer(m.invokeId) + Tagged(0x30, Integer(m.operation) + ResultArguments(m))))
            case ReturnError => Dialogue(0x64, 0x49, m.transactionId, Tagged(0xA3, Integer(m.invokeId) + Integer(m.errorCode.GetOr(34))))
            case Reject => []
  {
    hide TlvBytes, Tagged, Integer, Map.IntTlv, Map.ArgBytes, InvokeArguments, ResultArguments, BE32;
    var args := Map.ArgBytes(m).value;
    if m.component.Invoke? || m.component.ReturnResult? { ArgumentsAre(m); }
    ComponentIs(m, args);
    hide Map.ComponentBytes;
    var component := Map.ComponentBytes(m, args).value;
    TlvIs(0x6C, component);
    var tidTag: Byte := if m.component.Invoke? then 0x48 else 0x49;
    TlvIs(tidTag, BE32(m.transactionId));
    TlvIs(if m.component.Invoke? then 0x62 else 0x64, Tagged(tidTag, BE32(m.transactionId)) + Tagged(0x6C, component));
  }

  lemma {:induction false} ComponentIs(m: MapMessage, args: Bytes)
    requires Map.ComponentBytes(m, args).Success?
    ensures !m.component.Reject?
    ensures Map.ComponentBytes(m, args).value
         == match m.component
            case Invoke => Tagged(0xA1, Integer(m.invokeId) + Integer(m.operation) + args)
            case ReturnResult => Tagged(0xA2, Integer(m.invokeId) + Tagged(0x30, Integer(m.operation) + args))
            case ReturnError => Tagged(0xA3, Integer(m.invokeId) + Integer(m.errorCode.GetOr(34)))
            case Reject => []
  {
    hide TlvBytes, Tagged, Integer, Map.IntTlv;
    IntIs(m.invokeId);
    IntIs(m.operation);
    IntIs(m.errorCode.GetOr(34));
    TlvIs(0xA1, Integer(m.invokeId) + Integer(m.operation) + args);
    TlvIs(0x30, Integer(m.operation) + args);
    TlvIs(0xA2, Integer(m.invokeId) + Tagged(0x30, Integer(m.operation) + args));
    TlvIs(0xA3, Integer(m.invokeId) + Integer(m.errorCode.GetOr(34)));
  }

  // ------------------------------------------------------------------- GSUP

  /** An information element; a nested one has its size modulo 256 as its length. */
  function Element(tag: Byte, v: Bytes): Bytes { [tag, |v| % 0x100] + v }

  function OptElement(tag: Byte, v: Option<Bytes>): Bytes { if v.None? then [] else Element(tag, v.value) }
  function OptOctet(tag: Byte, v: Option<Byte>): Bytes { if v.None? then [] else Element(tag, [v.value]) }

  function TupleElements(t: AuthTuple): Bytes {
    Element(0x20, t.rand) + Element(0x21, t.sres) + Element(0x22, t.kc) + OptElement(0x23, t.ik) + OptElement(0x24, t.ck) + OptElement(0x25, t.autn)
    + OptElement(0x27, t.res)
  }

  function PdpElements(p: PdpInfo): Bytes {
    Element(0x60, [p.contextId]) + (if p.pdpType.None? then [] else Element(0x61, BE16(p.pdpType.value)))
    + OptElement(0x62, p.apn) + OptElement(0x63, p.pdpAddress) + OptElement(0x64, p.qos)
  }

  function TupleList(ts: seq<AuthTuple>): Bytes {
    if ts == [] then [] else TupleList(ts[..|ts| - 1]) + Element(0x03, TupleElements(ts[|ts| - 1]))
  }

  function PdpList(ps: seq<PdpInfo>): Bytes {
    if ps == [] then [] else PdpList(ps[..|ps| - 1]) + Element(0x05, PdpElements(ps[|ps| - 1]))
  }

  lemma {:induction false} IeIs(tag: Byte, v: Bytes)
    ensures Gsup.IeBytes(tag, v).Success? ==> Gsup.IeBytes(tag, v).value == Element(tag, v)
  {
  }

  lemma {:induction false} OptIeIs(tag: Byte, v: Option<Bytes>)
    ensures Gsup.OptIe(tag, v).Success? ==> Gsup.OptIe(tag, v).value == OptElement(tag, v)
  {
    if v.Some? { IeIs(tag, v.value); }
    hide Element, Gsup.IeBytes;
  }

  lemma {:induction false} Opt1Is(tag: Byte, v: Option<Byte>)
    ensures Gsup.Opt1(tag, v) == OptOctet(tag, v) && Gsup.Flag(tag, true) == Element(tag, []) && Gsup.Flag(tag, false) == []
  {
  }

  lemma {:induction false} TupleIs(t: AuthTuple)
    ensures Gsup.TupleBody(t).Success? ==> Gsup.TupleBody(t).value == TupleElements(t)
  {
    hide Element, OptElement, Gsup.IeBytes, Gsup.OptIe;
    IeIs(0x20, t.rand);
    IeIs(0x21, t.sres);
    IeIs(0x22, t.kc);
    OptIeIs(0x23, t.ik);
    OptIeIs(0x24, t.ck);
    OptIeIs(0x25, t.autn);
    OptIeIs(0x27, t.res);
  }

  lemma {:induction false} PdpIs(p: PdpInfo)
    ensures Gsup.PdpBody(p).Success? ==> Gsup.PdpBody(p).value == PdpElements(p)
  {
    hide OptElement, Gsup.OptIe, BE16;
    OptIeIs(0x62, p.apn);
    OptIeIs(0x63, p.pdpAddress);
    OptIeIs(0x64, p.qos);
    if p.pdpType.Some? { TwoOctets(p.pdpType.value); }
  }

  lemma {:induction false} TwoOctets(v: U16)
    ensures |BE16(v)| == 2
  {
  }

  lemma {:induction false} TuplesAre(ts: seq<AuthTuple>)
    ensures Gsup.TupleIes(ts).Success? ==> Gsup.TupleIes(ts).value == TupleList(ts)
  {
    hide Gsup.TupleBody, TupleElements;
    if ts != [] {
      TuplesAre(ts[..|ts| - 1]);
      TupleIs(ts[|ts| - 1]);
    }
  }

  lemma {:induction false} PdpsAre(ps: seq<PdpInfo>)
    ensures Gsup.PdpIes(ps).Success? ==> Gsup.PdpIes(ps).value == PdpList(ps)
  {
    hide Gsup.PdpBody, PdpElements;
    if ps != [] {
      PdpsAre(ps[..|ps| - 1]);
      PdpIs(ps[|ps| - 1]);
    }
  }

  /** Every encoded GSUP message, octet by octet. */
  lemma {:induction false} GsupOctets(m: GsupMessage)
    requires Gsup.Encoded(m).Success?
    ensures Gsup.Encoded(m).value
         == [m.mtype] + (if m.imsi == "" then [] else Element(0x01, PackBcd(m.imsi)))
            + OptOctet(0x02, m.cause) + OptOctet(0x10, m.numVectorsRequested) + TupleList(m.authTuples)
            + OptElement(0x08, m.msisdn) + OptElement(0x09, m.hlrNumber)
            + (if m.pdpInfoComplete then Element(0x04, []) else []) + PdpList(m.pdpInfoList)
            + OptOctet(0x06, m.cancelType) + (if m.freezePtmsi then Element(0x07, []) else []) + OptOctet(0x28, m.cnDomain)
  {
    hide Element, OptElement, OptOctet, Gsup.Opt1, Gsup.Flag, Gsup.OptIe, Gsup.IeBytes, Gsup.TupleIes, Gsup.PdpIes,
         TupleList, PdpList, PackBcd;
    IeIs(0x01, PackBcd(m.imsi));
    Opt1Is(0x02, m.cause);
    Opt1Is(0x10, m.numVectorsRequested);
    TuplesAre(m.authTuples);
    OptIeIs(0x08, m.msisdn);
    OptIeIs(0x09, m.hlrNumber);
    Opt1Is(0x04, None);
    PdpsAre(m.pdpInfoList);
    Opt1Is(0x06, m.cancelType);
    Opt1Is(0x07, None);
    Opt1Is(0x28, m.cnDomain);
  }

  // ---------------------------------------------------------- frames and units

  /** An IPA frame: its length counts the stream octet. */
  lemma {:induction false} IpaOctets(f: Ipa.IpaFrame)
    requires |f.payload| < 0xFFFF
    ensures Ipa.Encoded(f) == Success(BE16(|f.payload| + 1) + [f.streamId] + f.payload)
  {
    var n: U16 := |f.payload| + 1;
    assert BE16(n) + [f.streamId] == [n / 0x100, n % 0x100, f.streamId];
  }

  /** An M3UA parameter: the length counts tag and length, and the value is padded to four octets. */
  function Parameter(tag: U16, v: Bytes): Bytes {
    BE16(tag) + BE16((|v| + 4) % 0x1_0000) + v
    + (if |v| % 4 == 0 then [] else if |v| % 4 == 1 then [0, 0, 0] else if |v| % 4 == 2 then [0, 0] else [0])
  }

  lemma {:induction false} ParamIs(tag: U16, v: Bytes)
    ensures M3ua.ParamBytes(tag, v) == Parameter(tag, v)
  {
    hide BE16;
  }

  /** Every encoded M3UA message, octet by octet: version 1, the length of all of it, and the routing
      context, heartbeat data and protocol data it has, in this order. */
  lemma {:induction false} M3uaOctets(m: M3ua.M3uaMessage)
    ensures var body := (if m.routingContext.None? then [] else Parameter(0x0006, BE32(m.routingContext.value)))
                        + (if m.heartbeatData == [] then [] else Parameter(0x0009, m.heartbeatData))
                        + (if m.protocolData.None? then [] else Parameter(0x0210, ProtocolOctets(m.protocolData.value)));
            M3ua.Encoded(m) == [1, 0, m.msgClass, m.msgType] + BE32((8 + |body|) % 0x1_0000_0000) + body
  {
    hide BE32, Parameter, M3ua.ParamBytes, ProtocolOctets;
    var rc: seq<M3ua.Param> := if m.routingContext.None? then [] else [M3ua.Param(0x0006,
        BE32(m.routingContext.value))];
    var hb: seq<M3ua.Param> := if m.heartbeatData == [] then [] else [M3ua.Param(0x0009, m.heartbeatData)];
    var pd: seq<M3ua.Param> :=
      if m.protocolData.None? then [] else [M3ua.Param(0x0210, ProtocolOctets(m.protocolData.value))];
    if m.protocolData.Some? { ProtocolIs(m.protocolData.value); }
    hide M3ua.ProtocolDataBytes;
    assert M3ua.ParamsOf(m) == rc + hb + pd;
    UpToOne(rc);
    UpToOne(hb);
    UpToOne(pd);
    ParamsAppend(rc, hb);
    ParamsAppend(rc + hb, pd);
    hide M3ua.ParamsBytes, M3ua.ParamsOf;
  }

  function ProtocolOctets(pd: M3ua.ProtocolData): Bytes {
    BE32(pd.opc) + BE32(pd.dpc) + [pd.si] + [pd.ni] + [pd.mp] + [pd.sls] + pd.userData
  }

  lemma {:induction false} ProtocolIs(pd: M3ua.ProtocolData)
    ensures M3ua.ProtocolDataBytes(pd) == ProtocolOctets(pd)
  {
    hide BE32;
  }

  lemma {:induction false} UpToOne(ps: seq<M3ua.Param>)
    requires |ps| <= 1
    ensures M3ua.ParamsBytes(ps) == if ps == [] then [] else Parameter(ps[0].tag, ps[0].value)
  {
    hide M3ua.ParamBytes, Parameter;
    if ps != [] {
      ParamIs(ps[0].tag, ps[0].value);
      assert M3ua.ParamsBytes(ps[1..]) == [];
    }
  }

  lemma {:induction false} ParamsAppend(ps: seq<M3ua.Param>, qs: seq<M3ua.Param>)
    ensures M3ua.ParamsBytes(ps + qs) == M3ua.ParamsBytes(ps) + M3ua.ParamsBytes(qs)
  {
    hide M3ua.ParamBytes;
    if ps == [] {
      assert ps + qs == qs;
    } else {
      ParamsAppend(ps[1..], qs);
      assert (ps + qs)[0] == ps[0] && (ps + qs)[1..] == ps[1..] + qs;
      var head := M3ua.ParamBytes(ps[0].tag, ps[0].value);
      assert head + M3ua.ParamsBytes(ps[1..]) + M3ua.ParamsBytes(qs) == head + (M3ua.ParamsBytes(ps[1..]) + M3ua.ParamsBytes(qs));
    }
  }

  /** Every encoded unitdata message whose pointers and lengths fit one octet, octet by octet. */
  lemma {:induction false} UdtOctets(u: Sccp.SccpUdt)
    requires 3 + |Sccp.EncodedAddress(u.called)| + |Sccp.EncodedAddress(u.calling)| <= 0xFF && |u.data| <= 0xFF
    ensures var called, calling := Sccp.EncodedAddress(u.called), Sccp.EncodedAddress(u.calling);
            Sccp.EncodedUdt(u)
            == [0x09, u.protocolClass, 3, 3 + |called|, 3 + |called| + |calling|]
               + [|called|] + called + [|calling|] + calling + [|u.data|] + u.data
  {
    hide Sccp.EncodedAddress;
  }
}

/** GSUP encoder and decoder. The functions say what the loops of the methods compute. */
module GsupCodec {
  import opened Basics
  import opened Buffer
  import opened Bcd
  import opened GsupMessages

  // --------------------------------------------------------------- decoding

  /** One information element taken off the front of an octet string. */
  datatype Ie = Ie(tag: Byte, value: Bytes, rest: Bytes)

  function TakeIe(s: Bytes): (r: Result<Ie>)
    ensures r.Success? ==> |r.value.rest| < |s|
  {
    if |s| < 2 || |s| - 2 < s[1] then Failure
    else Success(Ie(s[0], s[2..2 + s[1]], s[2 + s[1]..]))
  }

  function TupleStep(tag: Byte, v: Bytes, t: AuthTuple): AuthTuple {
    if tag == IE_RAND then t.(rand := v)
    else if tag == IE_SRES then t.(sres := v)
    else if tag == IE_KC then t.(kc := v)
    else if tag == IE_IK then t.(ik := Some(v))
    else if tag == IE_CK then t.(ck := Some(v))
    else if tag == IE_AUTN then t.(autn := Some(v))
    else if tag == IE_RES then t.(res := Some(v))
    else t
  }

  function TupleFields(s: Bytes, t: AuthTuple): Result<AuthTuple>
    decreases |s|
  {
    if s == [] then Success(t)
    else
      var ie :- TakeIe(s);
      TupleFields(ie.rest, TupleStep(ie.tag, ie.value, t))
  }

  function PdpStep(tag: Byte, v: Bytes, p: PdpInfo): PdpInfo {
    if tag == IE_PDP_CONTEXT_ID then p.(contextId := if v == [] then 0 else v[0])
    else if tag == IE_PDP_TYPE then (if |v| >= 2 then p.(pdpType := Some(Word(v[0], v[1]))) else p)
    else if tag == IE_APN then p.(apn := Some(v))
    else if tag == IE_PDP_ADDRESS then p.(pdpAddress := Some(v))
    else if tag == IE_PDP_QOS then p.(qos := Some(v))
    else p
  }

  function PdpFields(s: Bytes, p: PdpInfo): Result<PdpInfo>
    decreases |s|
  {
    if s == [] then Success(p)
    else
      var ie :- TakeIe(s);
      PdpFields(ie.rest, PdpStep(ie.tag, ie.value, p))
  }

  /** The elements whose value is neither nested nor BCD. */
  function PlainStep(tag: Byte, v: Bytes, m: GsupMessage): GsupMessage {
    if tag == IE_PDP_INFO_COMPLETE then m.(pdpInfoComplete := true)
    else if tag == IE_CANCEL_TYPE then (if |v| >= 1 then m.(cancelType := Some(v[0])) else m)
    else if tag == IE_FREEZE_PTMSI then m.(freezePtmsi := true)
    else if tag == IE_MSISDN then m.(msisdn := Some(v))
    else if tag == IE_HLR_NUMBER then m.(hlrNumber := Some(v))
    else if tag == IE_NUM_VECTORS then (if |v| >= 1 then m.(numVectorsRequested := Some(v[0])) else m)
    else if tag == IE_CN_DOMAIN then (if |v| >= 1 then m.(cnDomain := Some(v[0])) else m)
    else m
  }

  function IeStep(tag: Byte, v: Bytes, m: GsupMessage): Result<GsupMessage> {
    if tag == IE_IMSI then
      var d :- UnpackImsi(v);
      Success(m.(imsi := d))
    else if tag == IE_AUTH_TUPLE then
      var t :- TupleFields(v, BLANK_TUPLE);
      Success(m.(authTuples := m.authTuples + [t]))
    else if tag == IE_PDP_INFO then
      var p :- PdpFields(v, BLANK_PDP);
      Success(m.(pdpInfoList := m.pdpInfoList + [p]))
    else Success(PlainStep(tag, v, m))
  }

  /** A Cause element consumes at least one octet after its header, even when its length says none. */
  function Ies(s: Bytes, m: GsupMessage): Result<GsupMessage>
    decreases |s|
  {
    if s == [] then Success(m)
    else
      var ie :- TakeIe(s);
      if ie.tag == IE_CAUSE then
        if |s| < 3 then Failure
        else Ies(if s[1] == 0 then s[3..] else ie.rest, m.(cause := Some(s[2])))
      else
        var m' :- IeStep(ie.tag, ie.value, m);
        Ies(ie.rest, m')
  }

  function Decoded(payload: Bytes): Result<GsupMessage> {
    if |payload| < 1 then Failure else Ies(payload[1..], BLANK_GSUP.(mtype := payload[0]))
  }

  method ReadIe(r: BufferReader) returns (t: Result<(Byte, Bytes)>)
    requires r.Valid()
    modifies r`pos
    ensures r.Valid()
    ensures t.Success? <==> TakeIe(old(r.Rest())).Success?
    ensures t.Success? ==> TakeIe(old(r.Rest())).value == Ie(t.value.0, t.value.1, r.Rest())
  {
    var tag :- r.Read8();
    var len :- r.Read8();
    var v :- r.ReadBytes(len);
    return Success((tag, v));
  }

  method DecodeAuthTuple(sub: Bytes) returns (res: Result<AuthTuple>)
    ensures res == TupleFields(sub, BLANK_TUPLE)
  {
    var r := new BufferReader(sub);
    var t := BLANK_TUPLE;
    var done := r.Empty();
    while !done
      invariant r.Valid() && fresh(r)
      invariant done <==> r.Rest() == []
      invariant TupleFields(sub, BLANK_TUPLE) == TupleFields(r.Rest(), t)
      decreases |r.Rest()|
    {
      var ie :- ReadIe(r);
      t := TupleStep(ie.0, ie.1, t);
      done := r.Empty();
    }
    return Success(t);
  }

  method DecodePdpInfo(sub: Bytes) returns (res: Result<PdpInfo>)
    ensures res == PdpFields(sub, BLANK_PDP)
  {
    var r := new BufferReader(sub);
    var p := BLANK_PDP;
    var done := r.Empty();
    while !done
      invariant r.Valid() && fresh(r)
      invariant done <==> r.Rest() == []
      invariant PdpFields(sub, BLANK_PDP) == PdpFields(r.Rest(), p)
      decreases |r.Rest()|
    {
      var ie :- ReadIe(r);
      p := PdpStep(ie.0, ie.1, p);
      done := r.Empty();
    }
    return Success(p);
  }

  /** One pass of the decoder's loop: the element at the cursor is applied to the message. */
  method DecodeIe(r: BufferReader, m: GsupMessage) returns (res: Result<GsupMessage>)
    requires r.Valid() && r.Rest() != []
    modifies r`pos
    ensures r.Valid()
    ensures res.Failure? ==> Ies(old(r.Rest()), m).Failure?
    ensures res.Success? ==> |r.Rest()| < |old(r.Rest())| && Ies(old(r.Rest()), m) == Ies(r.Rest(), res.value)
  {
    ghost var s := r.Rest();
    var n := r.Remaining();
    if n < 2 { return Failure; }
    var tag := r.Read8();
    var ieLen := r.Read8();
    n := r.Remaining();
    if tag.Failure? || ieLen.Failure? || n < ieLen.value { return Failure; }
    if tag.value == IE_CAUSE {
      var cause :- r.Read8();
      if ieLen.value > 1 {
        var skipped := r.ReadBytes(ieLen.value - 1);
        assert r.Rest() == s[2 + ieLen.value..];
      }
      return Success(m.(cause := Some(cause)));
    }
    var v := r.ReadBytes(ieLen.value);
    if v.Failure? { return Failure; }
    assert s[2..][..ieLen.value] == s[2..2 + ieLen.value] && s[2..][ieLen.value..] == s[2 + ieLen.value..];
    assert TakeIe(s) == Success(Ie(tag.value, v.value, r.Rest()));
    if tag.value == IE_IMSI {
      var d :- BcdToImsi(v.value);
      res := Success(m.(imsi := d));
    } else if tag.value == IE_AUTH_TUPLE {
      var t :- DecodeAuthTuple(v.value);
      res := Success(m.(authTuples := m.authTuples + [t]));
    } else if tag.value == IE_PDP_INFO {
      var p :- DecodePdpInfo(v.value);
      res := Success(m.(pdpInfoList := m.pdpInfoList + [p]));
    } else {
      res := Success(PlainStep(tag.value, v.value, m));
    }
  }

  method Decode(payload: Bytes) returns (res: Result<GsupMessage>)
    ensures res == Decoded(payload)
  {
    if |payload| < 1 { return Failure; }
    var r := new BufferReader(payload);
    var mtype := r.Read8();
    if mtype.Failure? { return Failure; }
    var msg := BLANK_GSUP.(mtype := mtype.value);
    var done := r.Empty();
    while !done
      invariant r.Valid() && fresh(r)
      invariant done <==> r.Rest() == []
      invariant Decoded(payload) == Ies(r.Rest(), msg)
      decreases |r.Rest()|
    {
      msg :- DecodeIe(r, msg);
      done := r.Empty();
    }
    return Success(msg);
  }

  // --------------------------------------------------------------- encoding

  function IeBytes(tag: Byte, v: Bytes): Result<Bytes> {
    if |v| > 255 then Failure else Success([tag, |v|] + v)
  }

  function OptIe(tag: Byte, v: Option<Bytes>): Result<Bytes> {
    if v.None? then Success([]) else IeBytes(tag, v.value)
  }

  function Opt1(tag: Byte, v: Option<Byte>): Bytes {
    if v.None? then [] else [tag, 1, v.value]
  }

  function Flag(tag: Byte, on: bool): Bytes {
    if on then [tag, 0] else []
  }

  /** The checks of the GSUP `imsiToBcd`, which the MAP codec does not make. */
  predicate EncodableImsi(imsi: string) {
    1 <= |imsi| <= 15 && AllDigits(imsi)
  }

  function ImsiIe(imsi: string): Result<Bytes> {
    if imsi == "" then Success([])
    else if EncodableImsi(imsi) then IeBytes(IE_IMSI, PackBcd(imsi))
    else Failure
  }

  function TupleBody(t: AuthTuple): Result<Bytes> {
    var rand :- IeBytes(IE_RAND, t.rand);
    var sres :- IeBytes(IE_SRES, t.sres);
    var kc :- IeBytes(IE_KC, t.kc);
    var ik :- OptIe(IE_IK, t.ik);
    var ck :- OptIe(IE_CK, t.ck);
    var autn :- OptIe(IE_AUTN, t.autn);
    var res :- OptIe(IE_RES, t.res);
    Success(rand + sres + kc + ik + ck + autn + res)
  }

  /** The length octet of a nested element is the low octet of its size. */
  function Nested(tag: Byte, body: Result<Bytes>): Result<Bytes> {
    if body.Failure? then Failure else Success([tag, |body.value| % 0x100] + body.value)
  }

  function PdpTypeIe(p: PdpInfo): Bytes {
    if p.pdpType.None? then [] else [IE_PDP_TYPE, 2] + BE16(p.pdpType.value)
  }

  function PdpBody(p: PdpInfo): Result<Bytes> {
    var apn :- OptIe(IE_APN, p.apn);
    var address :- OptIe(IE_PDP_ADDRESS, p.pdpAddress);
    var qos :- OptIe(IE_PDP_QOS, p.qos);
    Success([IE_PDP_CONTEXT_ID, 1, p.contextId] + PdpTypeIe(p) + apn + address + qos)
  }

  function Appended(init: Result<Bytes>, last: Result<Bytes>): Result<Bytes> {
    if init.Success? && last.Success? then Success(init.value + last.value) else Failure
  }

  function TupleIes(ts: seq<AuthTuple>): Result<Bytes> {
    if ts == [] then Success([])
    else Appended(TupleIes(ts[..|ts| - 1]), Nested(IE_AUTH_TUPLE, TupleBody(ts[|ts| - 1])))
  }

  function PdpIes(ps: seq<PdpInfo>): Result<Bytes> {
    if ps == [] then Success([])
    else Appended(PdpIes(ps[..|ps| - 1]), Nested(IE_PDP_INFO, PdpBody(ps[|ps| - 1])))
  }

  function Encoded(m: GsupMessage): Result<Bytes> {
    var imsi :- ImsiIe(m.imsi);
    var tuples :- TupleIes(m.authTuples);
    var msisdn :- OptIe(IE_MSISDN, m.msisdn);
    var hlr :- OptIe(IE_HLR_NUMBER, m.hlrNumber);
    var pdps :- PdpIes(m.pdpInfoList);
    Success([m.mtype] + imsi + Opt1(IE_CAUSE, m.cause) + Opt1(IE_NUM_VECTORS, m.numVectorsRequested)
            + tuples + msisdn + hlr + Flag(IE_PDP_INFO_COMPLETE, m.pdpInfoComplete) + pdps
            + Opt1(IE_CANCEL_TYPE, m.cancelType) + Flag(IE_FREEZE_PTMSI, m.freezePtmsi)
            + Opt1(IE_CN_DOMAIN, m.cnDomain))
  }

  method WriteIe(w: BufferWriter, tag: Byte, v: Bytes) returns (st: Status)
    modifies w
    ensures st.Done? <==> IeBytes(tag, v).Success?
    ensures st.Done? ==> w.buf == old(w.buf) + IeBytes(tag, v).value
  {
    if |v| > 255 { return Thrown; }
    w.Write8(tag);
    w.Write8(|v|);
    w.WriteBytes(v);
    assert w.buf == old(w.buf) + ([tag, |v|] + v);
    return Done;
  }

  method WriteOptIe(w: BufferWriter, tag: Byte, v: Option<Bytes>) returns (st: Status)
    modifies w
    ensures st.Done? <==> OptIe(tag, v).Success?
    ensures st.Done? ==> w.buf == old(w.buf) + OptIe(tag, v).value
  {
    if v.Some? { st := WriteIe(w, tag, v.value); } else { st := Done; }
  }

  method WriteOpt1(w: BufferWriter, tag: Byte, v: Option<Byte>)
    modifies w
    ensures w.buf == old(w.buf) + Opt1(tag, v)
  {
    if v.Some? {
      w.Write8(tag);
      w.Write8(1);
      w.Write8(v.value);
    }
  }

  method WriteFlag(w: BufferWriter, tag: Byte, on: bool)
    modifies w
    ensures w.buf == old(w.buf) + Flag(tag, on)
  {
    if on {
      w.Write8(tag);
      w.Write8(0);
    }
  }

  method ImsiToBcd(imsi: string) returns (r: Result<Bytes>)
    ensures r == if EncodableImsi(imsi) then Success(PackBcd(imsi)) else Failure
  {
    if imsi == "" || |imsi| > 15 { return Failure; }
    for i := 0 to |imsi|
      invariant AllDigits(imsi[..i])
    {
      if imsi[i] < '0' || imsi[i] > '9' { return Failure; }
    }
    assert imsi[..|imsi|] == imsi;
    var out := Pack(imsi);
    return Success(out);
  }

  method WriteTupleFields(w: BufferWriter, t: AuthTuple) returns (st: Status)
    modifies w
    ensures st.Done? <==> TupleBody(t).Success?
    ensures st.Done? ==> w.buf == old(w.buf) + TupleBody(t).value
  {
    hide IeBytes, OptIe;
    st := WriteIe(w, IE_RAND, t.rand);
    if st.Done? { st := WriteIe(w, IE_SRES, t.sres); }
    if st.Done? { st := WriteIe(w, IE_KC, t.kc); }
    if st.Done? { st := WriteOptIe(w, IE_IK, t.ik); }
    if st.Done? { st := WriteOptIe(w, IE_CK, t.ck); }
    if st.Done? { st := WriteOptIe(w, IE_AUTN, t.autn); }
    if st.Done? { st := WriteOptIe(w, IE_RES, t.res); }
    if st.Thrown? { return; }
    Append7(old(w.buf), IeBytes(IE_RAND, t.rand).value, IeBytes(IE_SRES, t.sres).value, IeBytes(IE_KC, t.kc).value,
            OptIe(IE_IK, t.ik).value, OptIe(IE_CK, t.ck).value, OptIe(IE_AUTN, t.autn).value,
            OptIe(IE_RES, t.res).value);
  }

  lemma {:induction false} Append7(h: Bytes, a: Bytes, b: Bytes, c: Bytes, d: Bytes, e: Bytes, f: Bytes, g: Bytes)
    ensures h + (a + b + c + d + e + f + g) == h + a + b + c + d + e + f + g
  {
  }

  /** Appends the tuple behind a reserved length octet, which is patched once the size is known. */
  method EncodeAuthTuple(w: BufferWriter, t: AuthTuple) returns (st: Status)
    modifies w
    ensures st.Done? <==> TupleBody(t).Success?
    ensures st.Done? ==> w.buf == old(w.buf) + Nested(IE_AUTH_TUPLE, TupleBody(t)).value
  {
    hide TupleBody;
    w.Write8(IE_AUTH_TUPLE);
    var lenOff := w.ReserveLen8();
    var start := |w.buf|;
    st := WriteTupleFields(w, t);
    if st.Thrown? { return; }
    w.Patch8(lenOff, (|w.buf| - start) % 0x100);
    ghost var body := TupleBody(t).value;
    assert w.buf == old(w.buf) + ([IE_AUTH_TUPLE, |body| % 0x100] + body);
  }

  method WritePdpFields(w: BufferWriter, p: PdpInfo) returns (st: Status)
    modifies w
    ensures st.Done? <==> PdpBody(p).Success?
    ensures st.Done? ==> w.buf == old(w.buf) + PdpBody(p).value
  {
    hide OptIe;
    w.Write8(IE_PDP_CONTEXT_ID);
    w.Write8(1);
    w.Write8(p.contextId);
    ghost var context := [IE_PDP_CONTEXT_ID, 1, p.contextId];
    assert w.buf == old(w.buf) + context;
    if p.pdpType.Some? {
      st := WriteIe(w, IE_PDP_TYPE, BE16(p.pdpType.value));
    }
    assert w.buf == old(w.buf) + context + PdpTypeIe(p);
    hide PdpTypeIe;
    st := WriteOptIe(w, IE_APN, p.apn);
    if st.Done? { st := WriteOptIe(w, IE_PDP_ADDRESS, p.pdpAddress); }
    if st.Done? { st := WriteOptIe(w, IE_PDP_QOS, p.qos); }
    if st.Thrown? { return; }
    Append5(old(w.buf), context, PdpTypeIe(p), OptIe(IE_APN, p.apn).value,
            OptIe(IE_PDP_ADDRESS, p.pdpAddress).value, OptIe(IE_PDP_QOS, p.qos).value);
  }

  lemma {:induction false} Append5(h: Bytes, a: Bytes, b: Bytes, c: Bytes, d: Bytes, e: Bytes)
    ensures h + (a + b + c + d + e) == h + a + b + c + d + e
  {
  }

  method EncodePdpInfo(w: BufferWriter, p: PdpInfo) returns (st: Status)
    modifies w
    ensures st.Done? <==> PdpBody(p).Success?
    ensures st.Done? ==> w.buf == old(w.buf) + Nested(IE_PDP_INFO, PdpBody(p)).value
  {
    hide PdpBody;
    w.Write8(IE_PDP_INFO);
    var lenOff := w.ReserveLen8();
    var start := |w.buf|;
    st := WritePdpFields(w, p);
    if st.Thrown? { return; }
    w.Patch8(lenOff, (|w.buf| - start) % 0x100);
    ghost var body := PdpBody(p).value;
    assert w.buf == old(w.buf) + ([IE_PDP_INFO, |body| % 0x100] + body);
  }

  method EncodeTuples(w: BufferWriter, ts: seq<AuthTuple>) returns (st: Status)
    modifies w
    ensures st.Done? <==> TupleIes(ts).Success?
    ensures st.Done? ==> w.buf == old(w.buf) + TupleIes(ts).value
  {
    hide TupleBody, IeBytes, OptIe;
    for i := 0 to |ts|
      invariant TupleIes(ts[..i]).Success? && w.buf == old(w.buf) + TupleIes(ts[..i]).value
    {
      TuplesUpTo(ts, i);
      st := EncodeAuthTuple(w, ts[i]);
      if st.Thrown? { TuplesFail(ts, i + 1); return; }
    }
    assert ts[..|ts|] == ts;
    return Done;
  }

  lemma {:induction false} TuplesUpTo(ts: seq<AuthTuple>, i: nat)
    requires i < |ts|
    ensures TupleIes(ts[..i + 1]) == Appended(TupleIes(ts[..i]), Nested(IE_AUTH_TUPLE, TupleBody(ts[i])))
  {
    assert ts[..i + 1][..i] == ts[..i];
  }

  lemma {:induction false} TuplesFail(ts: seq<AuthTuple>, i: nat)
    requires i <= |ts| && TupleIes(ts[..i]).Failure?
    ensures TupleIes(ts).Failure?
    decreases |ts| - i
  {
    if i < |ts| {
      TuplesUpTo(ts, i);
      TuplesFail(ts, i + 1);
    } else {
      assert ts[..i] == ts;
    }
  }

  method EncodePdps(w: BufferWriter, ps: seq<PdpInfo>) returns (st: Status)
    modifies w
    ensures st.Done? <==> PdpIes(ps).Success?
    ensures st.Done? ==> w.buf == old(w.buf) + PdpIes(ps).value
  {
    hide PdpBody, IeBytes, OptIe;
    for i := 0 to |ps|
      invariant PdpIes(ps[..i]).Success? && w.buf == old(w.buf) + PdpIes(ps[..i]).value
    {
      PdpsUpTo(ps, i);
      st := EncodePdpInfo(w, ps[i]);
      if st.Thrown? { PdpsFail(ps, i + 1); return; }
    }
    assert ps[..|ps|] == ps;
    return Done;
  }

  lemma {:induction false} PdpsUpTo(ps: seq<PdpInfo>, i: nat)
    requires i < |ps|
    ensures PdpIes(ps[..i + 1]) == Appended(PdpIes(ps[..i]), Nested(IE_PDP_INFO, PdpBody(ps[i])))
  {
    assert ps[..i + 1][..i] == ps[..i];
  }

  lemma {:induction false} PdpsFail(ps: seq<PdpInfo>, i: nat)
    requires i <= |ps| && PdpIes(ps[..i]).Failure?
    ensures PdpIes(ps).Failure?
    decreases |ps| - i
  {
    if i < |ps| {
      PdpsUpTo(ps, i);
      PdpsFail(ps, i + 1);
    } else {
      assert ps[..i] == ps;
    }
  }

  method Encode(m: GsupMessage) returns (r: Result<Bytes>)
    ensures r == Encoded(m)
  {
    hide IeBytes, OptIe, Opt1, Flag, TupleIes, PdpIes, PackBcd;
    var w := new BufferWriter();
    w.Write8(m.mtype);
    assert w.buf == [m.mtype];
    if m.imsi != "" {
      var bcd :- ImsiToBcd(m.imsi);
      :- WriteIe(w, IE_IMSI, bcd);
    }
    assert ImsiIe(m.imsi).Success? && w.buf == [m.mtype] + ImsiIe(m.imsi).value;
    WriteOpt1(w, IE_CAUSE, m.cause);
    WriteOpt1(w, IE_NUM_VECTORS, m.numVectorsRequested);
    :- EncodeTuples(w, m.authTuples);
    :- WriteOptIe(w, IE_MSISDN, m.msisdn);
    :- WriteOptIe(w, IE_HLR_NUMBER, m.hlrNumber);
    WriteFlag(w, IE_PDP_INFO_COMPLETE, m.pdpInfoComplete);
    :- EncodePdps(w, m.pdpInfoList);
    WriteOpt1(w, IE_CANCEL_TYPE, m.cancelType);
    WriteFlag(w, IE_FREEZE_PTMSI, m.freezePtmsi);
    WriteOpt1(w, IE_CN_DOMAIN, m.cnDomain);
    return Success(w.buf);
  }
}

/** Which GSUP messages survive being encoded and decoded again. */
module GsupRoundTrip {
  import opened Basics
  import opened Bcd
  import opened GsupMessages
  import opened GsupCodec

  function OptSize(v: Option<Bytes>): nat { if v.None? then 0 else 2 + |v.value| }

  /** The octets the elements of a tuple take. */
  function TupleSize(t: AuthTuple): nat {
    6 + |t.rand| + |t.sres| + |t.kc| + OptSize(t.ik) + OptSize(t.ck) + OptSize(t.autn) + OptSize(t.res)
  }

  /** The octets the elements of a PDP context take. */
  function PdpSize(p: PdpInfo): nat {
    3 + (if p.pdpType.None? then 0 else 4) + OptSize(p.apn) + OptSize(p.pdpAddress) + OptSize(p.qos)
  }

  predicate Short(v: Option<Bytes>) { v.Some? ==> |v.value| <= 255 }

  /** The messages whose every field fits its wire form. A nested element has a one-octet length
      that the encoder does not check, and `freezePtmsiResult` has no wire form at all. */
  predicate FitsWire(m: GsupMessage) {
    && (m.imsi == "" || EncodableImsi(m.imsi))
    && Short(m.msisdn) && Short(m.hlrNumber)
    && (forall i :: 0 <= i < |m.authTuples| ==> TupleSize(m.authTuples[i]) <= 255)
    && (forall i :: 0 <= i < |m.pdpInfoList| ==> PdpSize(m.pdpInfoList[i]) <= 255)
    && !m.freezePtmsiResult
  }

  // ------------------------------------------------------------- one element

  lemma {:induction false} IeTaken(tag: Byte, v: Bytes, rest: Bytes)
    requires |v| <= 255
    ensures IeBytes(tag, v).Success?
    ensures TakeIe(IeBytes(tag, v).value + rest) == Success(Ie(tag, v, rest))
    ensures IeBytes(tag, v).value + rest != []
  {
    var s := IeBytes(tag, v).value + rest;
    assert s == [tag, |v|] + (v + rest);
    assert s[2..2 + |v|] == v && s[2 + |v|..] == rest;
  }

  lemma {:induction false} TopIeTaken(tag: Byte, v: Bytes, rest: Bytes, m: GsupMessage)
    requires |v| <= 255 && tag != IE_CAUSE && IeStep(tag, v, m).Success?
    ensures Ies(IeBytes(tag, v).value + rest, m) == Ies(rest, IeStep(tag, v, m).value)
  {
    IeTaken(tag, v, rest);
    hide TakeIe, IeBytes, IeStep;
  }

  lemma {:induction false} Opt1Taken(tag: Byte, v: Option<Byte>, rest: Bytes, m: GsupMessage)
    requires tag == IE_NUM_VECTORS || tag == IE_CANCEL_TYPE || tag == IE_CN_DOMAIN
    ensures Ies(Opt1(tag, v) + rest, m) == Ies(rest, if v.None? then m else PlainStep(tag, [v.value], m))
  {
    if v.Some? {
      assert IeBytes(tag, [v.value]).value == Opt1(tag, v);
      TopIeTaken(tag, [v.value], rest, m);
    } else {
      assert Opt1(tag, v) + rest == rest;
    }
  }

  lemma {:induction false} CauseTaken(v: Option<Byte>, rest: Bytes, m: GsupMessage)
    ensures Ies(Opt1(IE_CAUSE, v) + rest, m) == Ies(rest, if v.None? then m else m.(cause := v))
  {
    if v.Some? {
      assert IeBytes(IE_CAUSE, [v.value]).value == Opt1(IE_CAUSE, v);
      IeTaken(IE_CAUSE, [v.value], rest);
      hide TakeIe;
    } else {
      assert Opt1(IE_CAUSE, v) + rest == rest;
    }
  }

  lemma {:induction false} FlagTaken(tag: Byte, on: bool, rest: Bytes, m: GsupMessage)
    requires tag == IE_PDP_INFO_COMPLETE || tag == IE_FREEZE_PTMSI
    ensures Ies(Flag(tag, on) + rest, m) == Ies(rest, if on then PlainStep(tag, [], m) else m)
  {
    if on {
      assert IeBytes(tag, []).value == Flag(tag, on);
      TopIeTaken(tag, [], rest, m);
    } else {
      assert Flag(tag, on) + rest == rest;
    }
  }

  lemma {:induction false} OptIeTaken(tag: Byte, v: Option<Bytes>, rest: Bytes, m: GsupMessage)
    requires tag == IE_MSISDN || tag == IE_HLR_NUMBER
    requires OptIe(tag, v).Success?
    ensures Ies(OptIe(tag, v).value + rest, m) == Ies(rest, if v.None? then m else PlainStep(tag, v.value, m))
  {
    if v.Some? {
      TopIeTaken(tag, v.value, rest, m);
    } else {
      assert [] + rest == rest;
    }
  }

  lemma {:induction false} ImsiTaken(imsi: string, rest: Bytes, m: GsupMessage)
    requires ImsiIe(imsi).Success? && m.imsi == ""
    ensures Ies(ImsiIe(imsi).value + rest, m) == Ies(rest, m.(imsi := imsi))
  {
    if imsi == "" {
      assert [] + rest == rest;
    } else {
      ImsiRoundTrip(imsi);
      hide UnpackImsi;
      TopIeTaken(IE_IMSI, PackBcd(imsi), rest, m);
    }
  }

  // --------------------------------------------------------- nested elements

  /** Decoding never removes or changes a tuple or PDP context already found. */
  lemma {:induction false} IesGrow(s: Bytes, m: GsupMessage)
    ensures Ies(s, m).Success? ==>
              m.authTuples <= Ies(s, m).value.authTuples && m.pdpInfoList <= Ies(s, m).value.pdpInfoList
    decreases |s|
  {
    hide IeStep, TakeIe;
    if s != [] && TakeIe(s).Success? {
      var ie := TakeIe(s).value;
      if ie.tag == IE_CAUSE {
        if |s| >= 3 { IesGrow(if s[1] == 0 then s[3..] else ie.rest, m.(cause := Some(s[2]))); }
      } else if IeStep(ie.tag, ie.value, m).Success? {
        IeStepGrows(ie.tag, ie.value, m);
        IesGrow(ie.rest, IeStep(ie.tag, ie.value, m).value);
      }
    }
  }

  lemma {:induction false} IeStepGrows(tag: Byte, v: Bytes, m: GsupMessage)
    ensures var r := IeStep(tag, v, m);
            r.Success? ==> m.authTuples <= r.value.authTuples && m.pdpInfoList <= r.value.pdpInfoList
  {
    hide TupleFields, PdpFields, UnpackImsi;
  }

  /** Every octet of a decoded tuple comes from an octet of the element, headers included. */
  lemma {:induction false} TupleBySize(s: Bytes, t: AuthTuple)
    ensures TupleFields(s, t).Success? ==> TupleSize(TupleFields(s, t).value) <= TupleSize(t) + |s|
    decreases |s|
  {
    if s != [] && TakeIe(s).Success? {
      var ie := TakeIe(s).value;
      TupleStepSize(ie.tag, ie.value, t);
      IeTakes(s);
      hide TakeIe, TupleStep, TupleSize;
      TupleBySize(ie.rest, TupleStep(ie.tag, ie.value, t));
    }
  }

  lemma {:induction false} TupleStepSize(tag: Byte, v: Bytes, t: AuthTuple)
    ensures TupleSize(TupleStep(tag, v, t)) <= TupleSize(t) + 2 + |v|
  {
  }

  lemma {:induction false} IeTakes(s: Bytes)
    ensures TakeIe(s).Success? ==> |s| == 2 + |TakeIe(s).value.value| + |TakeIe(s).value.rest|
  {
  }

  lemma {:induction false} PdpBySize(s: Bytes, p: PdpInfo)
    ensures PdpFields(s, p).Success? ==> PdpSize(PdpFields(s, p).value) <= PdpSize(p) + |s|
    decreases |s|
  {
    if s != [] && TakeIe(s).Success? {
      var ie := TakeIe(s).value;
      PdpStepSize(ie.tag, ie.value, p);
      IeTakes(s);
      hide TakeIe, PdpStep, PdpSize;
      PdpBySize(ie.rest, PdpStep(ie.tag, ie.value, p));
    }
  }

  lemma {:induction false} PdpStepSize(tag: Byte, v: Bytes, p: PdpInfo)
    ensures PdpSize(PdpStep(tag, v, p)) <= PdpSize(p) + 2 + |v|
  {
  }

  lemma {:induction false} TupleFieldTaken(tag: Byte, v: Bytes, rest: Bytes, t: AuthTuple)
    requires IeBytes(tag, v).Success?
    ensures TupleFields(IeBytes(tag, v).value + rest, t) == TupleFields(rest, TupleStep(tag, v, t))
  {
    IeTaken(tag, v, rest);
    hide TakeIe, IeBytes, TupleStep;
  }

  lemma {:induction false} OptTupleFieldTaken(tag: Byte, v: Option<Bytes>, rest: Bytes, t: AuthTuple)
    requires OptIe(tag, v).Success?
    ensures TupleFields(OptIe(tag, v).value + rest, t)
         == TupleFields(rest, OptTupleStep(tag, v, t))
  {
    if v.Some? {
      TupleFieldTaken(tag, v.value, rest, t);
    } else {
      assert [] + rest == rest;
    }
  }

  lemma {:induction false} RightNested7(a: Bytes, b: Bytes, c: Bytes, d: Bytes, e: Bytes, f: Bytes, g: Bytes)
    ensures a + b + c + d + e + f + g == a + (b + (c + (d + (e + (f + (g + []))))))
  {
  }

  lemma {:induction false} TupleBodyShape(t: AuthTuple)
    requires TupleBody(t).Success?
    ensures IeBytes(IE_RAND, t.rand).Success? && IeBytes(IE_SRES, t.sres).Success? && IeBytes(IE_KC, t.kc).Success?
    ensures OptIe(IE_IK, t.ik).Success? && OptIe(IE_CK, t.ck).Success?
    ensures OptIe(IE_AUTN, t.autn).Success? && OptIe(IE_RES, t.res).Success?
    ensures |TupleBody(t).value| == TupleSize(t)
    ensures TupleBody(t).value
         == IeBytes(IE_RAND, t.rand).value + IeBytes(IE_SRES, t.sres).value + IeBytes(IE_KC, t.kc).value
            + OptIe(IE_IK, t.ik).value + OptIe(IE_CK, t.ck).value + OptIe(IE_AUTN, t.autn).value
            + OptIe(IE_RES, t.res).value
  {
  }

  lemma {:induction false} TupleBodyBack(t: AuthTuple)
    requires TupleBody(t).Success?
    ensures |TupleBody(t).value| == TupleSize(t)
    ensures TupleFields(TupleBody(t).value, BLANK_TUPLE) == Success(t)
  {
    hide *;
    TupleBodyShape(t);
    var a, b, c := IeBytes(IE_RAND, t.rand).value, IeBytes(IE_SRES, t.sres).value, IeBytes(IE_KC, t.kc).value;
    var d, e := OptIe(IE_IK, t.ik).value, OptIe(IE_CK, t.ck).value;
    var f, g := OptIe(IE_AUTN, t.autn).value, OptIe(IE_RES, t.res).value;
    RightNested7(a, b, c, d, e, f, g);
    var r6 := g + [];
    var r5 := f + r6;
    var r4 := e + r5;
    var r3 := d + r4;
    var r2 := c + r3;
    TupleFieldTaken(IE_RAND, t.rand, b + r2, BLANK_TUPLE);
    var t1 := TupleStep(IE_RAND, t.rand, BLANK_TUPLE);
    TupleFieldTaken(IE_SRES, t.sres, r2, t1);
    var t2 := TupleStep(IE_SRES, t.sres, t1);
    TupleFieldTaken(IE_KC, t.kc, r3, t2);
    var t3 := TupleStep(IE_KC, t.kc, t2);
    OptTupleFieldTaken(IE_IK, t.ik, r4, t3);
    var t4 := OptTupleStep(IE_IK, t.ik, t3);
    OptTupleFieldTaken(IE_CK, t.ck, r5, t4);
    var t5 := OptTupleStep(IE_CK, t.ck, t4);
    OptTupleFieldTaken(IE_AUTN, t.autn, r6, t5);
    var t6 := OptTupleStep(IE_AUTN, t.autn, t5);
    OptTupleFieldTaken(IE_RES, t.res, [], t6);
    EmptyFields();
    TupleRebuilt(t);
  }

  lemma {:induction false} TupleRebuilt(t: AuthTuple)
    ensures OptTupleStep(IE_RES, t.res, OptTupleStep(IE_AUTN, t.autn, OptTupleStep(IE_CK, t.ck,
              OptTupleStep(IE_IK, t.ik, TupleStep(IE_KC, t.kc, TupleStep(IE_SRES, t.sres,
              TupleStep(IE_RAND, t.rand, BLANK_TUPLE))))))) == t
  {
  }

  function OptTupleStep(tag: Byte, v: Option<Bytes>, t: AuthTuple): AuthTuple {
    if v.None? then t else TupleStep(tag, v.value, t)
  }

  lemma {:induction false} EmptyFields()
    ensures forall t :: TupleFields([], t) == Success(t)
    ensures forall p :: PdpFields([], p) == Success(p)
  {
  }

  lemma {:induction false} PdpFieldTaken(tag: Byte, v: Bytes, rest: Bytes, p: PdpInfo)
    requires IeBytes(tag, v).Success?
    ensures PdpFields(IeBytes(tag, v).value + rest, p) == PdpFields(rest, PdpStep(tag, v, p))
  {
    IeTaken(tag, v, rest);
    hide TakeIe, IeBytes, PdpStep;
  }

  lemma {:induction false} OptPdpFieldTaken(tag: Byte, v: Option<Bytes>, rest: Bytes, p: PdpInfo)
    requires OptIe(tag, v).Success?
    ensures PdpFields(OptIe(tag, v).value + rest, p)
         == PdpFields(rest, OptPdpStep(tag, v, p))
  {
    if v.Some? {
      PdpFieldTaken(tag, v.value, rest, p);
    } else {
      assert [] + rest == rest;
    }
  }

  lemma {:induction false} PdpTypeTaken(p: PdpInfo, rest: Bytes, q: PdpInfo)
    requires q.pdpType.None?
    ensures PdpFields(PdpTypeIe(p) + rest, q) == PdpFields(rest, q.(pdpType := p.pdpType))
  {
    if p.pdpType.Some? {
      var v := BE16(p.pdpType.value);
      assert IeBytes(IE_PDP_TYPE, v).value == PdpTypeIe(p);
      PdpFieldTaken(IE_PDP_TYPE, v, rest, q);
    } else {
      assert PdpTypeIe(p) + rest == rest;
    }
  }

  lemma {:induction false} RightNested5(a: Bytes, b: Bytes, c: Bytes, d: Bytes, e: Bytes)
    ensures a + b + c + d + e == a + (b + (c + (d + (e + []))))
  {
  }

  function OptPdpStep(tag: Byte, v: Option<Bytes>, p: PdpInfo): PdpInfo {
    if v.None? then p else PdpStep(tag, v.value, p)
  }

  lemma {:induction false} PdpBodyShape(p: PdpInfo)
    requires PdpBody(p).Success?
    ensures OptIe(IE_APN, p.apn).Success? && OptIe(IE_PDP_ADDRESS, p.pdpAddress).Success?
    ensures OptIe(IE_PDP_QOS, p.qos).Success? && IeBytes(IE_PDP_CONTEXT_ID, [p.contextId]).Success?
    ensures |PdpBody(p).value| == PdpSize(p)
    ensures PdpBody(p).value
         == IeBytes(IE_PDP_CONTEXT_ID, [p.contextId]).value + PdpTypeIe(p) + OptIe(IE_APN, p.apn).value
            + OptIe(IE_PDP_ADDRESS, p.pdpAddress).value + OptIe(IE_PDP_QOS, p.qos).value
  {
    assert IeBytes(IE_PDP_CONTEXT_ID, [p.contextId]).value == [IE_PDP_CONTEXT_ID, 1, p.contextId];
  }

  lemma {:induction false} PdpBodyBack(p: PdpInfo)
    requires PdpBody(p).Success?
    ensures |PdpBody(p).value| == PdpSize(p)
    ensures PdpFields(PdpBody(p).value, BLANK_PDP) == Success(p)
  {
    hide *;
    PdpBodyShape(p);
    var a, b := IeBytes(IE_PDP_CONTEXT_ID, [p.contextId]).value, PdpTypeIe(p);
    var c, d, e := OptIe(IE_APN, p.apn).value, OptIe(IE_PDP_ADDRESS, p.pdpAddress).value, OptIe(IE_PDP_QOS, p.qos).value;
    RightNested5(a, b, c, d, e);
    var r4 := e + [];
    var r3 := d + r4;
    var r2 := c + r3;
    PdpFieldTaken(IE_PDP_CONTEXT_ID, [p.contextId], b + r2, BLANK_PDP);
    var p1 := PdpStep(IE_PDP_CONTEXT_ID, [p.contextId], BLANK_PDP);
    PdpRebuilt(p);
    PdpTypeTaken(p, r2, p1);
    var p2 := p1.(pdpType := p.pdpType);
    OptPdpFieldTaken(IE_APN, p.apn, r3, p2);
    var p3 := OptPdpStep(IE_APN, p.apn, p2);
    OptPdpFieldTaken(IE_PDP_ADDRESS, p.pdpAddress, r4, p3);
    var p4 := OptPdpStep(IE_PDP_ADDRESS, p.pdpAddress, p3);
    OptPdpFieldTaken(IE_PDP_QOS, p.qos, [], p4);
    EmptyFields();
  }

  lemma {:induction false} PdpRebuilt(p: PdpInfo)
    ensures var p1 := PdpStep(IE_PDP_CONTEXT_ID, [p.contextId], BLANK_PDP);
            p1.pdpType.None?
            && OptPdpStep(IE_PDP_QOS, p.qos, OptPdpStep(IE_PDP_ADDRESS, p.pdpAddress,
                 OptPdpStep(IE_APN, p.apn, p1.(pdpType := p.pdpType)))) == p
  {
  }

  /** A nested element whose body has more than 255 octets is cut at the low octet of its size. */
  lemma {:induction false} NestedTaken(tag: Byte, body: Bytes, rest: Bytes)
    ensures Nested(tag, Success(body)).Success?
    ensures var s := Nested(tag, Success(body)).value + rest;
            TakeIe(s) == Success(Ie(tag, body[..|body| % 0x100], body[|body| % 0x100..] + rest)) && s != []
  {
    var n := |body| % 0x100;
    var s := Nested(tag, Success(body)).value + rest;
    assert s == [tag, n] + (body + rest);
    assert s[2..2 + n] == body[..n] && s[2 + n..] == body[n..] + rest;
  }

  /** No message starting from `m` can end up with the tuples `ts` next: the reading went wrong. */
  predicate TuplesLost(r: Result<GsupMessage>, m: GsupMessage, ts: seq<AuthTuple>) {
    r.Success? ==> !(m.authTuples + ts <= r.value.authTuples)
  }

  lemma {:induction false} TupleTaken(t: AuthTuple, rest: Bytes, m: GsupMessage)
    requires TupleBody(t).Success?
    ensures var r := Ies(Nested(IE_AUTH_TUPLE, TupleBody(t)).value + rest, m);
            if TupleSize(t) <= 255 then r == Ies(rest, m.(authTuples := m.authTuples + [t]))
            else TuplesLost(r, m, [t])
  {
    hide *;
    var body := TupleBody(t).value;
    TupleBodyBack(t);
    NestedTaken(IE_AUTH_TUPLE, body, rest);
    var cut, over := body[..|body| % 0x100], body[|body| % 0x100..] + rest;
    var s := Nested(IE_AUTH_TUPLE, Success(body)).value + rest;
    TupleIeRead(s, cut, over, m);
    if |body| <= 255 {
      assert cut == body && over == rest;
    } else {
      TupleBySize(cut, BLANK_TUPLE);
      assert TupleSize(BLANK_TUPLE) <= 6 by { BlankTupleSize(); }
      var f := TupleFields(cut, BLANK_TUPLE);
      if f.Success? {
        assert f.value != t;
        var m' := m.(authTuples := m.authTuples + [f.value]);
        IesGrow(over, m');
        if Ies(s, m).Success? { Differs(m.authTuples, t, f.value, Ies(s, m).value.authTuples); }
      }
      TupleLostMeans(Ies(s, m), m, t);
    }
  }

  lemma {:induction false} TupleLostMeans(r: Result<GsupMessage>, m: GsupMessage, t: AuthTuple)
    ensures TuplesLost(r, m, [t]) <==> (r.Success? ==> !(m.authTuples + [t] <= r.value.authTuples))
  {
  }

  lemma {:induction false} BlankTupleSize()
    ensures TupleSize(BLANK_TUPLE) <= 6
  {
  }

  lemma {:induction false} TupleIeRead(s: Bytes, v: Bytes, rest: Bytes, m: GsupMessage)
    requires s != [] && TakeIe(s) == Success(Ie(IE_AUTH_TUPLE, v, rest))
    ensures var f := TupleFields(v, BLANK_TUPLE);
            Ies(s, m) == if f.Failure? then Failure else Ies(rest, m.(authTuples := m.authTuples + [f.value]))
  {
    hide TakeIe, TupleFields;
  }

  lemma {:induction false} Differs<T>(init: seq<T>, x: T, y: T, r: seq<T>)
    requires x != y && init + [y] <= r
    ensures !(init + [x] <= r)
  {
    var k := |init|;
    assert (init + [y])[k] == y && (init + [x])[k] == x;
    assert r[k] == y;
  }

  predicate PdpsLost(r: Result<GsupMessage>, m: GsupMessage, ps: seq<PdpInfo>) {
    r.Success? ==> !(m.pdpInfoList + ps <= r.value.pdpInfoList)
  }

  lemma {:induction false} PdpTaken(p: PdpInfo, rest: Bytes, m: GsupMessage)
    requires PdpBody(p).Success?
    ensures var r := Ies(Nested(IE_PDP_INFO, PdpBody(p)).value + rest, m);
            if PdpSize(p) <= 255 then r == Ies(rest, m.(pdpInfoList := m.pdpInfoList + [p]))
            else PdpsLost(r, m, [p])
  {
    hide *;
    var body := PdpBody(p).value;
    PdpBodyBack(p);
    NestedTaken(IE_PDP_INFO, body, rest);
    var cut, over := body[..|body| % 0x100], body[|body| % 0x100..] + rest;
    var s := Nested(IE_PDP_INFO, Success(body)).value + rest;
    PdpIeRead(s, cut, over, m);
    if |body| <= 255 {
      assert cut == body && over == rest;
    } else {
      PdpBySize(cut, BLANK_PDP);
      assert PdpSize(BLANK_PDP) <= 6 by { BlankPdpSize(); }
      var f := PdpFields(cut, BLANK_PDP);
      if f.Success? {
        assert f.value != p;
        var m' := m.(pdpInfoList := m.pdpInfoList + [f.value]);
        IesGrow(over, m');
        if Ies(s, m).Success? { Differs(m.pdpInfoList, p, f.value, Ies(s, m).value.pdpInfoList); }
      }
      PdpLostMeans(Ies(s, m), m, p);
    }
  }

  lemma {:induction false} PdpLostMeans(r: Result<GsupMessage>, m: GsupMessage, p: PdpInfo)
    ensures PdpsLost(r, m, [p]) <==> (r.Success? ==> !(m.pdpInfoList + [p] <= r.value.pdpInfoList))
  {
  }

  lemma {:induction false} BlankPdpSize()
    ensures PdpSize(BLANK_PDP) <= 6
  {
  }

  lemma {:induction false} PdpIeRead(s: Bytes, v: Bytes, rest: Bytes, m: GsupMessage)
    requires s != [] && TakeIe(s) == Success(Ie(IE_PDP_INFO, v, rest))
    ensures var f := PdpFields(v, BLANK_PDP);
            Ies(s, m) == if f.Failure? then Failure else Ies(rest, m.(pdpInfoList := m.pdpInfoList + [f.value]))
  {
    hide TakeIe, PdpFields;
  }

  predicate TuplesFit(ts: seq<AuthTuple>) {
    forall i :: 0 <= i < |ts| ==> TupleSize(ts[i]) <= 255
  }

  predicate PdpsFit(ps: seq<PdpInfo>) {
    forall i :: 0 <= i < |ps| ==> PdpSize(ps[i]) <= 255
  }

  lemma {:induction false} TuplesTaken(ts: seq<AuthTuple>, rest: Bytes, m: GsupMessage)
    requires TupleIes(ts).Success?
    ensures var r := Ies(TupleIes(ts).value + rest, m);
            if TuplesFit(ts) then r == Ies(rest, m.(authTuples := m.authTuples + ts)) else TuplesLost(r, m, ts)
  {
    hide Ies, TupleBody, Nested;
    if ts == [] {
      assert TupleIes(ts).value + rest == rest && m.authTuples + ts == m.authTuples;
    } else {
      var init, last := ts[..|ts| - 1], ts[|ts| - 1];
      assert Nested(IE_AUTH_TUPLE, TupleBody(last)).Success? && TupleBody(last).Success? by { NestedOfTuple(last); }
      var a, b := TupleIes(init).value, Nested(IE_AUTH_TUPLE, TupleBody(last)).value;
      assert (a + b) + rest == a + (b + rest);
      TuplesTaken(init, b + rest, m);
      var m' := m.(authTuples := m.authTuples + init);
      TupleTaken(last, rest, m');
      assert ts == init + [last] && m.authTuples + ts == (m.authTuples + init) + [last];
    }
  }

  lemma {:induction false} NestedOfTuple(t: AuthTuple)
    ensures Nested(IE_AUTH_TUPLE, TupleBody(t)).Success? <==> TupleBody(t).Success?
  {
  }

  lemma {:induction false} NestedOfPdp(p: PdpInfo)
    ensures Nested(IE_PDP_INFO, PdpBody(p)).Success? <==> PdpBody(p).Success?
  {
  }

  lemma {:induction false} PdpsTaken(ps: seq<PdpInfo>, rest: Bytes, m: GsupMessage)
    requires PdpIes(ps).Success?
    ensures var r := Ies(PdpIes(ps).value + rest, m);
            if PdpsFit(ps) then r == Ies(rest, m.(pdpInfoList := m.pdpInfoList + ps)) else PdpsLost(r, m, ps)
  {
    hide Ies, PdpBody, Nested;
    if ps == [] {
      assert PdpIes(ps).value + rest == rest && m.pdpInfoList + ps == m.pdpInfoList;
    } else {
      var init, last := ps[..|ps| - 1], ps[|ps| - 1];
      assert Nested(IE_PDP_INFO, PdpBody(last)).Success? && PdpBody(last).Success? by { NestedOfPdp(last); }
      var a, b := PdpIes(init).value, Nested(IE_PDP_INFO, PdpBody(last)).value;
      assert (a + b) + rest == a + (b + rest);
      PdpsTaken(init, b + rest, m);
      var m' := m.(pdpInfoList := m.pdpInfoList + init);
      PdpTaken(last, rest, m');
      assert ps == init + [last] && m.pdpInfoList + ps == (m.pdpInfoList + init) + [last];
    }
  }

  // ---------------------------------------------------------- whole messages

  /** What follows the tuples on the wire, and what follows the PDP contexts. */
  function AfterPdps(m: GsupMessage): Bytes {
    Opt1(IE_CANCEL_TYPE, m.cancelType) + (Flag(IE_FREEZE_PTMSI, m.freezePtmsi) + (Opt1(IE_CN_DOMAIN, m.cnDomain) + []))
  }

  function AfterTuples(m: GsupMessage): Bytes
    requires Encoded(m).Success?
  {
    OptIe(IE_MSISDN, m.msisdn).value + (OptIe(IE_HLR_NUMBER, m.hlrNumber).value
    + (Flag(IE_PDP_INFO_COMPLETE, m.pdpInfoComplete) + (PdpIes(m.pdpInfoList).value + AfterPdps(m))))
  }

  lemma {:induction false} RightNested12(h: Bytes, a: Bytes, b: Bytes, c: Bytes, d: Bytes, e: Bytes, f: Bytes, g: Bytes,
                      i: Bytes, j: Bytes, k: Bytes, l: Bytes)
    ensures h + a + b + c + d + e + f + g + i + j + k + l
         == h + (a + (b + (c + (d + (e + (f + (g + (i + (j + (k + (l + [])))))))))))
  {
    var x := h + a + b + c + d + e;
    assert x == h + (a + (b + (c + (d + e))));
    var y := f + (g + (i + (j + (k + (l + [])))));
    assert x + f + g + i + j + k + l == x + y;
    assert (h + (a + (b + (c + (d + e))))) + y == h + (a + (b + (c + (d + (e + y)))));
  }

  lemma {:induction false} EncodedShape(m: GsupMessage)
    requires Encoded(m).Success?
    ensures ImsiIe(m.imsi).Success? && TupleIes(m.authTuples).Success? && PdpIes(m.pdpInfoList).Success?
    ensures OptIe(IE_MSISDN, m.msisdn).Success? && OptIe(IE_HLR_NUMBER, m.hlrNumber).Success?
    ensures Encoded(m).value
         == [m.mtype] + (ImsiIe(m.imsi).value + (Opt1(IE_CAUSE, m.cause)
            + (Opt1(IE_NUM_VECTORS, m.numVectorsRequested) + (TupleIes(m.authTuples).value + AfterTuples(m)))))
  {
    hide ImsiIe, TupleIes, PdpIes, OptIe, Opt1, Flag;
    RightNested12([m.mtype], ImsiIe(m.imsi).value, Opt1(IE_CAUSE, m.cause), Opt1(IE_NUM_VECTORS, m.numVectorsRequested),
                  TupleIes(m.authTuples).value, OptIe(IE_MSISDN, m.msisdn).value, OptIe(IE_HLR_NUMBER,
                  m.hlrNumber).value,
                  Flag(IE_PDP_INFO_COMPLETE, m.pdpInfoComplete), PdpIes(m.pdpInfoList).value,
                  Opt1(IE_CANCEL_TYPE, m.cancelType), Flag(IE_FREEZE_PTMSI, m.freezePtmsi),
                  Opt1(IE_CN_DOMAIN, m.cnDomain));
  }

  function UpToTuples(m: GsupMessage): GsupMessage {
    BLANK_GSUP.(mtype := m.mtype, imsi := m.imsi, cause := m.cause, numVectorsRequested := m.numVectorsRequested)
  }

  function UpToPdps(m: GsupMessage): GsupMessage {
    UpToTuples(m).(authTuples := m.authTuples, msisdn := m.msisdn, hlrNumber := m.hlrNumber,
                   pdpInfoComplete := m.pdpInfoComplete)
  }

  lemma {:induction false} ReadUpToTuples(m: GsupMessage)
    requires Encoded(m).Success? && TupleIes(m.authTuples).Success?
    ensures Decoded(Encoded(m).value) == Ies(TupleIes(m.authTuples).value + AfterTuples(m), UpToTuples(m))
  {
    hide Encoded, ImsiIe, TupleIes, PdpIes, OptIe, Opt1, Flag, Ies, AfterTuples;
    EncodedShape(m);
    var r3 := TupleIes(m.authTuples).value + AfterTuples(m);
    var r2 := Opt1(IE_NUM_VECTORS, m.numVectorsRequested) + r3;
    var r1 := Opt1(IE_CAUSE, m.cause) + r2;
    var r0 := ImsiIe(m.imsi).value + r1;
    assert ([m.mtype] + r0)[1..] == r0;
    var m0 := BLANK_GSUP.(mtype := m.mtype);
    ImsiTaken(m.imsi, r1, m0);
    var m1 := m0.(imsi := m.imsi);
    CauseTaken(m.cause, r2, m1);
    Opt1Taken(IE_NUM_VECTORS, m.numVectorsRequested, r3, m1.(cause := m.cause));
  }

  lemma {:induction false} ReadUpToPdps(m: GsupMessage)
    requires Encoded(m).Success? && PdpIes(m.pdpInfoList).Success?
    ensures Ies(AfterTuples(m), UpToTuples(m).(authTuples := m.authTuples))
         == Ies(PdpIes(m.pdpInfoList).value + AfterPdps(m), UpToPdps(m))
  {
    hide Encoded, TupleIes, PdpIes, OptIe, Opt1, Flag, Ies, AfterPdps, ImsiIe;
    EncodedShape(m);
    var r2 := PdpIes(m.pdpInfoList).value + AfterPdps(m);
    var r1 := Flag(IE_PDP_INFO_COMPLETE, m.pdpInfoComplete) + r2;
    var r0 := OptIe(IE_HLR_NUMBER, m.hlrNumber).value + r1;
    var m0 := UpToTuples(m).(authTuples := m.authTuples);
    OptIeTaken(IE_MSISDN, m.msisdn, r0, m0);
    var m1 := m0.(msisdn := m.msisdn);
    OptIeTaken(IE_HLR_NUMBER, m.hlrNumber, r1, m1);
    FlagTaken(IE_PDP_INFO_COMPLETE, m.pdpInfoComplete, r2, m1.(hlrNumber := m.hlrNumber));
  }

  lemma {:induction false} ReadToEnd(m: GsupMessage)
    ensures Ies(AfterPdps(m), UpToPdps(m).(pdpInfoList := m.pdpInfoList)) == Success(m.(freezePtmsiResult := false))
  {
    hide Opt1, Flag, Ies;
    var r1 := Opt1(IE_CN_DOMAIN, m.cnDomain) + [];
    var r0 := Flag(IE_FREEZE_PTMSI, m.freezePtmsi) + r1;
    var m0 := UpToPdps(m).(pdpInfoList := m.pdpInfoList);
    Opt1Taken(IE_CANCEL_TYPE, m.cancelType, r0, m0);
    var m1 := m0.(cancelType := m.cancelType);
    FlagTaken(IE_FREEZE_PTMSI, m.freezePtmsi, r1, m1);
    Opt1Taken(IE_CN_DOMAIN, m.cnDomain, [], m1.(freezePtmsi := m.freezePtmsi));
    NothingLeft(m.(freezePtmsiResult := false));
  }

  lemma {:induction false} NothingLeft(m: GsupMessage)
    ensures Ies([], m) == Success(m)
  {
  }

  /** Whatever can be encoded decodes to itself, up to the field without a wire form, exactly when
      no tuple and no PDP context is larger than its length octet can say. */
  lemma {:induction false} DecodeEncoded(m: GsupMessage)
    requires Encoded(m).Success?
    ensures Decoded(Encoded(m).value) == Success(m.(freezePtmsiResult := false))
            <==> TuplesFit(m.authTuples) && PdpsFit(m.pdpInfoList)
  {
    hide Encoded, Decoded, TupleIes, PdpIes, Ies, AfterTuples, AfterPdps, TuplesFit, PdpsFit;
    EncodedShape(m);
    ReadUpToTuples(m);
    TuplesTaken(m.authTuples, AfterTuples(m), UpToTuples(m));
    assert [] + m.authTuples == m.authTuples && [] + m.pdpInfoList == m.pdpInfoList;
    if TuplesFit(m.authTuples) {
      ReadUpToPdps(m);
      PdpsTaken(m.pdpInfoList, AfterPdps(m), UpToPdps(m));
      if PdpsFit(m.pdpInfoList) { ReadToEnd(m); }
    }
  }

  /** Every element of a tuple fits its one-octet length. */
  predicate TupleEncodable(t: AuthTuple) {
    && |t.rand| <= 255 && |t.sres| <= 255 && |t.kc| <= 255
    && Short(t.ik) && Short(t.ck) && Short(t.autn) && Short(t.res)
  }

  predicate PdpEncodable(p: PdpInfo) { Short(p.apn) && Short(p.pdpAddress) && Short(p.qos) }

  /** The messages the encoder accepts: it checks each element, but not the bodies of nested ones. */
  predicate Encodable(m: GsupMessage) {
    && (m.imsi == "" || EncodableImsi(m.imsi))
    && Short(m.msisdn) && Short(m.hlrNumber)
    && (forall i :: 0 <= i < |m.authTuples| ==> TupleEncodable(m.authTuples[i]))
    && (forall i :: 0 <= i < |m.pdpInfoList| ==> PdpEncodable(m.pdpInfoList[i]))
  }

  lemma {:induction false} TuplesEncode(ts: seq<AuthTuple>)
    ensures TupleIes(ts).Success? <==> forall i :: 0 <= i < |ts| ==> TupleEncodable(ts[i])
  {
    hide TupleEncodable, TupleBody;
    if ts != [] {
      TuplesEncode(ts[..|ts| - 1]);
      TupleEncodes(ts[|ts| - 1]);
    }
  }

  lemma {:induction false} TupleEncodes(t: AuthTuple)
    ensures TupleBody(t).Success? <==> TupleEncodable(t)
  {
  }

  lemma {:induction false} PdpsEncode(ps: seq<PdpInfo>)
    ensures PdpIes(ps).Success? <==> forall i :: 0 <= i < |ps| ==> PdpEncodable(ps[i])
  {
    hide PdpEncodable, PdpBody;
    if ps != [] {
      PdpsEncode(ps[..|ps| - 1]);
      PdpEncodes(ps[|ps| - 1]);
    }
  }

  lemma {:induction false} PdpEncodes(p: PdpInfo)
    ensures PdpBody(p).Success? <==> PdpEncodable(p)
  {
  }

  /** The encoder fails exactly on the other messages. */
  lemma {:induction false} EncodesExactly(m: GsupMessage)
    ensures Encoded(m).Success? <==> Encodable(m)
  {
    hide PackBcd, TupleIes, PdpIes, TupleEncodable, PdpEncodable;
    TuplesEncode(m.authTuples);
    PdpsEncode(m.pdpInfoList);
  }

  lemma {:induction false} FittingEncodes(m: GsupMessage)
    requires FitsWire(m)
    ensures Encoded(m).Success?
  {
    EncodesExactly(m);
    hide Encoded;
  }

  /** A message survives encoding and decoding if and only if it fits the wire. */
  lemma {:induction false} RoundTripExact(m: GsupMessage)
    ensures Encoded(m).Success? && Decoded(Encoded(m).value) == Success(m) <==> FitsWire(m)
  {
    if FitsWire(m) {
      FittingEncodes(m);
    }
    if Encoded(m).Success? {
      EncodedShape(m);
      DecodeEncoded(m);
      DecodedHasNoFreezeResult(Encoded(m).value);
      hide Encoded, Decoded, TupleIes, PdpIes;
      assert m.freezePtmsiResult || m == m.(freezePtmsiResult := false);
    }
  }

  lemma {:induction false} IesKeepFreezeResult(s: Bytes, m: GsupMessage)
    ensures Ies(s, m).Success? ==> Ies(s, m).value.freezePtmsiResult == m.freezePtmsiResult
    decreases |s|
  {
    hide TakeIe, IeStep;
    if s != [] && TakeIe(s).Success? {
      var ie := TakeIe(s).value;
      if ie.tag == IE_CAUSE {
        if |s| >= 3 { IesKeepFreezeResult(if s[1] == 0 then s[3..] else ie.rest, m.(cause := Some(s[2]))); }
      } else if IeStep(ie.tag, ie.value, m).Success? {
        IeStepKeeps(ie.tag, ie.value, m);
        IesKeepFreezeResult(ie.rest, IeStep(ie.tag, ie.value, m).value);
      }
    }
  }

  lemma {:induction false} IeStepKeeps(tag: Byte, v: Bytes, m: GsupMessage)
    ensures IeStep(tag, v, m).Success? ==>
              && IeStep(tag, v, m).value.freezePtmsiResult == m.freezePtmsiResult
              && IeStep(tag, v, m).value.mtype == m.mtype
  {
    hide TupleFields, PdpFields, UnpackImsi;
  }

  lemma {:induction false} DecodedHasNoFreezeResult(payload: Bytes)
    ensures Decoded(payload).Success? ==> !Decoded(payload).value.freezePtmsiResult
  {
    if |payload| >= 1 { IesKeepFreezeResult(payload[1..], BLANK_GSUP.(mtype := payload[0])); }
    hide Ies;
  }

  // ------------------------------------------------------- what decoding bounds

  /** The bounds every decoded message obeys, since an element has at most 255 octets. */
  predicate WireBounded(m: GsupMessage) {
    AllDigits(m.imsi) && |m.imsi| <= 510 && Short(m.msisdn) && Short(m.hlrNumber)
  }

  lemma {:induction false} IeStepBounded(tag: Byte, v: Bytes, m: GsupMessage)
    requires WireBounded(m) && |v| <= 255 && IeStep(tag, v, m).Success?
    ensures WireBounded(IeStep(tag, v, m).value)
  {
    hide TupleFields, PdpFields, UnpackImsi, AllDigits, PlainStep, Short;
    if tag == IE_IMSI {
      UnpackedAreDigits(v);
    } else if tag != IE_AUTH_TUPLE && tag != IE_PDP_INFO {
      PlainStepBounded(tag, v, m);
    }
  }

  lemma {:induction false} PlainStepBounded(tag: Byte, v: Bytes, m: GsupMessage)
    requires WireBounded(m) && |v| <= 255
    ensures WireBounded(PlainStep(tag, v, m))
  {
    hide AllDigits;
  }

  lemma {:induction false} IesBounded(s: Bytes, m: GsupMessage)
    requires WireBounded(m) && Ies(s, m).Success?
    ensures WireBounded(Ies(s, m).value)
    decreases |s|
  {
    hide IeStep, WireBounded;
    if s != [] {
      var ie := TakeIe(s).value;
      if ie.tag == IE_CAUSE {
        CauseKeepsBounds(m, s[2]);
        IesBounded(if s[1] == 0 then s[3..] else ie.rest, m.(cause := Some(s[2])));
      } else {
        IeStepBounded(ie.tag, ie.value, m);
        IesBounded(ie.rest, IeStep(ie.tag, ie.value, m).value);
      }
    }
  }

  lemma {:induction false} CauseKeepsBounds(m: GsupMessage, c: Byte)
    requires WireBounded(m)
    ensures WireBounded(m.(cause := Some(c)))
  {
  }

  /** Whatever octets arrive, a decoded message has a decimal IMSI of at most 510 digits and
      number fields of at most 255 octets. */
  lemma {:induction false} DecodedIsBounded(payload: Bytes)
    requires Decoded(payload).Success?
    ensures WireBounded(Decoded(payload).value)
  {
    IesBounded(payload[1..], BLANK_GSUP.(mtype := payload[0]));
    hide Ies;
  }
}

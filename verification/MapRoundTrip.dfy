/** What a MAP message looks like after it has been encoded and decoded again. */
module MapRoundTrip {
  import opened Basics
  import opened Bcd
  import opened Ber
  import opened MapMessages
  import opened MapCodec

  /** The fields that the wire form of a message's operation and component carries, and no others:
      an Invoke its IMSI and arguments, a ReturnResult its operation and results, a ReturnError
      its error code but not its operation. */
  function Carried(m: MapMessage): MapMessage {
    var env := BLANK_MAP.(transactionId := m.transactionId, component := m.component, invokeId := m.invokeId);
    var e := env.(operation := m.operation);
    match m.component
    case Invoke =>
      if m.operation == SEND_AUTHENTICATION_INFO then
        e.(imsi := m.imsi, numRequestedVectors := Some(m.numRequestedVectors.GetOr(1)))
      else if m.operation == UPDATE_GPRS_LOCATION then
        e.(imsi := m.imsi, sgsnNumber := m.sgsnNumber, sgsnAddress := m.sgsnAddress)
      else if m.operation == CANCEL_LOCATION then e.(imsi := m.imsi, cancelType := m.cancelType)
      else if m.operation == INSERT_SUBSCRIBER_DATA then e.(imsi := m.imsi, msisdn := m.msisdn)
      else if m.operation == DELETE_SUBSCRIBER_DATA then e.(imsi := m.imsi)
      else if m.operation == PURGE_MS then e.(imsi := m.imsi, sgsnNumber := m.sgsnNumber)
      else e
    case ReturnResult =>
      if m.operation == SEND_AUTHENTICATION_INFO then e.(triplets := m.triplets, quintuplets := m.quintuplets)
      else if m.operation == UPDATE_GPRS_LOCATION then e.(hlrNumber := m.hlrNumber)
      else if m.operation == PURGE_MS then e.(freezePtmsi := m.freezePtmsi)
      else e
    case ReturnError => env.(errorCode := Some(m.errorCode.GetOr(SYSTEM_FAILURE)))
    case Reject => env
  }

  predicate CarriesImsi(m: MapMessage) {
    m.component.Invoke? && KnownOperation(m.operation)
  }

  /** The inputs on which nothing is lost: a decimal IMSI where one is carried, and no SGSN address
      without an SGSN number, since the two are told apart by position only. */
  predicate Faithful(m: MapMessage) {
    && (CarriesImsi(m) ==> AllDigits(m.imsi))
    && (m.component.Invoke? && m.operation == UPDATE_GPRS_LOCATION && m.sgsnAddress.Some? ==> m.sgsnNumber.Some?)
  }

  /** What the receiver sees of any message at all. */
  function Received(m: MapMessage): Result<MapMessage> {
    var c := Carried(m);
    if !CarriesImsi(m) then Success(c)
    else
      var d :- UnpackImsi(PackBcd(m.imsi));
      if c.sgsnNumber.None? && c.sgsnAddress.Some? then
        Success(c.(imsi := d, sgsnNumber := c.sgsnAddress, sgsnAddress := None))
      else Success(c.(imsi := d))
  }

  function Envelope(m: MapMessage): MapMessage {
    BLANK_MAP.(transactionId := m.transactionId, component := m.component, invokeId := m.invokeId,
              operation := m.operation)
  }

  lemma {:induction false} TlvTaken(tag: Byte, v: Bytes, rest: Bytes)
    requires |v| <= 0xFFFF
    ensures TlvBytes(tag, v).Success?
    ensures TakeTlv(TlvBytes(tag, v).value + rest) == Success(Tlv(tag, v, rest))
    ensures TakeTlv(TlvBytes(tag, v).value) == Success(Tlv(tag, v, []))
    ensures TlvBytes(tag, v).value != []
  {
    TlvRoundTrip(tag, v, rest);
    TlvRoundTrip(tag, v, []);
    var w := TlvBytes(tag, v).value;
    assert w + [] == w;
  }

  lemma {:induction false} IntTaken(v: Byte, rest: Bytes)
    ensures IntTlv(v).Success?
    ensures TakeTlv(IntTlv(v).value + rest) == Success(Tlv(BER_INT, IntBytes(v), rest))
    ensures TakeTlv(IntTlv(v).value) == Success(Tlv(BER_INT, IntBytes(v), []))
    ensures IntValue(IntBytes(v)) == Success(v) && Low8(v) == v
  {
    hide IntBytes, IntValue, TlvBytes, TakeTlv, MinimalInteger;
    IntRoundTrip(v);
    TlvTaken(BER_INT, IntBytes(v), rest);
  }

  lemma {:induction false} FieldTaken(k: Layout, tag: Byte, v: Bytes, rest: Bytes, c: Cursor)
    requires |v| <= 0xFFFF
    requires FieldStep(k, tag, v, c).Success?
    ensures Fields(k, TlvBytes(tag, v).value + rest, c) == Fields(k, rest, FieldStep(k, tag, v, c).value)
  {
    TlvTaken(tag, v, rest);
  }

  lemma {:induction false} LastFieldTaken(k: Layout, tag: Byte, v: Bytes, c: Cursor)
    requires |v| <= 0xFFFF
    requires FieldStep(k, tag, v, c).Success?
    ensures Fields(k, TlvBytes(tag, v).value, c) == Success(FieldStep(k, tag, v, c).value.m)
  {
    TlvTaken(tag, v, []);
  }

  lemma {:induction false} OptFieldTaken(k: Layout, v: Option<Bytes>, c: Cursor)
    requires OptOctetsTlv(v).Success?
    requires v.Some? ==> FieldStep(k, BER_OCTETS, v.value, c).Success?
    ensures Fields(k, OptOctetsTlv(v).value, c)
         == Success(if v.None? then c.m else FieldStep(k, BER_OCTETS, v.value, c).value.m)
  {
    if v.Some? {
      TlvRoundTrip(BER_OCTETS, v.value, []);
      LastFieldTaken(k, BER_OCTETS, v.value, c);
    }
  }

  /** A layout that starts with an IMSI, from the IMSI on: a bad IMSI fails, a good one is stored. */
  lemma {:induction false} ImsiTaken(k: Layout, m: MapMessage, rest: Bytes, e: MapMessage)
    requires k.SaiReq? || k.UglReq? || k.CancelReq? || k.InsertReq? || k.PurgeReq?
    requires OctetsTlv(PackBcd(m.imsi)).Success? && e.imsi == ""
    ensures var d := UnpackImsi(PackBcd(m.imsi));
            Fields(k, OctetsTlv(PackBcd(m.imsi)).value + rest, Cursor(true, e))
            == if d.Failure? then Failure else Fields(k, rest, Cursor(false, e.(imsi := d.value)))
  {
    TlvRoundTrip(BER_OCTETS, PackBcd(m.imsi), rest);
  }

  lemma {:induction false} SaiInvoke(m: MapMessage)
    requires m.component.Invoke? && m.operation == SEND_AUTHENTICATION_INFO && ArgFields(m).Success?
    ensures Fields(SaiReq, ArgFields(m).value, Cursor(true, Envelope(m))) == Received(m)
  {
    var e := Envelope(m);
    var n: Byte := m.numRequestedVectors.GetOr(1);
    ImsiTaken(SaiReq, m, IntTlv(n).value, e);
    IntTaken(n, []);
    var d := UnpackImsi(PackBcd(m.imsi));
    if d.Success? {
      LastFieldTaken(SaiReq, BER_INT, IntBytes(n), Cursor(false, e.(imsi := d.value)));
    }
  }

  lemma {:induction false} UglInvoke(m: MapMessage)
    requires m.component.Invoke? && m.operation == UPDATE_GPRS_LOCATION && ArgFields(m).Success?
    ensures Fields(UglReq, ArgFields(m).value, Cursor(true, Envelope(m))) == Received(m)
  {
    hide PackBcd, UnpackImsi, IntValue, TakeTlv, TlvBytes;
    var e := Envelope(m);
    var imsi := OctetsTlv(PackBcd(m.imsi)).value;
    var number, address := OptOctetsTlv(m.sgsnNumber).value, OptOctetsTlv(m.sgsnAddress).value;
    assert imsi + number + address == imsi + (number + address);
    ImsiTaken(UglReq, m, number + address, e);
    var d := UnpackImsi(PackBcd(m.imsi));
    if d.Success? {
      var c := Cursor(false, e.(imsi := d.value));
      if m.sgsnNumber.Some? {
        TlvRoundTrip(BER_OCTETS, m.sgsnNumber.value, address);
        FieldTaken(UglReq, BER_OCTETS, m.sgsnNumber.value, address, c);
        OptFieldTaken(UglReq, m.sgsnAddress, c.(m := c.m.(sgsnNumber := m.sgsnNumber)));
      } else {
        assert number + address == address;
        OptFieldTaken(UglReq, m.sgsnAddress, c);
      }
    }
  }

  lemma {:induction false} CancelInvoke(m: MapMessage)
    requires m.component.Invoke? && m.operation == CANCEL_LOCATION && ArgFields(m).Success?
    ensures Fields(CancelReq, ArgFields(m).value, Cursor(true, Envelope(m))) == Received(m)
  {
    hide PackBcd, UnpackImsi, IntValue, TakeTlv;
    var e := Envelope(m);
    var tail: Bytes := if m.cancelType.None? then [] else [BER_INT, 1, m.cancelType.value];
    ImsiTaken(CancelReq, m, tail, e);
    var d := UnpackImsi(PackBcd(m.imsi));
    if d.Success? && m.cancelType.Some? {
      var v := m.cancelType.value;
      assert TlvBytes(BER_INT, [v]).value == tail;
      OctetIntValue(v);
      LastFieldTaken(CancelReq, BER_INT, [v], Cursor(false, e.(imsi := d.value)));
    }
  }

  /** A cancel type is written as a raw octet, read as a signed integer and cut back to an octet. */
  lemma {:induction false} OctetIntValue(v: Byte)
    ensures IntValue([v]).Success? && Low8(IntValue([v]).value) == v
  {
    AccumulateIsUnsigned([v]);
    assert [v][..0] == [] && Unsigned([]) == 0;
    assert Pow256(1) == 0x100 * Pow256(0);
  }

  /** The layouts with one optional octet string after the IMSI. */
  lemma {:induction false} ImsiAndOption(k: Layout, m: MapMessage, v: Option<Bytes>, e: MapMessage)
    requires k.InsertReq? || k.PurgeReq?
    requires OctetsTlv(PackBcd(m.imsi)).Success? && OptOctetsTlv(v).Success?
    requires e.imsi == "" && e.msisdn.None? && e.sgsnNumber.None?
    ensures var d := UnpackImsi(PackBcd(m.imsi));
            Fields(k, OctetsTlv(PackBcd(m.imsi)).value + OptOctetsTlv(v).value, Cursor(true, e))
            == if d.Failure? then Failure
               else if k.InsertReq? then Success(e.(imsi := d.value, msisdn := v))
               else Success(e.(imsi := d.value, sgsnNumber := v))
  {
    ImsiTaken(k, m, OptOctetsTlv(v).value, e);
    var d := UnpackImsi(PackBcd(m.imsi));
    if d.Success? { OptFieldTaken(k, v, Cursor(false, e.(imsi := d.value))); }
  }

  lemma {:induction false} DeleteTaken(bcd: Bytes, e: MapMessage)
    requires e.imsi == "" && OctetsTlv(bcd).Success? && TlvBytes(BER_SEQUENCE, OctetsTlv(bcd).value).Success?
    ensures DecodedDelete(TlvBytes(BER_SEQUENCE, OctetsTlv(bcd).value).value, e)
         == if UnpackImsi(bcd).Failure? then Failure else Success(e.(imsi := UnpackImsi(bcd).value))
  {
    var inner := OctetsTlv(bcd).value;
    TlvRoundTrip(BER_SEQUENCE, inner, []);
    TlvTaken(BER_SEQUENCE, inner, []);
    TlvRoundTrip(BER_OCTETS, bcd, []);
    TlvTaken(BER_OCTETS, bcd, []);
    hide UnpackImsi, TakeTlv, TlvBytes;
  }

  lemma {:induction false} InvokeArgsBack(m: MapMessage)
    requires m.component.Invoke? && ArgBytes(m).Success?
    ensures InvokeArgs(ArgBytes(m).value, Envelope(m)) == Received(m)
  {
    if m.operation == DELETE_SUBSCRIBER_DATA {
      DeleteTaken(PackBcd(m.imsi), Envelope(m));
      hide TlvBytes, PackBcd, UnpackImsi;
    } else {
      hide Fields, TakeTlv, TlvBytes, UnpackImsi, PackBcd;
      if KnownOperation(m.operation) {
        TlvTakenIfWritten(BER_SEQUENCE, ArgFields(m).value);
        InvokeFieldsBack(m);
        hide ArgFields, Received;
      }
    }
  }

  /** The layout in which the arguments of an operation are read. */
  function LayoutOf(op: MapOperation): Layout {
    if op == SEND_AUTHENTICATION_INFO then SaiReq
    else if op == UPDATE_GPRS_LOCATION then UglReq
    else if op == CANCEL_LOCATION then CancelReq
    else if op == INSERT_SUBSCRIBER_DATA then InsertReq
    else PurgeReq
  }

  lemma {:induction false} InvokeFieldsBack(m: MapMessage)
    requires m.component.Invoke? && KnownOperation(m.operation) && m.operation != DELETE_SUBSCRIBER_DATA
    requires ArgFields(m).Success?
    ensures Fields(LayoutOf(m.operation), ArgFields(m).value, Cursor(true, Envelope(m))) == Received(m)
  {
    hide Fields, TlvBytes, UnpackImsi, PackBcd;
    if m.operation == SEND_AUTHENTICATION_INFO {
      SaiInvoke(m);
    } else if m.operation == UPDATE_GPRS_LOCATION {
      UglInvoke(m);
    } else if m.operation == CANCEL_LOCATION {
      CancelInvoke(m);
    } else if m.operation == INSERT_SUBSCRIBER_DATA {
      ImsiAndOption(InsertReq, m, m.msisdn, Envelope(m));
    } else {
      ImsiAndOption(PurgeReq, m, m.sgsnNumber, Envelope(m));
    }
  }

  // ---------------------------------------------------- authentication vectors

  lemma {:induction false} OctetStringTaken(v: Bytes, rest: Bytes, found: seq<Bytes>)
    requires OctetsTlv(v).Success?
    ensures OctetStrings(OctetsTlv(v).value + rest, found) == OctetStrings(rest, found + [v])
  {
    TlvRoundTrip(BER_OCTETS, v, rest);
  }

  lemma {:induction false} TripletTaken(t: Triplet, rest: Bytes, m: MapMessage)
    requires TripletTlv(t).Success?
    ensures Vectors(TripletTlv(t).value + rest, m) == Vectors(rest, m.(triplets := m.triplets + [t]))
  {
    hide TlvBytes, TakeTlv, OctetsTlv;
    var a, b, c := OctetsTlv(t.rand).value, OctetsTlv(t.sres).value, OctetsTlv(t.kc).value;
    var inner := a + b + c;
    TlvRoundTrip(BER_SEQUENCE, inner, rest);
    assert inner == a + (b + (c + []));
    OctetStringTaken(t.rand, b + (c + []), []);
    OctetStringTaken(t.sres, c + [], [] + [t.rand]);
    OctetStringTaken(t.kc, [], [] + [t.rand] + [t.sres]);
    var f := [] + [t.rand] + [t.sres] + [t.kc];
    assert OctetStrings(inner, []) == Success(f);
    assert AddVector(m, f) == m.(triplets := m.triplets + [t]);
  }

  lemma {:induction false} QuintupletTaken(q: Quintuplet, rest: Bytes, m: MapMessage)
    requires QuintupletTlv(q).Success?
    ensures Vectors(QuintupletTlv(q).value + rest, m) == Vectors(rest, m.(quintuplets := m.quintuplets + [q]))
  {
    hide TlvBytes, TakeTlv, OctetsTlv;
    var a, b, c := OctetsTlv(q.rand).value, OctetsTlv(q.xres).value, OctetsTlv(q.ck).value;
    var d, e := OctetsTlv(q.ik).value, OctetsTlv(q.autn).value;
    var inner := a + b + c + d + e;
    TlvRoundTrip(BER_SEQUENCE, inner, rest);
    assert inner == a + (b + (c + (d + (e + []))));
    OctetStringTaken(q.rand, b + (c + (d + (e + []))), []);
    OctetStringTaken(q.xres, c + (d + (e + [])), [] + [q.rand]);
    OctetStringTaken(q.ck, d + (e + []), [] + [q.rand] + [q.xres]);
    OctetStringTaken(q.ik, e + [], [] + [q.rand] + [q.xres] + [q.ck]);
    OctetStringTaken(q.autn, [], [] + [q.rand] + [q.xres] + [q.ck] + [q.ik]);
    var f := [] + [q.rand] + [q.xres] + [q.ck] + [q.ik] + [q.autn];
    assert OctetStrings(inner, []) == Success(f);
    assert AddVector(m, f) == m.(quintuplets := m.quintuplets + [q]);
  }

  lemma {:induction false} TripletsTaken(ts: seq<Triplet>, rest: Bytes, m: MapMessage)
    requires TripletTlvs(ts).Success?
    ensures Vectors(TripletTlvs(ts).value + rest, m) == Vectors(rest, m.(triplets := m.triplets + ts))
  {
    hide Vectors, TripletTlv;
    if ts == [] {
      assert TripletTlvs(ts).value + rest == rest && m.triplets + ts == m.triplets;
    } else {
      var init, last := ts[..|ts| - 1], ts[|ts| - 1];
      var a, b := TripletTlvs(init).value, TripletTlv(last).value;
      assert (a + b) + rest == a + (b + rest);
      TripletsTaken(init, b + rest, m);
      TripletTaken(last, rest, m.(triplets := m.triplets + init));
      assert m.triplets + init + [last] == m.triplets + ts;
    }
  }

  lemma {:induction false} QuintupletsTaken(qs: seq<Quintuplet>, rest: Bytes, m: MapMessage)
    requires QuintupletTlvs(qs).Success?
    ensures Vectors(QuintupletTlvs(qs).value + rest, m) == Vectors(rest, m.(quintuplets := m.quintuplets + qs))
  {
    hide Vectors, QuintupletTlv;
    if qs == [] {
      assert QuintupletTlvs(qs).value + rest == rest && m.quintuplets + qs == m.quintuplets;
    } else {
      var init, last := qs[..|qs| - 1], qs[|qs| - 1];
      var a, b := QuintupletTlvs(init).value, QuintupletTlv(last).value;
      assert (a + b) + rest == a + (b + rest);
      QuintupletsTaken(init, b + rest, m);
      QuintupletTaken(last, rest, m.(quintuplets := m.quintuplets + init));
      assert m.quintuplets + init + [last] == m.quintuplets + qs;
    }
  }

  lemma {:induction false} VectorsBack(m: MapMessage)
    requires m.component.ReturnResult? && m.operation == SEND_AUTHENTICATION_INFO && ArgFields(m).Success?
    ensures Vectors(ArgFields(m).value, Envelope(m)) == Success(Carried(m))
  {
    hide TripletTlvs, QuintupletTlvs, TlvBytes, TakeTlv;
    var e := Envelope(m);
    var ts, qs := TripletTlvs(m.triplets).value, QuintupletTlvs(m.quintuplets).value;
    assert qs + [] == qs;
    TripletsTaken(m.triplets, qs, e);
    QuintupletsTaken(m.quintuplets, [], e.(triplets := [] + m.triplets));
    assert [] + m.triplets == m.triplets && [] + m.quintuplets == m.quintuplets;
  }

  lemma {:induction false} UglResultBack(m: MapMessage)
    requires m.component.ReturnResult? && m.operation == UPDATE_GPRS_LOCATION && ArgFields(m).Success?
    ensures Fields(UglRes, ArgFields(m).value, Cursor(true, Envelope(m))) == Success(Carried(m))
  {
    hide PackBcd, UnpackImsi, IntValue, TakeTlv, TlvBytes;
    OptFieldTaken(UglRes, m.hlrNumber, Cursor(true, Envelope(m)));
  }

  lemma {:induction false} PurgeResultBack(m: MapMessage)
    requires m.component.ReturnResult? && m.operation == PURGE_MS && ArgFields(m).Success?
    ensures Fields(PurgeRes, ArgFields(m).value, Cursor(true, Envelope(m))) == Success(Carried(m))
  {
    hide PackBcd, UnpackImsi, IntValue, TakeTlv;
    if m.freezePtmsi {
      assert TlvBytes(BER_NULL, []).value == [BER_NULL, 0];
      hide TlvBytes;
      LastFieldTaken(PurgeRes, BER_NULL, [], Cursor(true, Envelope(m)));
    }
  }

  /** The arguments of a result: an outer SEQUENCE around the fields of its operation. */
  lemma {:induction false} ResultArgsBack(m: MapMessage)
    requires m.component.ReturnResult? && ArgBytes(m).Success?
    ensures ResultArgs(ArgBytes(m).value, Envelope(m)) == Success(Carried(m))
  {
    hide ArgFields, Fields, Vectors, TakeTlv, TlvBytes;
    if KnownOperation(m.operation) {
      TlvTakenIfWritten(BER_SEQUENCE, ArgFields(m).value);
      if m.operation == SEND_AUTHENTICATION_INFO {
        VectorsBack(m);
      } else if m.operation == UPDATE_GPRS_LOCATION {
        UglResultBack(m);
      } else if m.operation == PURGE_MS {
        PurgeResultBack(m);
      }
    }
  }

  lemma {:induction false} TlvTakenIfWritten(tag: Byte, v: Bytes)
    requires TlvBytes(tag, v).Success?
    ensures TakeTlv(TlvBytes(tag, v).value) == Success(Tlv(tag, v, [])) && TlvBytes(tag, v).value != []
  {
    hide TlvBytes, TakeTlv;
    TlvRoundTrip(tag, v, []);
    TlvTaken(tag, v, []);
  }

  // ------------------------------------------------------------ whole messages

  lemma {:induction false} TidSnoc(b: Bytes, x: Byte, v: U32)
    requires TidValue(b) == v / 0x100 && x == v % 0x100
    ensures TidValue(b + [x]) == v
  {
    assert (b + [x])[..|b|] == b;
  }

  lemma {:induction false} TidBack(v: U32)
    ensures TidValue(BE32(v)) == v
  {
    var b := BE32(v);
    assert TidValue([]) == 0;
    hide TidValue;
    var b1: Bytes := [] + [b[0]];
    var b2 := b1 + [b[1]];
    var b3 := b2 + [b[2]];
    assert b == b3 + [b[3]];
    TidSnoc([], b[0], v / 0x100_0000);
    TidSnoc(b1, b[1], v / 0x1_0000);
    TidSnoc(b2, b[2], v / 0x100);
    TidSnoc(b3, b[3], v);
  }

  lemma {:induction false} ComponentBack(m: MapMessage, args: Bytes)
    requires ArgBytes(m) == Success(args) && ComponentBytes(m, args).Success?
    ensures DecodedComponent(ComponentTag(m.component), ComponentBody(m, args),
                             BLANK_MAP.(transactionId := m.transactionId)) == Received(m)
  {
    hide TakeTlv, TlvBytes, IntValue, IntBytes, ArgBytes, InvokeArgs, ResultArgs;
    var id := IntTlv(m.invokeId).value;
    match m.component {
      case Invoke =>
        var op := IntTlv(m.operation).value;
        assert id + op + args == id + (op + args);
        IntTaken(m.invokeId, op + args);
        IntTaken(m.operation, args);
        InvokeArgsBack(m);
      case ReturnResult =>
        var op := IntTlv(m.operation).value;
        IntTaken(m.invokeId, TlvBytes(BER_SEQUENCE, op + args).value);
        TlvRoundTrip(BER_SEQUENCE, op + args, []);
        TlvTaken(BER_SEQUENCE, op + args, []);
        IntTaken(m.operation, args);
        ResultArgsBack(m);
      case ReturnError =>
        IntTaken(m.invokeId, IntTlv(m.errorCode.GetOr(SYSTEM_FAILURE)).value);
        IntTaken(m.errorCode.GetOr(SYSTEM_FAILURE), []);
    }
  }

  /** The contents of the component TLV. */
  function ComponentBody(m: MapMessage, args: Bytes): Bytes
    requires ComponentBytes(m, args).Success?
  {
    var id := IntTlv(m.invokeId).value;
    match m.component
    case Invoke => id + IntTlv(m.operation).value + args
    case ReturnResult => id + TlvBytes(BER_SEQUENCE, IntTlv(m.operation).value + args).value
    case ReturnError => id + IntTlv(m.errorCode.GetOr(SYSTEM_FAILURE)).value
  }

  function ComponentTag(c: ComponentType): Byte {
    if c.Invoke? then COMP_INVOKE else if c.ReturnResult? then COMP_RETURN_RESULT else COMP_RETURN_ERROR
  }

  /** A PDU of a transaction id and a component portion, as the decoder sees it. */
  lemma {:induction false} TcapTaken(pdu: Byte, tag: Byte, tid: U32, component: Bytes)
    requires tag == TCAP_OTID || tag == TCAP_DTID
    requires TlvBytes(TCAP_COMPONENTS, component).Success?
    requires TlvBytes(tag, BE32(tid)).Success?
    requires TlvBytes(pdu, TlvBytes(tag, BE32(tid)).value + TlvBytes(TCAP_COMPONENTS, component).value).Success?
    ensures Decoded(TlvBytes(pdu, TlvBytes(tag, BE32(tid)).value + TlvBytes(TCAP_COMPONENTS, component).value).value)
         == Components(component, BLANK_MAP.(transactionId := tid))
  {
    var head, portion := TlvBytes(tag, BE32(tid)).value, TlvBytes(TCAP_COMPONENTS, component).value;
    TlvRoundTrip(pdu, head + portion, []);
    TlvTaken(pdu, head + portion, []);
    TlvTaken(tag, BE32(tid), portion);
    TlvRoundTrip(TCAP_COMPONENTS, component, []);
    TlvTaken(TCAP_COMPONENTS, component, []);
    TidBack(tid);
    hide TlvBytes, TakeTlv, BE32, TidValue, Components;
    assert head + portion != [];
    var m1 := BLANK_MAP.(transactionId := tid);
    assert TcapFields(head + portion, BLANK_MAP) == TcapFields(portion, m1);
    assert TcapFields(portion, m1) == Components(component, m1);
  }

  lemma {:induction false} SingleComponent(tag: Byte, body: Bytes, m: MapMessage)
    requires TlvBytes(tag, body).Success?
    ensures Components(TlvBytes(tag, body).value, m) == DecodedComponent(tag, body, m)
  {
    TlvRoundTrip(tag, body, []);
    TlvTaken(tag, body, []);
    hide TlvBytes, TakeTlv, DecodedComponent;
  }

  lemma {:induction false} ComponentShape(m: MapMessage, args: Bytes)
    requires ComponentBytes(m, args).Success?
    ensures ComponentBytes(m, args) == TlvBytes(ComponentTag(m.component), ComponentBody(m, args))
  {
  }

  /** Encoding then decoding any message that can be encoded gives what the receiver should see. */
  lemma {:induction false} DecodeEncoded(m: MapMessage)
    requires Encoded(m).Success?
    ensures Decoded(Encoded(m).value) == Received(m)
  {
    hide TlvBytes, ArgBytes, Received, BE32, Decoded, Components, DecodedComponent, ComponentBytes, ComponentBody;
    var args := ArgBytes(m).value;
    var component := ComponentBytes(m, args).value;
    TcapTaken(if m.component.Invoke? then TCAP_BEGIN else TCAP_END,
              if m.component.Invoke? then TCAP_OTID else TCAP_DTID, m.transactionId, component);
    ComponentShape(m, args);
    SingleComponent(ComponentTag(m.component), ComponentBody(m, args), BLANK_MAP.(transactionId := m.transactionId));
    ComponentBack(m, args);
  }

  /** The round trip loses nothing exactly on the faithful messages. */
  lemma {:induction false} RoundTripExact(m: MapMessage)
    requires Encoded(m).Success?
    ensures Decoded(Encoded(m).value) == Success(Carried(m)) <==> Faithful(m)
  {
    DecodeEncoded(m);
    hide Encoded, Decoded, UnpackImsi, PackBcd;
    if CarriesImsi(m) {
      UnpackedAreDigits(PackBcd(m.imsi));
      assert Carried(m).imsi == m.imsi;
      if AllDigits(m.imsi) { ImsiRoundTrip(m.imsi); }
    }
  }

  /** An SGSN address sent without an SGSN number comes back as the number. */
  lemma {:induction false} AddressWithoutNumberIsMisread(m: MapMessage)
    requires Encoded(m).Success? && m.component.Invoke? && m.operation == UPDATE_GPRS_LOCATION
    requires AllDigits(m.imsi) && m.sgsnNumber.None? && m.sgsnAddress.Some?
    ensures Decoded(Encoded(m).value) == Success(Carried(m).(sgsnNumber := m.sgsnAddress, sgsnAddress := None))
  {
    DecodeEncoded(m);
    ImsiRoundTrip(m.imsi);
    hide Encoded, Decoded, UnpackImsi, PackBcd;
  }
}

/** How large a forwarded request gets: it always encodes, and normally fits one SCCP unit. */
module MapSizes {
  import opened Basics
  import opened Bcd
  import opened Ber
  import opened GsupMessages
  import opened MapMessages
  import opened MapCodec
  import opened Converter
  import Gsup = GsupCodec
  import GsupRoundTrip
  import MapRoundTrip

  /** The size of a TLV whose value has `n` octets. */
  function TlvSize(n: nat): nat {
    n + if n <= 0x7F then 2 else if n <= 0xFF then 3 else 4
  }

  lemma {:induction false} TlvSized(tag: Byte, v: Bytes)
    requires |v| <= 0xFFFF
    ensures TlvBytes(tag, v).Success? && |TlvBytes(tag, v).value| == TlvSize(|v|)
  {
  }

  lemma {:induction false} SmallIntSized(v: Byte)
    ensures IntTlv(v).Success? && |IntTlv(v).value| == SmallIntSize(v)
  {
    if v >= 0x80 {
      assert IntBytes(v) == IntBytes(v / 0x100) + [v % 0x100];
      assert |IntBytes(0)| == 1;
    }
    TlvSized(BER_INT, IntBytes(v));
  }

  /** The size of an Invoke by the sizes of its invoke id and of its argument fields. */
  function InvokeSize(id: nat, inner: nat): nat {
    TlvSize(6 + TlvSize(TlvSize(id + 3 + TlvSize(inner))))
  }

  function SmallIntSize(v: Byte): nat { if v < 0x80 then 3 else 4 }

  lemma {:induction false} InvokeSized(m: MapMessage)
    requires m.component.Invoke? && KnownOperation(m.operation)
    requires ArgFields(m).Success? && |ArgFields(m).value| <= 0x1000
    ensures Encoded(m).Success? && |Encoded(m).value| == InvokeSize(SmallIntSize(m.invokeId), |ArgFields(m).value|)
  {
    hide ArgFields, TlvBytes, IntTlv, TlvSize, SmallIntSize;
    var inner := ArgFields(m).value;
    TlvSizeBound(|inner|);
    TlvSized(BER_SEQUENCE, inner);
    var args := TlvBytes(BER_SEQUENCE, inner).value;
    InvokeComponentSized(m, args);
    var component := ComponentBytes(m, args).value;
    hide ComponentBytes;
    TlvSizeBound(|component|);
    TlvSized(TCAP_COMPONENTS, component);
    TlvSized(TCAP_OTID, BE32(m.transactionId));
    assert TlvSize(4) == 6 by { FourOctets(); }
    TlvSized(TCAP_BEGIN, TlvBytes(TCAP_OTID, BE32(m.transactionId)).value + TlvBytes(TCAP_COMPONENTS, component).value);
  }

  lemma {:induction false} InvokeComponentSized(m: MapMessage, args: Bytes)
    requires m.component.Invoke? && KnownOperation(m.operation) && |args| <= 0x1010
    ensures ComponentBytes(m, args).Success? && |ComponentBytes(m, args).value| <= 0x1030
    ensures |ComponentBytes(m, args).value| == TlvSize(SmallIntSize(m.invokeId) + 3 + |args|)
  {
    hide TlvBytes, IntTlv;
    SmallIntSized(m.invokeId);
    SmallIntSized(m.operation);
    TlvSized(COMP_INVOKE, IntTlv(m.invokeId).value + IntTlv(m.operation).value + args);
  }

  lemma {:induction false} TlvSizeBound(n: nat)
    ensures n <= TlvSize(n) <= n + 4
  {
  }

  lemma {:induction false} FourOctets()
    ensures TlvSize(4) == 6
  {
  }

  /** The octets of the argument fields of a forwarded request. */
  function RequestFieldsSize(g: GsupMessage): nat {
    TlvSize((|g.imsi| + 1) / 2)
    + if g.mtype == SEND_AUTH_INFO_REQUEST then SmallIntSize(g.numVectorsRequested.GetOr(1))
      else if g.mtype == LOCATION_CANCEL_REQUEST then (if g.cancelType.None? then 0 else 3)
      else if g.mtype == INSERT_DATA_REQUEST then (if g.msisdn.None? then 0 else TlvSize(|g.msisdn.value|))
      else 0
  }

  lemma {:induction false} RequestFieldsSized(g: GsupMessage, m: MapMessage)
    requires GsupToMap(g, m.transactionId, m.invokeId) == Success(m)
    requires |g.imsi| <= 510 && GsupRoundTrip.Short(g.msisdn)
    ensures m.component.Invoke? && KnownOperation(m.operation)
    ensures ArgFields(m).Success? && |ArgFields(m).value| == RequestFieldsSize(g)
  {
    TlvSized(BER_OCTETS, PackBcd(m.imsi));
    SmallIntSized(m.numRequestedVectors.GetOr(1));
    if m.msisdn.Some? { TlvSized(BER_OCTETS, m.msisdn.value); }
    hide TlvBytes, IntTlv, PackBcd;
  }

  /** Every request the proxy can decode and convert can also be encoded: the length limit of 65535
      is out of reach, so the encoder's failure branch is never taken. */
  lemma {:induction false} DecodableRequestsEncode(payload: Bytes, tid: U32, invokeId: Byte)
    requires Gsup.Decoded(payload).Success?
    requires GsupToMap(Gsup.Decoded(payload).value, tid, invokeId).Success?
    ensures Encoded(GsupToMap(Gsup.Decoded(payload).value, tid, invokeId).value).Success?
  {
    var g := Gsup.Decoded(payload).value;
    GsupRoundTrip.DecodedIsBounded(payload);
    var m := GsupToMap(g, tid, invokeId).value;
    hide Gsup.Decoded, Encoded, ArgFields, AllDigits;
    RequestFieldsSized(g, m);
    InvokeSized(m);
  }

  /** With an IMSI of at most 15 digits and an MSISDN of at most 218 octets, a forwarded request has
      at most 255 octets, which is what the one-octet data length of an SCCP UDT can say. */
  lemma {:induction false} RequestFitsUdt(g: GsupMessage, tid: U32, invokeId: Byte)
    requires GsupToMap(g, tid, invokeId).Success? && invokeId < 0x80
    requires |g.imsi| <= 15 && (g.msisdn.Some? ==> |g.msisdn.value| <= 218)
    ensures Encoded(GsupToMap(g, tid, invokeId).value).Success?
    ensures |Encoded(GsupToMap(g, tid, invokeId).value).value| <= 255
  {
    var m := GsupToMap(g, tid, invokeId).value;
    RequestFieldsSized(g, m);
    InvokeSized(m);
    hide Encoded, ArgFields;
    assert RequestFieldsSize(g) <= 231;
    InvokeSizeMono(3, RequestFieldsSize(g), 231);
    assert InvokeSize(3, 231) == 255;
  }

  lemma {:induction false} InvokeSizeMono(id: nat, a: nat, b: nat)
    requires a <= b
    ensures InvokeSize(id, a) <= InvokeSize(id, b)
  {
    hide TlvSize;
    TlvSizeMono(a, b);
    TlvSizeMono(id + 3 + TlvSize(a), id + 3 + TlvSize(b));
    TlvSizeMono(TlvSize(id + 3 + TlvSize(a)), TlvSize(id + 3 + TlvSize(b)));
    TlvSizeMono(6 + TlvSize(TlvSize(id + 3 + TlvSize(a))), 6 + TlvSize(TlvSize(id + 3 + TlvSize(b))));
  }

  lemma {:induction false} TlvSizeMono(a: nat, b: nat)
    requires a <= b
    ensures TlvSize(a) <= TlvSize(b)
  {
  }

  /** The bound is tight: with a full IMSI, one octet more of MSISDN no longer fits. */
  lemma {:induction false} RequestFitsUdtTight(g: GsupMessage, tid: U32, invokeId: Byte)
    requires g.mtype == INSERT_DATA_REQUEST && |g.imsi| == 15 && invokeId < 0x80
    requires g.msisdn.Some? && |g.msisdn.value| <= 255
    ensures var r := Encoded(GsupToMap(g, tid, invokeId).value);
            r.Success? && (|r.value| <= 255 <==> |g.msisdn.value| <= 218)
  {
    var m := GsupToMap(g, tid, invokeId).value;
    RequestFieldsSized(g, m);
    InvokeSized(m);
    hide Encoded, ArgFields;
    if |g.msisdn.value| <= 218 {
      InvokeSizeMono(3, RequestFieldsSize(g), 231);
    } else {
      InvokeSizeMono(3, 232, RequestFieldsSize(g));
    }
    assert InvokeSize(3, 231) == 255 && InvokeSize(3, 232) == 256;
  }

  /** The answer of an SGSN, whatever its invoke id, always encodes. */
  lemma {:induction false} ResponseEncodes(m: MapMessage)
    requires m.component.ReturnResult? || m.component.ReturnError?
    requires m.operation == INSERT_SUBSCRIBER_DATA || m.operation == CANCEL_LOCATION
             || m.operation == DELETE_SUBSCRIBER_DATA || m.operation == PURGE_MS
    requires |m.imsi| <= 510 && m.msisdn.None? && m.cancelType.None?
    ensures Encoded(m).Success?
  {
    ResponseArgsSized(m);
    hide ArgBytes;
    var args := ArgBytes(m).value;
    ComponentSized(m, args);
    hide ComponentBytes;
    var component := ComponentBytes(m, args).value;
    TlvSized(TCAP_COMPONENTS, component);
    TlvSized(TCAP_DTID, BE32(m.transactionId));
    TlvSized(TCAP_END, TlvBytes(TCAP_DTID, BE32(m.transactionId)).value + TlvBytes(TCAP_COMPONENTS, component).value);
    hide TlvBytes;
  }

  lemma {:induction false} ResponseArgsSized(m: MapMessage)
    requires m.component.ReturnResult? || m.component.ReturnError?
    requires m.operation == INSERT_SUBSCRIBER_DATA || m.operation == CANCEL_LOCATION
             || m.operation == DELETE_SUBSCRIBER_DATA || m.operation == PURGE_MS
    requires |m.imsi| <= 510 && m.msisdn.None? && m.cancelType.None?
    ensures ArgBytes(m).Success? && |ArgBytes(m).value| <= 0x200
  {
    TlvSized(BER_OCTETS, PackBcd(m.imsi));
    hide TlvBytes, PackBcd;
    TlvSized(BER_SEQUENCE, ArgFields(m).value);
  }

  lemma {:induction false} ComponentSized(m: MapMessage, args: Bytes)
    requires (m.component.ReturnResult? || m.component.ReturnError?) && |args| <= 0x200
    ensures ComponentBytes(m, args).Success? && |ComponentBytes(m, args).value| <= 0x300
  {
    SmallIntSized(m.invokeId);
    SmallIntSized(m.operation);
    SmallIntSized(m.errorCode.GetOr(SYSTEM_FAILURE));
    hide IntTlv;
    var id := IntTlv(m.invokeId).value;
    var result := IntTlv(m.operation).value + args;
    TlvSized(BER_SEQUENCE, result);
    TlvSized(COMP_RETURN_RESULT, id + TlvBytes(BER_SEQUENCE, result).value);
    TlvSized(COMP_RETURN_ERROR, id + IntTlv(m.errorCode.GetOr(SYSTEM_FAILURE)).value);
    hide TlvBytes;
  }

  /** A concrete message whose SGSN address is read back as the SGSN number. */
  lemma {:induction false} MisreadAddressExists()
    ensures var m := BLANK_MAP.(operation := UPDATE_GPRS_LOCATION, imsi := "262", sgsnAddress := Some([1]));
            Encoded(m).Success? && Decoded(Encoded(m).value)
            == Success(MapRoundTrip.Carried(m).(sgsnNumber := Some([1]), sgsnAddress := None))
  {
    var m := BLANK_MAP.(operation := UPDATE_GPRS_LOCATION, imsi := "262", sgsnAddress := Some([1]));
    TlvSized(BER_OCTETS, PackBcd(m.imsi));
    TlvSized(BER_OCTETS, [1]);
    hide TlvBytes, PackBcd;
    assert ArgFields(m).Success? && |ArgFields(m).value| <= 0x1000;
    InvokeSized(m);
    hide Encoded, ArgFields;
    MapRoundTrip.AddressWithoutNumberIsMisread(m);
  }
}

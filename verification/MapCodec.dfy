/** TCAP/MAP encoder and decoder. The functions say what the loops of the methods compute. */
module MapCodec {
  import opened Basics
  import opened Buffer
  import opened Bcd
  import opened Ber
  import opened MapMessages

  // --------------------------------------------------------------- encoding

  function IntTlv(v: Int64): Result<Bytes> { TlvBytes(BER_INT, IntBytes(v)) }

  function OctetsTlv(v: Bytes): Result<Bytes> { TlvBytes(BER_OCTETS, v) }

  function OptOctetsTlv(v: Option<Bytes>): Result<Bytes> {
    if v.None? then Success([]) else OctetsTlv(v.value)
  }

  function TripletTlv(t: Triplet): Result<Bytes> {
    var a :- OctetsTlv(t.rand);
    var b :- OctetsTlv(t.sres);
    var c :- OctetsTlv(t.kc);
    TlvBytes(BER_SEQUENCE, a + b + c)
  }

  function QuintupletTlv(q: Quintuplet): Result<Bytes> {
    var a :- OctetsTlv(q.rand);
    var b :- OctetsTlv(q.xres);
    var c :- OctetsTlv(q.ck);
    var d :- OctetsTlv(q.ik);
    var e :- OctetsTlv(q.autn);
    TlvBytes(BER_SEQUENCE, a + b + c + d + e)
  }

  function Appended(init: Result<Bytes>, last: Result<Bytes>): Result<Bytes> {
    if init.Success? && last.Success? then Success(init.value + last.value) else Failure
  }

  function TripletTlvs(ts: seq<Triplet>): Result<Bytes> {
    if ts == [] then Success([]) else Appended(TripletTlvs(ts[..|ts| - 1]), TripletTlv(ts[|ts| - 1]))
  }

  function QuintupletTlvs(qs: seq<Quintuplet>): Result<Bytes> {
    if qs == [] then Success([]) else Appended(QuintupletTlvs(qs[..|qs| - 1]), QuintupletTlv(qs[|qs| - 1]))
  }

  predicate KnownOperation(op: MapOperation) {
    || op == SEND_AUTHENTICATION_INFO || op == UPDATE_GPRS_LOCATION || op == CANCEL_LOCATION
    || op == INSERT_SUBSCRIBER_DATA || op == DELETE_SUBSCRIBER_DATA || op == PURGE_MS
  }

  /** What the argument SEQUENCE of a known operation contains. */
  function ArgFields(m: MapMessage): Result<Bytes> {
    if m.operation == SEND_AUTHENTICATION_INFO && !m.component.Invoke? then
      var ts :- TripletTlvs(m.triplets);
      var qs :- QuintupletTlvs(m.quintuplets);
      Success(ts + qs)
    else if m.operation == UPDATE_GPRS_LOCATION && !m.component.Invoke? then
      OptOctetsTlv(m.hlrNumber)
    else if m.operation == PURGE_MS && !m.component.Invoke? then
      Success(if m.freezePtmsi then [BER_NULL, 0] else [])
    else
      var imsi :- OctetsTlv(PackBcd(m.imsi));
      if m.operation == SEND_AUTHENTICATION_INFO then
        var n :- IntTlv(m.numRequestedVectors.GetOr(1));
        Success(imsi + n)
      else if m.operation == UPDATE_GPRS_LOCATION then
        var number :- OptOctetsTlv(m.sgsnNumber);
        var address :- OptOctetsTlv(m.sgsnAddress);
        Success(imsi + number + address)
      else if m.operation == CANCEL_LOCATION then
        Success(imsi + if m.cancelType.None? then [] else [BER_INT, 1, m.cancelType.value])
      else if m.operation == INSERT_SUBSCRIBER_DATA then
        var msisdn :- OptOctetsTlv(m.msisdn);
        Success(imsi + msisdn)
      else if m.operation == PURGE_MS then
        var number :- OptOctetsTlv(m.sgsnNumber);
        Success(imsi + number)
      else Success(imsi)
  }

  function ArgBytes(m: MapMessage): Result<Bytes> {
    if !KnownOperation(m.operation) then Success([])
    else
      var inner :- ArgFields(m);
      TlvBytes(BER_SEQUENCE, inner)
  }

  function ComponentBytes(m: MapMessage, args: Bytes): Result<Bytes> {
    var id :- IntTlv(m.invokeId);
    match m.component
    case Invoke =>
      var op :- IntTlv(m.operation);
      TlvBytes(COMP_INVOKE, id + op + args)
    case ReturnResult =>
      var op :- IntTlv(m.operation);
      var result :- TlvBytes(BER_SEQUENCE, op + args);
      TlvBytes(COMP_RETURN_RESULT, id + result)
    case ReturnError =>
      var code :- IntTlv(m.errorCode.GetOr(SYSTEM_FAILURE));
      TlvBytes(COMP_RETURN_ERROR, id + code)
    case Reject => Failure
  }

  function Encoded(m: MapMessage): Result<Bytes> {
    var args :- ArgBytes(m);
    var component :- ComponentBytes(m, args);
    var portion :- TlvBytes(TCAP_COMPONENTS, component);
    var tid :- TlvBytes(if m.component.Invoke? then TCAP_OTID else TCAP_DTID, BE32(m.transactionId));
    TlvBytes(if m.component.Invoke? then TCAP_BEGIN else TCAP_END, tid + portion)
  }

  method WriteTlvInt(w: BufferWriter, v: Int64) returns (st: Status)
    modifies w
    ensures st.Done? <==> IntTlv(v).Success?
    ensures st.Done? ==> w.buf == old(w.buf) + IntTlv(v).value
    ensures st.Done? && old(w.buf) == [] ==> w.buf == IntTlv(v).value
  {
    var b := EncodeInt(v);
    st := WriteTlv(w, BER_INT, b);
  }

  method WriteOptional(w: BufferWriter, v: Option<Bytes>) returns (st: Status)
    modifies w
    ensures st.Done? <==> OptOctetsTlv(v).Success?
    ensures st.Done? ==> w.buf == old(w.buf) + OptOctetsTlv(v).value
    ensures st.Done? && old(w.buf) == [] ==> w.buf == OptOctetsTlv(v).value
  {
    if v.Some? { st := WriteTlv(w, BER_OCTETS, v.value); } else { st := Done; }
  }

  method EncodeTriplet(t: Triplet) returns (r: Result<Bytes>)
    ensures r == TripletTlv(t)
  {
    var trip := new BufferWriter();
    :- WriteTlv(trip, BER_OCTETS, t.rand);
    :- WriteTlv(trip, BER_OCTETS, t.sres);
    :- WriteTlv(trip, BER_OCTETS, t.kc);
    var out := new BufferWriter();
    :- WriteTlv(out, BER_SEQUENCE, trip.buf);
    return Success(out.buf);
  }

  method EncodeQuintuplet(q: Quintuplet) returns (r: Result<Bytes>)
    ensures r == QuintupletTlv(q)
  {
    var quint := new BufferWriter();
    :- WriteTlv(quint, BER_OCTETS, q.rand);
    :- WriteTlv(quint, BER_OCTETS, q.xres);
    :- WriteTlv(quint, BER_OCTETS, q.ck);
    :- WriteTlv(quint, BER_OCTETS, q.ik);
    :- WriteTlv(quint, BER_OCTETS, q.autn);
    var out := new BufferWriter();
    :- WriteTlv(out, BER_SEQUENCE, quint.buf);
    return Success(out.buf);
  }

  method EncodeTriplets(ts: seq<Triplet>) returns (r: Result<Bytes>)
    ensures r == TripletTlvs(ts)
  {
    var out := new BufferWriter();
    for i := 0 to |ts|
      invariant fresh(out) && TripletTlvs(ts[..i]) == Success(out.buf)
    {
      TripletsUpTo(ts, i);
      var t := EncodeTriplet(ts[i]);
      if t.Failure? { TripletsFail(ts, i + 1); return Failure; }
      out.WriteBytes(t.value);
    }
    assert ts[..|ts|] == ts;
    return Success(out.buf);
  }

  lemma {:induction false} TripletsUpTo(ts: seq<Triplet>, i: nat)
    requires i < |ts|
    ensures TripletTlvs(ts[..i + 1]) == Appended(TripletTlvs(ts[..i]), TripletTlv(ts[i]))
  {
    assert ts[..i + 1][..i] == ts[..i];
  }

  lemma {:induction false} TripletsFail(ts: seq<Triplet>, i: nat)
    requires i <= |ts| && TripletTlvs(ts[..i]).Failure?
    ensures TripletTlvs(ts).Failure?
    decreases |ts| - i
  {
    if i < |ts| {
      TripletsUpTo(ts, i);
      TripletsFail(ts, i + 1);
    } else {
      assert ts[..i] == ts;
    }
  }

  method EncodeQuintuplets(qs: seq<Quintuplet>) returns (r: Result<Bytes>)
    ensures r == QuintupletTlvs(qs)
  {
    var out := new BufferWriter();
    for i := 0 to |qs|
      invariant fresh(out) && QuintupletTlvs(qs[..i]) == Success(out.buf)
    {
      QuintupletsUpTo(qs, i);
      var q := EncodeQuintuplet(qs[i]);
      if q.Failure? { QuintupletsFail(qs, i + 1); return Failure; }
      out.WriteBytes(q.value);
    }
    assert qs[..|qs|] == qs;
    return Success(out.buf);
  }

  lemma {:induction false} QuintupletsUpTo(qs: seq<Quintuplet>, i: nat)
    requires i < |qs|
    ensures QuintupletTlvs(qs[..i + 1]) == Appended(QuintupletTlvs(qs[..i]), QuintupletTlv(qs[i]))
  {
    assert qs[..i + 1][..i] == qs[..i];
  }

  lemma {:induction false} QuintupletsFail(qs: seq<Quintuplet>, i: nat)
    requires i <= |qs| && QuintupletTlvs(qs[..i]).Failure?
    ensures QuintupletTlvs(qs).Failure?
    decreases |qs| - i
  {
    if i < |qs| {
      QuintupletsUpTo(qs, i);
      QuintupletsFail(qs, i + 1);
    } else {
      assert qs[..i] == qs;
    }
  }

  /** The per-operation argument encoders, each appending to a fresh writer. */
  method EncodeArgFields(m: MapMessage) returns (r: Result<Bytes>)
    ensures r == ArgFields(m)
  {
    hide TlvBytes, IntBytes, PackBcd, TripletTlvs, QuintupletTlvs;
    var inner := new BufferWriter();
    if m.operation == SEND_AUTHENTICATION_INFO && !m.component.Invoke? {
      var ts :- EncodeTriplets(m.triplets);
      var qs :- EncodeQuintuplets(m.quintuplets);
      inner.WriteBytes(ts);
      inner.WriteBytes(qs);
      assert inner.buf == ts + qs;
    } else if m.operation == UPDATE_GPRS_LOCATION && !m.component.Invoke? {
      :- WriteOptional(inner, m.hlrNumber);
    } else if m.operation == PURGE_MS && !m.component.Invoke? {
      if m.freezePtmsi {
        inner.Write8(BER_NULL);
        inner.Write8(0);
        assert inner.buf == [BER_NULL, 0];
      }
    } else {
      var bcd := Pack(m.imsi);
      :- WriteTlv(inner, BER_OCTETS, bcd);
      if m.operation == SEND_AUTHENTICATION_INFO {
        :- WriteTlvInt(inner, m.numRequestedVectors.GetOr(1));
      } else if m.operation == UPDATE_GPRS_LOCATION {
        :- WriteOptional(inner, m.sgsnNumber);
        :- WriteOptional(inner, m.sgsnAddress);
      } else if m.operation == CANCEL_LOCATION {
        if m.cancelType.Some? {
          inner.Write8(BER_INT);
          inner.Write8(1);
          inner.Write8(m.cancelType.value);
        }
        assert inner.buf == OctetsTlv(bcd).value + if m.cancelType.None? then [] else [BER_INT, 1, m.cancelType.value];
      } else if m.operation == INSERT_SUBSCRIBER_DATA {
        :- WriteOptional(inner, m.msisdn);
      } else if m.operation == PURGE_MS {
        :- WriteOptional(inner, m.sgsnNumber);
      }
    }
    return Success(inner.buf);
  }

  method EncodeComponent(m: MapMessage, args: Bytes) returns (r: Result<Bytes>)
    ensures r == ComponentBytes(m, args)
  {
    var body := new BufferWriter();
    var comp := new BufferWriter();
    match m.component {
      case Invoke =>
        :- WriteTlvInt(body, m.invokeId);
        :- WriteTlvInt(body, m.operation);
        body.WriteBytes(args);
        :- WriteTlv(comp, COMP_INVOKE, body.buf);
      case ReturnResult =>
        var resultInner := new BufferWriter();
        :- WriteTlvInt(resultInner, m.operation);
        resultInner.WriteBytes(args);
        var resultSeq := new BufferWriter();
        :- WriteTlv(resultSeq, BER_SEQUENCE, resultInner.buf);
        :- WriteTlvInt(body, m.invokeId);
        body.WriteBytes(resultSeq.buf);
        :- WriteTlv(comp, COMP_RETURN_RESULT, body.buf);
      case ReturnError =>
        :- WriteTlvInt(body, m.invokeId);
        :- WriteTlvInt(body, m.errorCode.GetOr(SYSTEM_FAILURE));
        :- WriteTlv(comp, COMP_RETURN_ERROR, body.buf);
      case Reject =>
        return Failure;
    }
    return Success(comp.buf);
  }

  method Encode(m: MapMessage) returns (r: Result<Bytes>)
    ensures r == Encoded(m)
  {
    var args: Bytes := [];
    if KnownOperation(m.operation) {
      var inner :- EncodeArgFields(m);
      var sequence := new BufferWriter();
      :- WriteTlv(sequence, BER_SEQUENCE, inner);
      args := sequence.buf;
    }
    var component :- EncodeComponent(m, args);
    var compPortion := new BufferWriter();
    :- WriteTlv(compPortion, TCAP_COMPONENTS, component);
    var tcap := new BufferWriter();
    var st: Status;
    if m.component.Invoke? {
      st := WriteTlv(tcap, TCAP_OTID, BE32(m.transactionId));
    } else {
      st := WriteTlv(tcap, TCAP_DTID, BE32(m.transactionId));
    }
    if st.Thrown? { return Failure; }
    tcap.WriteBytes(compPortion.buf);
    var out := new BufferWriter();
    :- WriteTlv(out, if m.component.Invoke? then TCAP_BEGIN else TCAP_END, tcap.buf);
    return Success(out.buf);
  }

  // --------------------------------------------------------------- decoding

  /** `static_cast<uint8_t>` of a decoded integer. */
  function Low8(v: Int64): Byte {
    var x: int := v;
    x % 0x100
  }

  /** The argument layouts that are read by a loop over the TLVs of one SEQUENCE. */
  datatype Layout = SaiReq | UglReq | UglRes | CancelReq | InsertReq | PurgeReq | PurgeRes

  /** The state of such a loop: `first` until an octet string has been taken as the IMSI. */
  datatype Cursor = Cursor(first: bool, m: MapMessage)

  function TakeImsi(v: Bytes, c: Cursor): Result<Cursor> {
    var d :- UnpackImsi(v);
    Success(Cursor(false, c.m.(imsi := d)))
  }

  function FieldStep(k: Layout, t: Byte, v: Bytes, c: Cursor): Result<Cursor> {
    var m := c.m;
    match k
    case SaiReq =>
      if t == BER_OCTETS && m.imsi == "" then TakeImsi(v, c)
      else if t == BER_INT && m.numRequestedVectors.None? then
        var n :- IntValue(v);
        Success(c.(m := m.(numRequestedVectors := Some(Low8(n)))))
      else Success(c)
    case UglReq =>
      if t != BER_OCTETS then Success(c)
      else if c.first && m.imsi == "" then TakeImsi(v, c)
      else if m.sgsnNumber.None? then Success(c.(m := m.(sgsnNumber := Some(v))))
      else if m.sgsnAddress.None? then Success(c.(m := m.(sgsnAddress := Some(v))))
      else Success(c)
    case UglRes =>
      Success(if t == BER_OCTETS && m.hlrNumber.None? then c.(m := m.(hlrNumber := Some(v))) else c)
    case CancelReq =>
      if t == BER_OCTETS && c.first then TakeImsi(v, c)
      else if t == BER_INT then
        var n :- IntValue(v);
        Success(c.(m := m.(cancelType := Some(Low8(n)))))
      else Success(c)
    case InsertReq =>
      if t != BER_OCTETS then Success(c)
      else if c.first then TakeImsi(v, c)
      else Success(if m.msisdn.None? then c.(m := m.(msisdn := Some(v))) else c)
    case PurgeReq =>
      if t != BER_OCTETS then Success(c)
      else if c.first then TakeImsi(v, c)
      else Success(if m.sgsnNumber.None? then c.(m := m.(sgsnNumber := Some(v))) else c)
    case PurgeRes =>
      Success(if t == BER_NULL then c.(m := m.(freezePtmsi := true)) else c)
  }

  function Fields(k: Layout, s: Bytes, c: Cursor): Result<MapMessage>
    decreases |s|
  {
    if s == [] then Success(c.m)
    else
      var t :- TakeTlv(s);
      var c' :- FieldStep(k, t.tag, t.value, c);
      Fields(k, t.rest, c')
  }

  function DecodedArgs(k: Layout, s: Bytes, m: MapMessage): Result<MapMessage> {
    if s == [] then Success(m)
    else
      var t :- TakeTlv(s);
      if k.SaiReq? && t.tag != BER_SEQUENCE then Success(m)
      else Fields(k, t.value, Cursor(true, m))
  }

  /** DeleteSubscriberData looks at the first TLV of the SEQUENCE only. */
  function DecodedDelete(s: Bytes, m: MapMessage): Result<MapMessage> {
    if s == [] then Success(m)
    else
      var t :- TakeTlv(s);
      if t.value == [] then Success(m)
      else
        var f :- TakeTlv(t.value);
        if f.tag == BER_OCTETS && m.imsi == "" then
          var d :- UnpackImsi(f.value);
          Success(m.(imsi := d))
        else Success(m)
  }

  /** The octet strings of one authentication vector, appended to those already found. */
  function OctetStrings(s: Bytes, found: seq<Bytes>): Result<seq<Bytes>>
    decreases |s|
  {
    if s == [] then Success(found)
    else
      var t :- TakeTlv(s);
      OctetStrings(t.rest, if t.tag == BER_OCTETS then found + [t.value] else found)
  }

  /** A triplet is told from a quintuplet by the number of octet strings. */
  function AddVector(m: MapMessage, f: seq<Bytes>): MapMessage {
    if 3 <= |f| < 5 then m.(triplets := m.triplets + [Triplet(f[0], f[1], f[2])])
    else if |f| >= 5 then m.(quintuplets := m.quintuplets + [Quintuplet(f[0], f[1], f[2], f[3], f[4])])
    else m
  }

  function Vectors(s: Bytes, m: MapMessage): Result<MapMessage>
    decreases |s|
  {
    if s == [] then Success(m)
    else
      var t :- TakeTlv(s);
      if t.tag != BER_SEQUENCE then Vectors(t.rest, m)
      else
        var f :- OctetStrings(t.value, []);
        Vectors(t.rest, AddVector(m, f))
  }

  function DecodedVectors(s: Bytes, m: MapMessage): Result<MapMessage> {
    if s == [] then Success(m)
    else
      var t :- TakeTlv(s);
      Vectors(t.value, m)
  }

  function InvokeArgs(s: Bytes, m: MapMessage): Result<MapMessage> {
    if m.operation == SEND_AUTHENTICATION_INFO then DecodedArgs(SaiReq, s, m)
    else if m.operation == UPDATE_GPRS_LOCATION then DecodedArgs(UglReq, s, m)
    else if m.operation == CANCEL_LOCATION then DecodedArgs(CancelReq, s, m)
    else if m.operation == INSERT_SUBSCRIBER_DATA then DecodedArgs(InsertReq, s, m)
    else if m.operation == DELETE_SUBSCRIBER_DATA then DecodedDelete(s, m)
    else if m.operation == PURGE_MS then DecodedArgs(PurgeReq, s, m)
    else Success(m)
  }

  function ResultArgs(s: Bytes, m: MapMessage): Result<MapMessage> {
    if m.operation == SEND_AUTHENTICATION_INFO then DecodedVectors(s, m)
    else if m.operation == UPDATE_GPRS_LOCATION then DecodedArgs(UglRes, s, m)
    else if m.operation == PURGE_MS then DecodedArgs(PurgeRes, s, m)
    else Success(m)
  }

  function DecodedComponent(tag: Byte, s: Bytes, m: MapMessage): Result<MapMessage> {
    if tag == COMP_INVOKE then
      var iv :- TakeTlv(s);
      var id :- IntValue(iv.value);
      var ov :- TakeTlv(iv.rest);
      var op :- IntValue(ov.value);
      InvokeArgs(ov.rest, m.(component := Invoke, invokeId := Low8(id), operation := Low8(op)))
    else if tag == COMP_RETURN_RESULT then
      var iv :- TakeTlv(s);
      var id :- IntValue(iv.value);
      var result :- TakeTlv(iv.rest);
      var ov :- TakeTlv(result.value);
      var op :- IntValue(ov.value);
      ResultArgs(ov.rest, m.(component := ReturnResult, invokeId := Low8(id), operation := Low8(op)))
    else if tag == COMP_RETURN_ERROR then
      var iv :- TakeTlv(s);
      var id :- IntValue(iv.value);
      var ev :- TakeTlv(iv.rest);
      var code :- IntValue(ev.value);
      Success(m.(component := ReturnError, invokeId := Low8(id), errorCode := Some(Low8(code))))
    else Success(m)
  }

  function Components(s: Bytes, m: MapMessage): Result<MapMessage>
    decreases |s|
  {
    if s == [] then Success(m)
    else
      var t :- TakeTlv(s);
      var m' :- DecodedComponent(t.tag, t.value, m);
      Components(t.rest, m')
  }

  /** A transaction id of any length; beyond four octets the high ones fall off. */
  function TidValue(b: Bytes): U32 {
    if b == [] then 0
    else
      var high: int := TidValue(b[..|b| - 1]);
      (high * 0x100 + b[|b| - 1]) % 0x1_0000_0000
  }

  function TcapField(tag: Byte, v: Bytes, m: MapMessage): Result<MapMessage> {
    if tag == TCAP_OTID || tag == TCAP_DTID then Success(m.(transactionId := TidValue(v)))
    else if tag == TCAP_COMPONENTS then Components(v, m)
    else Success(m)
  }

  function TcapFields(s: Bytes, m: MapMessage): Result<MapMessage>
    decreases |s|
  {
    if s == [] then Success(m)
    else
      var t :- TakeTlv(s);
      var m' :- TcapField(t.tag, t.value, m);
      TcapFields(t.rest, m')
  }

  function Decoded(data: Bytes): Result<MapMessage> {
    var t :- TakeTlv(data);
    TcapFields(t.value, BLANK_MAP)
  }

  /** The `while (!sr.empty())` loop of the request and result decoders. */
  method DecodeFields(k: Layout, seqVal: Bytes, m0: MapMessage) returns (r: Result<MapMessage>)
    ensures r == Fields(k, seqVal, Cursor(true, m0))
  {
    var sr := new BufferReader(seqVal);
    var c := Cursor(true, m0);
    var done := sr.Empty();
    while !done
      invariant sr.Valid() && fresh(sr)
      invariant done <==> sr.Rest() == []
      invariant Fields(k, seqVal, Cursor(true, m0)) == Fields(k, sr.Rest(), c)
      decreases |sr.Rest()|
    {
      var t :- ReadTlv(sr);
      c :- FieldStep(k, t.0, t.1, c);
      done := sr.Empty();
    }
    return Success(c.m);
  }

  method DecodeArgs(k: Layout, r: BufferReader, m: MapMessage) returns (res: Result<MapMessage>)
    requires r.Valid()
    modifies r`pos
    ensures r.Valid()
    ensures res == DecodedArgs(k, old(r.Rest()), m)
  {
    var none := r.Empty();
    if none { return Success(m); }
    var t :- ReadTlv(r);
    if k.SaiReq? && t.0 != BER_SEQUENCE { return Success(m); }
    res := DecodeFields(k, t.1, m);
  }

  method DecodeDelete(r: BufferReader, m: MapMessage) returns (res: Result<MapMessage>)
    requires r.Valid()
    modifies r`pos
    ensures r.Valid()
    ensures res == DecodedDelete(old(r.Rest()), m)
  {
    var none := r.Empty();
    if none { return Success(m); }
    var t :- ReadTlv(r);
    var sr := new BufferReader(t.1);
    none := sr.Empty();
    if none { return Success(m); }
    var f :- ReadTlv(sr);
    if f.0 == BER_OCTETS && m.imsi == "" {
      var d :- BcdToImsi(f.1);
      return Success(m.(imsi := d));
    }
    return Success(m);
  }

  method DecodeVectors(r: BufferReader, m0: MapMessage) returns (res: Result<MapMessage>)
    requires r.Valid()
    modifies r`pos
    ensures r.Valid()
    ensures res == DecodedVectors(old(r.Rest()), m0)
  {
    var done := r.Empty();
    if done { return Success(m0); }
    var outer :- ReadTlv(r);
    var sr := new BufferReader(outer.1);
    var m := m0;
    done := sr.Empty();
    while !done
      invariant sr.Valid() && fresh(sr) && r.Valid()
      invariant done <==> sr.Rest() == []
      invariant Vectors(outer.1, m0) == Vectors(sr.Rest(), m)
      decreases |sr.Rest()|
    {
      var t :- ReadTlv(sr);
      if t.0 == BER_SEQUENCE {
        var f :- CollectOctetStrings(t.1);
        m := AddVector(m, f);
      }
      done := sr.Empty();
    }
    return Success(m);
  }

  method CollectOctetStrings(v: Bytes) returns (r: Result<seq<Bytes>>)
    ensures r == OctetStrings(v, [])
  {
    var tr := new BufferReader(v);
    var fields: seq<Bytes> := [];
    var done := tr.Empty();
    while !done
      invariant tr.Valid() && fresh(tr)
      invariant done <==> tr.Rest() == []
      invariant OctetStrings(v, []) == OctetStrings(tr.Rest(), fields)
      decreases |tr.Rest()|
    {
      var t :- ReadTlv(tr);
      if t.0 == BER_OCTETS { fields := fields + [t.1]; }
      done := tr.Empty();
    }
    return Success(fields);
  }

  method ReadInt(r: BufferReader) returns (n: Result<Int64>)
    requires r.Valid()
    modifies r`pos
    ensures r.Valid()
    ensures n.Success? <==> TakeTlv(old(r.Rest())).Success? && IntValue(TakeTlv(old(r.Rest())).value.value).Success?
    ensures n.Success? ==> var t := TakeTlv(old(r.Rest())).value; n == IntValue(t.value) && r.Rest() == t.rest
  {
    var t :- ReadTlv(r);
    n := DecodeInt(t.1);
  }

  method DecodeComponent(tag: Byte, s: Bytes, m0: MapMessage) returns (res: Result<MapMessage>)
    ensures res == DecodedComponent(tag, s, m0)
  {
    var cbr := new BufferReader(s);
    var m := m0;
    if tag == COMP_INVOKE {
      var id :- ReadInt(cbr);
      var op :- ReadInt(cbr);
      m := m.(component := Invoke, invokeId := Low8(id), operation := Low8(op));
      if m.operation == SEND_AUTHENTICATION_INFO { res := DecodeArgs(SaiReq, cbr, m); }
      else if m.operation == UPDATE_GPRS_LOCATION { res := DecodeArgs(UglReq, cbr, m); }
      else if m.operation == CANCEL_LOCATION { res := DecodeArgs(CancelReq, cbr, m); }
      else if m.operation == INSERT_SUBSCRIBER_DATA { res := DecodeArgs(InsertReq, cbr, m); }
      else if m.operation == DELETE_SUBSCRIBER_DATA { res := DecodeDelete(cbr, m); }
      else if m.operation == PURGE_MS { res := DecodeArgs(PurgeReq, cbr, m); }
      else { res := Success(m); }
    } else if tag == COMP_RETURN_RESULT {
      var id :- ReadInt(cbr);
      var result :- ReadTlv(cbr);
      var rr := new BufferReader(result.1);
      var op :- ReadInt(rr);
      m := m.(component := ReturnResult, invokeId := Low8(id), operation := Low8(op));
      if m.operation == SEND_AUTHENTICATION_INFO { res := DecodeVectors(rr, m); }
      else if m.operation == UPDATE_GPRS_LOCATION { res := DecodeArgs(UglRes, rr, m); }
      else if m.operation == PURGE_MS { res := DecodeArgs(PurgeRes, rr, m); }
      else { res := Success(m); }
    } else if tag == COMP_RETURN_ERROR {
      var id :- ReadInt(cbr);
      var code :- ReadInt(cbr);
      res := Success(m.(component := ReturnError, invokeId := Low8(id), errorCode := Some(Low8(code))));
    } else {
      res := Success(m);
    }
  }

  method DecodeComponents(val: Bytes, m0: MapMessage) returns (res: Result<MapMessage>)
    ensures res == Components(val, m0)
  {
    var cr := new BufferReader(val);
    var m := m0;
    var done := cr.Empty();
    while !done
      invariant cr.Valid() && fresh(cr)
      invariant done <==> cr.Rest() == []
      invariant Components(val, m0) == Components(cr.Rest(), m)
      decreases |cr.Rest()|
    {
      var t :- ReadTlv(cr);
      m :- DecodeComponent(t.0, t.1, m);
      done := cr.Empty();
    }
    return Success(m);
  }

  method DecodeTid(val: Bytes) returns (tid: U32)
    ensures tid == TidValue(val)
  {
    tid := 0;
    for i := 0 to |val|
      invariant tid == TidValue(val[..i])
    {
      assert val[..i + 1][..i] == val[..i];
      var high: int := tid;
      tid := (high * 0x100 + val[i]) % 0x1_0000_0000;
    }
    assert val[..|val|] == val;
  }

  method Decode(data: Bytes) returns (res: Result<MapMessage>)
    ensures res == Decoded(data)
  {
    var r := new BufferReader(data);
    var outer :- ReadTlv(r);
    var tr := new BufferReader(outer.1);
    var msg := BLANK_MAP;
    var done := tr.Empty();
    while !done
      invariant tr.Valid() && fresh(tr)
      invariant done <==> tr.Rest() == []
      invariant Decoded(data) == TcapFields(tr.Rest(), msg)
      decreases |tr.Rest()|
    {
      var t :- ReadTlv(tr);
      if t.0 == TCAP_OTID || t.0 == TCAP_DTID {
        var tid := DecodeTid(t.1);
        msg := msg.(transactionId := tid);
      } else if t.0 == TCAP_COMPONENTS {
        msg :- DecodeComponents(t.1, msg);
      }
      done := tr.Empty();
    }
    return Success(msg);
  }
}

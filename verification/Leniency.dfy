/** What the decoders accept beyond what the encoders write, by the code numbers on the wire. */
module Leniency {
  import opened Basics
  import opened Bcd
  import opened Ber
  import opened GsupMessages
  import opened MapMessages
  import Gsup = GsupCodec
  import Map = MapCodec
  import M3ua = M3uaCodec
  import M3uaStream
  import Ipa = IpaCodec
  import Stream
  import Sccp = SccpCodec
  import SccpRoundTrip

  // ------------------------------------------------------------------- GSUP

  /** The tags that mean something at the top level, in a tuple and in a PDP context. */
  predicate KnownElement(tag: Byte) { 0x01 <= tag <= 0x09 || tag == 0x10 || tag == 0x28 }
  predicate KnownInTuple(tag: Byte) { 0x20 <= tag <= 0x25 || tag == 0x27 }
  predicate KnownInPdp(tag: Byte) { 0x60 <= tag <= 0x64 }

  function Element(tag: Byte, v: Bytes): Bytes
    requires |v| <= 255
  {
    [tag, |v|] + v
  }

  lemma {:induction false} ElementTaken(tag: Byte, v: Bytes, rest: Bytes)
    requires |v| <= 255
    ensures Gsup.TakeIe(Element(tag, v) + rest) == Success(Gsup.Ie(tag, v, rest))
  {
    var s := Element(tag, v) + rest;
    assert s[2..2 + |v|] == v && s[2 + |v|..] == rest;
  }

  lemma {:induction false} TakeIeMore(a: Bytes, b: Bytes)
    requires Gsup.TakeIe(a).Success?
    ensures Gsup.TakeIe(a + b) == Success(Gsup.TakeIe(a).value.(rest := Gsup.TakeIe(a).value.rest + b))
  {
    var n := a[1];
    assert (a + b)[2..2 + n] == a[2..2 + n] && (a + b)[2 + n..] == a[2 + n..] + b;
  }

  /** What follows a well-formed stretch of elements is read from the message it gave. */
  lemma {:induction false} ElementsAppend(a: Bytes, b: Bytes, m: GsupMessage)
    requires Gsup.Ies(a, m).Success?
    ensures Gsup.Ies(a + b, m) == Gsup.Ies(b, Gsup.Ies(a, m).value)
    decreases |a|
  {
    if a == [] {
      assert a + b == b;
    } else {
      TakeIeMore(a, b);
      var ie := Gsup.TakeIe(a).value;
      hide Gsup.TakeIe, Gsup.IeStep;
      if ie.tag == IE_CAUSE {
        CauseMore(a, b);
        var m' := m.(cause := Some(a[2]));
        if a[1] == 0 {
          assert (a + b)[3..] == a[3..] + b;
          ElementsAppend(a[3..], b, m');
        } else {
          ElementsAppend(ie.rest, b, m');
        }
      } else {
        ElementsAppend(ie.rest, b, Gsup.IeStep(ie.tag, ie.value, m).value);
      }
    }
  }

  lemma {:induction false} CauseMore(a: Bytes, b: Bytes)
    requires |a| >= 3
    ensures |a + b| >= 3 && (a + b)[1] == a[1] && (a + b)[2] == a[2] && a + b != []
  {
  }

  lemma {:induction false} UnknownStep(tag: Byte, v: Bytes, rest: Bytes, m: GsupMessage)
    requires !KnownElement(tag) && |v| <= 255
    ensures Gsup.Ies(Element(tag, v) + rest, m) == Gsup.Ies(rest, m)
  {
    ElementTaken(tag, v, rest);
    hide Gsup.TakeIe;
  }

  /** An element with any other tag is skipped, wherever it stands among the elements. */
  lemma {:induction false} UnknownElementSkipped(a: Bytes, tag: Byte, v: Bytes, b: Bytes, m: GsupMessage)
    requires !KnownElement(tag) && |v| <= 255 && Gsup.Ies(a, m).Success?
    ensures Gsup.Ies(a + (Element(tag, v) + b), m) == Gsup.Ies(a + b, m)
  {
    hide Gsup.Ies;
    ElementsAppend(a, Element(tag, v) + b, m);
    ElementsAppend(a, b, m);
    UnknownStep(tag, v, b, Gsup.Ies(a, m).value);
  }

  lemma {:induction false} UnknownInTupleSkipped(tag: Byte, v: Bytes, rest: Bytes, t: AuthTuple)
    requires !KnownInTuple(tag) && |v| <= 255
    ensures Gsup.TupleFields(Element(tag, v) + rest, t) == Gsup.TupleFields(rest, t)
  {
    ElementTaken(tag, v, rest);
    hide Gsup.TakeIe;
  }

  lemma {:induction false} UnknownInPdpSkipped(tag: Byte, v: Bytes, rest: Bytes, p: PdpInfo)
    requires !KnownInPdp(tag) && |v| <= 255
    ensures Gsup.PdpFields(Element(tag, v) + rest, p) == Gsup.PdpFields(rest, p)
  {
    ElementTaken(tag, v, rest);
    hide Gsup.TakeIe;
  }

  /** A cause takes one octet, its first; if its length is zero, it takes the octet after it, and it is
      an error if there is none. */
  lemma {:induction false} CauseReadsOneOctet(v: Bytes, rest: Bytes, m: GsupMessage)
    requires |v| <= 255
    ensures v != [] ==> Gsup.Ies(Element(0x02, v) + rest, m) == Gsup.Ies(rest, m.(cause := Some(v[0])))
    ensures v == [] && rest != [] ==> Gsup.Ies(Element(0x02, v) + rest, m) == Gsup.Ies(rest[1..], m.(cause := Some(rest[0])))
    ensures v == [] && rest == [] ==> Gsup.Ies(Element(0x02, v) + rest, m) == Failure
  {
    ElementTaken(0x02, v, rest);
    var s := Element(0x02, v) + rest;
    if v == [] && rest != [] { assert s[3..] == rest[1..]; }
    hide Gsup.TakeIe;
  }

  /** Elements that hold one octet take their first, and an empty one changes nothing. */
  lemma {:induction false} OneOctetElements(v: Bytes, m: GsupMessage)
    ensures Gsup.IeStep(0x06, v, m) == Success(if v == [] then m else m.(cancelType := Some(v[0])))
    ensures Gsup.IeStep(0x10, v, m) == Success(if v == [] then m else m.(numVectorsRequested := Some(v[0])))
    ensures Gsup.IeStep(0x28, v, m) == Success(if v == [] then m else m.(cnDomain := Some(v[0])))
    ensures Gsup.IeStep(0x04, v, m) == Success(m.(pdpInfoComplete := true))
    ensures Gsup.IeStep(0x07, v, m) == Success(m.(freezePtmsi := true))
    ensures Gsup.IeStep(0x08, v, m) == Success(m.(msisdn := Some(v)))
    ensures Gsup.IeStep(0x09, v, m) == Success(m.(hlrNumber := Some(v)))
  {
  }

  /** The elements of a tuple, by tag. */
  lemma {:induction false} TupleElements(v: Bytes, t: AuthTuple)
    ensures Gsup.TupleStep(0x20, v, t) == t.(rand := v) && Gsup.TupleStep(0x21, v, t) == t.(sres := v)
    ensures Gsup.TupleStep(0x22, v, t) == t.(kc := v) && Gsup.TupleStep(0x23, v, t) == t.(ik := Some(v))
    ensures Gsup.TupleStep(0x24, v, t) == t.(ck := Some(v)) && Gsup.TupleStep(0x25, v, t) == t.(autn := Some(v))
    ensures Gsup.TupleStep(0x27, v, t) == t.(res := Some(v))
  {
  }

  /** In a PDP context, an empty context id is 0, and a type needs two octets. */
  lemma {:induction false} PdpElements(v: Bytes, p: PdpInfo)
    ensures Gsup.PdpStep(0x60, v, p) == p.(contextId := if v == [] then 0 else v[0])
    ensures Gsup.PdpStep(0x61, v, p)
         == if |v| < 2 then p else p.(pdpType := Some((v[0] as int) * 0x100 + (v[1] as int)))
    ensures Gsup.PdpStep(0x62, v, p) == p.(apn := Some(v))
    ensures Gsup.PdpStep(0x63, v, p) == p.(pdpAddress := Some(v))
    ensures Gsup.PdpStep(0x64, v, p) == p.(qos := Some(v))
  {
  }

  // -------------------------------------------------------------------- BER

  /** Lengths of up to four octets are read, minimal or not; the indefinite form is an error. */
  lemma {:induction false} LengthForms(digits: Bytes, rest: Bytes)
    ensures 1 <= |digits| <= 4 ==> TakeLength([0x80 + |digits|] + digits + rest) == Success((Unsigned(digits), rest))
    ensures TakeLength([0x80] + rest) == Failure
  {
    if 1 <= |digits| <= 4 {
      var n := |digits|;
      var s := [0x80 + n] + digits + rest;
      assert s[1..1 + n] == digits && s[1 + n..] == rest;
    }
  }

  /** A transaction id of any length: its value modulo 2^32. */
  lemma {:induction false} TidIsNumber(b: Bytes)
    ensures Map.TidValue(b) == Unsigned(b) % 0x1_0000_0000
  {
    if b != [] {
      var init, last: int := b[..|b| - 1], b[|b| - 1];
      TidIsNumber(init);
      var u, h := Unsigned(init), Unsigned(init) % 0x1_0000_0000;
      assert u == (u / 0x1_0000_0000) * 0x1_0000_0000 + h;
      assert u * 0x100 + last == (u / 0x1_0000_0000 * 0x100) * 0x1_0000_0000 + (h * 0x100 + last);
      SameRest(u / 0x1_0000_0000 * 0x100, h * 0x100 + last);
    }
  }

  lemma {:induction false} SameRest(k: int, x: int)
    ensures (k * 0x1_0000_0000 + x) % 0x1_0000_0000 == x % 0x1_0000_0000
  {
  }

  // -------------------------------------------------------------------- MAP

  /** A TCAP field or a component with any other tag is skipped. */
  lemma {:induction false} UnknownFieldSkipped(tag: Byte, v: Bytes, rest: Bytes, m: MapMessage)
    requires |v| <= 0xFFFF
    ensures tag != 0x48 && tag != 0x49 && tag != 0x6C ==>
              Map.TcapFields(TlvBytes(tag, v).value + rest, m) == Map.TcapFields(rest, m)
    ensures tag != 0xA1 && tag != 0xA2 && tag != 0xA3 ==>
              Map.Components(TlvBytes(tag, v).value + rest, m) == Map.Components(rest, m)
  {
    hide TlvBytes, TakeTlv;
    TlvRoundTrip(tag, v, rest);
    NotEmpty(tag, v, rest);
  }

  lemma {:induction false} NotEmpty(tag: Byte, v: Bytes, rest: Bytes)
    requires |v| <= 0xFFFF
    ensures TlvBytes(tag, v).Success? && TlvBytes(tag, v).value + rest != []
  {
  }

  /** Either transaction id tag is taken, whatever the kind of the message. */
  lemma {:induction false} EitherTid(v: Bytes, rest: Bytes, m: MapMessage)
    requires |v| <= 0xFFFF
    ensures Map.TcapFields(TlvBytes(0x48, v).value + rest, m)
         == Map.TcapFields(rest, m.(transactionId := Unsigned(v) % 0x1_0000_0000))
    ensures Map.TcapFields(TlvBytes(0x49, v).value + rest, m)
         == Map.TcapFields(rest, m.(transactionId := Unsigned(v) % 0x1_0000_0000))
  {
    hide TlvBytes, TakeTlv, Unsigned, Map.TidValue;
    TidIsNumber(v);
    TlvRoundTrip(0x48, v, rest);
    TlvRoundTrip(0x49, v, rest);
    NotEmpty(0x48, v, rest);
    NotEmpty(0x49, v, rest);
  }

  /** An argument with any tag but INTEGER, OCTET STRING and NULL is skipped in every layout. */
  lemma {:induction false} UnknownArgumentSkipped(k: Map.Layout, tag: Byte, v: Bytes, rest: Bytes, c: Map.Cursor)
    requires |v| <= 0xFFFF && tag != 0x02 && tag != 0x04 && tag != 0x05
    ensures Map.Fields(k, TlvBytes(tag, v).value + rest, c) == Map.Fields(k, rest, c)
  {
    hide TlvBytes, TakeTlv;
    TlvRoundTrip(tag, v, rest);
    NotEmpty(tag, v, rest);
  }

  /** Vectors are told apart by the number of octet strings: three or four make a triplet, five or more a
      quintuplet, of the first ones in order, and fewer make nothing. */
  lemma {:induction false} VectorsToldApart(f: seq<Bytes>, m: MapMessage)
    ensures |f| == 3 || |f| == 4 ==>
              Map.AddVector(m, f) == m.(triplets := m.triplets + [Triplet(f[0], f[1], f[2])])
    ensures |f| >= 5 ==>
              Map.AddVector(m, f)
              == m.(quintuplets := m.quintuplets + [Quintuplet(f[0], f[1], f[2], f[3], f[4])])
    ensures |f| < 3 ==> Map.AddVector(m, f) == m
  {
  }

  // ------------------------------------------------------------------- M3UA

  /** A parameter with any other tag is skipped, wherever it stands. */
  lemma {:induction false} UnknownParameterSkipped(ps: seq<M3ua.Param>, u: M3ua.Param, rest: Bytes, m: M3ua.M3uaMessage)
    requires (forall p :: p in ps ==> M3uaStream.ParamFits(p)) && M3uaStream.ParamFits(u)
    requires u.tag != 0x0006 && u.tag != 0x0009 && u.tag != 0x0210
    ensures M3ua.TakeParams(M3ua.ParamsBytes(ps) + (M3ua.ParamBytes(u.tag, u.value) + rest), m)
         == M3ua.TakeParams(M3ua.ParamsBytes(ps) + rest, m)
  {
    hide M3ua.ParamBytes, M3ua.TakeParams, M3uaStream.ParamFits;
    var unknown := M3ua.ParamBytes(u.tag, u.value) + rest;
    if ps == [] {
      assert M3ua.ParamsBytes(ps) + unknown == unknown && M3ua.ParamsBytes(ps) + rest == rest;
      M3uaStream.ParamTaken(u, rest, m);
    } else {
      var p, qs := ps[0], ps[1..];
      assert M3ua.ParamsBytes(ps) + unknown == M3ua.ParamBytes(p.tag, p.value) + (M3ua.ParamsBytes(qs) + unknown);
      assert M3ua.ParamsBytes(ps) + rest == M3ua.ParamBytes(p.tag, p.value) + (M3ua.ParamsBytes(qs) + rest);
      M3uaStream.ParamTaken(p, M3ua.ParamsBytes(qs) + unknown, m);
      M3uaStream.ParamTaken(p, M3ua.ParamsBytes(qs) + rest, m);
      var m' := M3ua.TakeParam(p.tag, p.value, m);
      hide M3ua.TakeParam, M3ua.ParamsBytes;
      if m'.Success? { UnknownParameterSkipped(qs, u, rest, m'.value); }
    }
  }

  // ------------------------------------------------------------------- SCCP

  /** The octets of a title: the encoding scheme is 1 for an odd number of digits and 2 for an even one,
      an odd number also sets the top bit of the nature of address, and the digits follow, two to an
      octet. */
  lemma {:induction false} TitleOctets(a: Sccp.SccpAddress)
    requires a.np % 16 == 0 && a.nai < 0x80
    ensures var o, np: int, nai: int := Sccp.EncodedGt(a), a.np, a.nai;
            && |o| == 3 + (|a.digits| + 1) / 2 && o[0] == a.tt
            && (|a.digits| % 2 == 1 ==> o[1] == np + 1 && o[2] == nai + 0x80)
            && (|a.digits| % 2 == 0 ==> o[1] == np + 2 && o[2] == nai)
  {
    hide PackBcd;
    assert a.np / 2 % 2 == 0 && a.np % 2 == 0;
  }

  /** The first octets of an address routed by title: format 4, with or without a subsystem number. */
  lemma {:induction false} IndicatorOctets(a: Sccp.SccpAddress)
    requires a.routeByGt
    ensures var o := Sccp.EncodedAddress(a);
            if a.ssnPresent then |o| >= 2 && o[0] == 0x48 && o[1] == a.ssn && o[2..] == Sccp.EncodedGt(a)
            else |o| >= 1 && o[0] == 0x40 && o[1..] == Sccp.EncodedGt(a)
  {
    hide Sccp.EncodedGt;
  }

  /** The indicator octet of any address: its top bit means routing by subsystem, bit 3 a subsystem number;
      only a title of format 4 is read, and one of any other format leaves the address without digits. */
  lemma {:induction false} IndicatorRead(ai: Byte, ssn: Byte, title: Bytes)
    ensures var a := Sccp.BLANK_ADDRESS.(routeByGt := ai < 0x80, ssnPresent := true, ssn := ssn);
            ai / 8 % 2 == 1 ==>
              Sccp.DecodedAddress([ai, ssn] + title) == if ai / 16 % 8 == 4 then Sccp.DecodedGt(title, a) else Success(a)
    ensures var a := Sccp.BLANK_ADDRESS.(routeByGt := ai < 0x80, ssnPresent := false);
            ai / 8 % 2 == 0 ==>
              Sccp.DecodedAddress([ai] + title) == if ai / 16 % 8 == 4 then Sccp.DecodedGt(title, a) else Success(a)
    ensures Sccp.DecodedAddress([]) == Failure
    ensures ai / 8 % 2 == 1 ==> Sccp.DecodedAddress([ai]) == Failure
  {
    hide Sccp.DecodedGt;
    assert ([ai, ssn] + title)[2..] == title && ([ai] + title)[1..] == title;
    assert ai / 128 % 2 == 1 <==> ai >= 0x80;
  }

  // ------------------------------------------------------------- refusals

  /** What each decoder refuses outright. */
  lemma {:induction false} Refusals(b: Bytes)
    ensures Gsup.Decoded([]) == Failure && TakeTlv([]) == Failure && IntValue([]) == Failure
    ensures |b| < 5 || b[0] != 0x09 ==> Sccp.DecodedUdt(b) == Failure
    ensures |b| < 8 ==> M3ua.Decoded(b) == Success(None)
    ensures |b| >= 8 && (b[0] != 1 || FromBE32(b[4..8]) < 8) ==> M3ua.Decoded(b) == Failure
    ensures |b| >= 8 && b[0] == 1 && FromBE32(b[4..8]) > |b| ==> M3ua.Decoded(b) == Success(None)
  {
    hide FromBE32, M3ua.TakeParams, Sccp.DecodedAddress;
  }

  /** A length of more than four octets, or one that is cut short, is refused; so is a cut-off value. */
  lemma {:induction false} BadLengths(n: Byte, rest: Bytes, tag: Byte, v: Bytes, len: Byte)
    ensures 0x85 <= n ==> TakeLength([n] + rest) == Failure
    ensures 0x81 <= n <= 0x84 && |rest| < n - 0x80 ==> TakeLength([n] + rest) == Failure
    ensures len <= 0x7F && |v| < len ==> TakeTlv([tag, len] + v) == Failure
    ensures |v| < len ==> Gsup.TakeIe([tag, len] + v) == Failure && Gsup.TakeIe([tag]) == Failure
  {
    assert ([tag, len] + v)[1..] == [len] + v;
    assert ([len] + v)[1..] == v;
  }

  /** A digit octet whose low nibble is above 9, or whose high nibble is between 10 and 14, is refused in an
      IMSI; a high nibble of 15 stands for no digit, wherever it is. */
  lemma {:induction false} ImsiOctets(lo: Byte, hi: Byte, octet: Byte, rest: Bytes)
    requires lo < 16 && hi < 16 && octet == hi * 16 + lo
    ensures lo > 9 || 10 <= hi <= 14 ==> UnpackImsi([octet] + rest) == Failure
    ensures lo <= 9 && hi <= 9 ==> UnpackImsi([octet] + rest) == Prefixed([Digit(lo), Digit(hi)], UnpackImsi(rest))
    ensures lo <= 9 && hi == 15 ==> UnpackImsi([octet] + rest) == Prefixed([Digit(lo)], UnpackImsi(rest))
  {
    NibblesOf(lo, hi, octet);
    assert ([octet] + rest)[1..] == rest;
    hide Digit;
  }

  lemma {:induction false} NibblesOf(lo: Byte, hi: Byte, octet: Byte)
    requires lo < 16 && hi < 16 && octet == hi * 16 + lo
    ensures octet % 16 == lo && octet / 16 == hi
  {
  }

  /** A protocol data parameter needs twelve octets; a routing context takes its first four, and one with
      fewer changes nothing. */
  lemma {:induction false} ParameterSizes(v: Bytes, m: M3ua.M3uaMessage)
    ensures |v| < 12 ==> M3ua.TakeParam(0x0210, v, m) == Failure
    ensures |v| < 4 ==> M3ua.TakeParam(0x0006, v, m) == Success(m)
    ensures |v| >= 4 ==> M3ua.TakeParam(0x0006, v, m) == Success(m.(routingContext := Some(FromBE32(v[..4]))))
    ensures M3ua.TakeParam(0x0009, v, m) == Success(m.(heartbeatData := v))
  {
    hide FromBE32;
  }

  /** A parameter whose length is below four, or reaches past the message, is refused; fewer than four
      octets at the end are ignored. */
  lemma {:induction false} BadParameters(b: Bytes, m: M3ua.M3uaMessage)
    ensures |b| < 4 ==> M3ua.TakeParams(b, m) == Success(m)
    ensures |b| >= 4 && Word(b[2], b[3]) < 4 ==> M3ua.TakeParams(b, m) == Failure
    ensures |b| >= 4 && Word(b[2], b[3]) > |b| ==> M3ua.TakeParams(b, m) == Failure
  {
    hide Word, M3ua.TakeParam, M3ua.AfterParam;
  }

  // ----------------------------------------------------------------- integers

  /** An integer of one to eight octets is read as two's complement, minimal or not. */
  lemma {:induction false} IntegersRead(b: Bytes)
    requires 1 <= |b| <= 8
    ensures IntValue(b) == Success(Unsigned(b) - if b[0] >= 0x80 then Pow256(|b|) else 0)
  {
    Pow256Upto8();
    UnsignedBound(b);
    TopOctet(b);
    var v := Unsigned(b) - if b[0] >= 0x80 then Pow256(|b|) else 0;
    TwosComplementRange(b);
    if |b| <= 7 { ShortIntValue(v, b); } else { LongIntValue(v, b); }
  }

  /** The top octet of a number tells which half of the range it is in. */
  lemma {:induction false} TopOctet(b: Bytes)
    requires b != []
    ensures b[0] >= 0x80 <==> 2 * Unsigned(b) >= Pow256(|b|)
    ensures Unsigned(b) < Pow256(|b|)
  {
    UnsignedBound(b);
    if |b| == 1 {
      assert b[..0] == [] && Pow256(0) == 1 && Pow256(1) == 0x100;
    } else {
      TopOctet(b[..|b| - 1]);
      assert b[..|b| - 1][0] == b[0] && Pow256(|b|) == 0x100 * Pow256(|b| - 1);
      EvenPower(|b| - 1);
    }
  }

  lemma {:induction false} EvenPower(k: nat)
    requires k > 0
    ensures Pow256(k) % 2 == 0
  {
    assert Pow256(k) == 2 * (0x80 * Pow256(k - 1));
  }

  lemma {:induction false} TwosComplementRange(b: Bytes)
    requires 1 <= |b| <= 8
    ensures var v := Unsigned(b) - if b[0] >= 0x80 then Pow256(|b|) else 0;
            -INT64_LIMIT <= v < INT64_LIMIT && (b[0] >= 0x80 <==> v < 0)
  {
    TopOctet(b);
    Pow256Upto8();
    Pow256Mono(|b|, 8);
  }

  /** Codes on the wire keep the low octet of their integer. */
  lemma {:induction false} LowOctet(v: Int64)
    ensures 0 <= v < 0x100 ==> Map.Low8(v) == v
    ensures var x: int := v; exists k: int :: x == k * 0x100 + Map.Low8(v)
  {
    var x: int := v;
    assert x == (x / 0x100) * 0x100 + Map.Low8(v);
  }

  // --------------------------------------------------------------- arguments

  /** The tag of the outermost TLV is not looked at, and what follows it is ignored. */
  lemma {:induction false} OutermostTlv(tag: Byte, v: Bytes, rest: Bytes)
    requires |v| <= 0xFFFF
    ensures Map.Decoded(TlvBytes(tag, v).value + rest) == Map.TcapFields(v, BLANK_MAP)
  {
    hide TlvBytes, TakeTlv, Map.TcapFields;
    TlvRoundTrip(tag, v, rest);
    NotEmpty(tag, v, rest);
  }

  /** How repeated arguments are read, once the IMSI has been taken: further octet strings fill the fields
      that are still open, in order, and are then ignored; of two numbers of vectors the first counts, and
      of two cancel types the last. */
  lemma {:induction false} RepeatedArguments(v: Bytes, m: MapMessage)
    ensures var c := Map.Cursor(false, m);
            && Map.FieldStep(Map.UglReq, 0x04, v, c)
               == Success(if m.sgsnNumber.None? then c.(m := m.(sgsnNumber := Some(v)))
                          else if m.sgsnAddress.None? then c.(m := m.(sgsnAddress := Some(v))) else c)
            && Map.FieldStep(Map.PurgeReq, 0x04, v, c)
               == Success(if m.sgsnNumber.None? then c.(m := m.(sgsnNumber := Some(v))) else c)
            && Map.FieldStep(Map.InsertReq, 0x04, v, c)
               == Success(if m.msisdn.None? then c.(m := m.(msisdn := Some(v))) else c)
            && Map.FieldStep(Map.UglRes, 0x04, v, c)
               == Success(if m.hlrNumber.None? then c.(m := m.(hlrNumber := Some(v))) else c)
            && Map.FieldStep(Map.PurgeRes, 0x05, v, c) == Success(c.(m := m.(freezePtmsi := true)))
            && (m.numRequestedVectors.Some? ==> Map.FieldStep(Map.SaiReq, 0x02, v, c) == Success(c))
            && (IntValue(v).Success? ==>
                  && Map.FieldStep(Map.CancelReq, 0x02, v, c)
                     == Success(c.(m := m.(cancelType := Some(Map.Low8(IntValue(v).value)))))
                  && (m.numRequestedVectors.None? ==>
                        Map.FieldStep(Map.SaiReq, 0x02, v, c)
                        == Success(c.(m := m.(numRequestedVectors := Some(Map.Low8(IntValue(v).value)))))))
  {
    hide IntValue, Map.Low8;
  }

  /** Every component and every dialogue field is read, each on top of the one before. */
  lemma {:induction false} EveryComponentRead(tag: Byte, v: Bytes, rest: Bytes, m: MapMessage)
    requires |v| <= 0xFFFF
    ensures var r := Map.DecodedComponent(tag, v, m);
            Map.Components(TlvBytes(tag, v).value + rest, m)
            == if r.Failure? then Failure else Map.Components(rest, r.value)
    ensures var r := Map.Components(v, m);
            Map.TcapFields(TlvBytes(0x6C, v).value + rest, m)
            == if r.Failure? then Failure else Map.TcapFields(rest, r.value)
  {
    hide TlvBytes, TakeTlv, Map.DecodedComponent;
    TlvRoundTrip(tag, v, rest);
    TlvRoundTrip(0x6C, v, rest);
    NotEmpty(tag, v, rest);
    NotEmpty(0x6C, v, rest);
  }

  /** A component without an invoke id, or with nothing after it, is refused. */
  lemma {:induction false} CutOffComponents(tag: Byte, idTag: Byte, id: Bytes, m: MapMessage)
    requires (tag == 0xA1 || tag == 0xA2 || tag == 0xA3) && |id| <= 0xFFFF
    ensures Map.DecodedComponent(tag, [], m) == Failure
    ensures Map.DecodedComponent(tag, TlvBytes(idTag, id).value, m) == Failure
  {
    hide TlvBytes, TakeTlv, IntValue;
    TlvRoundTrip(idTag, id, []);
    var s := TlvBytes(idTag, id).value;
    assert s + [] == s;
    Refusals([]);
  }

  /** Among vectors only SEQUENCEs count, and within one only OCTET STRINGs. */
  lemma {:induction false} OnlySequencesAndStrings(tag: Byte, v: Bytes, rest: Bytes, m: MapMessage, found: seq<Bytes>)
    requires |v| <= 0xFFFF
    ensures tag != 0x30 ==> Map.Vectors(TlvBytes(tag, v).value + rest, m) == Map.Vectors(rest, m)
    ensures tag != 0x04 ==> Map.OctetStrings(TlvBytes(tag, v).value + rest, found) == Map.OctetStrings(rest, found)
    ensures Map.OctetStrings(TlvBytes(0x04, v).value + rest, found) == Map.OctetStrings(rest, found + [v])
  {
    hide TlvBytes, TakeTlv;
    TlvRoundTrip(tag, v, rest);
    TlvRoundTrip(0x04, v, rest);
    NotEmpty(tag, v, rest);
    NotEmpty(0x04, v, rest);
  }

  /** Arguments may be missing altogether. If present, their outer tag is looked at by SendAuthenticationInfo
      only, which reads nothing from another; and DeleteSubscriberData reads at most a first IMSI. */
  lemma {:induction false} OuterArguments(k: Map.Layout, tag: Byte, v: Bytes, rest: Bytes, m: MapMessage)
    requires |v| <= 0xFFFF
    ensures Map.DecodedArgs(k, [], m) == Success(m) && Map.DecodedDelete([], m) == Success(m)
    ensures Map.DecodedArgs(k, TlvBytes(tag, v).value + rest, m)
         == if k.SaiReq? && tag != 0x30 then Success(m) else Map.Fields(k, v, Map.Cursor(true, m))
    ensures Map.DecodedDelete(TlvBytes(tag, v).value + rest, m)
         == if v == [] then Success(m)
            else if TakeTlv(v).Failure? then Failure
            else if TakeTlv(v).value.tag != 0x04 || m.imsi != "" then Success(m)
            else if UnpackImsi(TakeTlv(v).value.value).Failure? then Failure
            else Success(m.(imsi := UnpackImsi(TakeTlv(v).value.value).value))
  {
    hide TlvBytes, TakeTlv, Map.Fields, UnpackImsi;
    TlvRoundTrip(tag, v, rest);
    NotEmpty(tag, v, rest);
  }

  /** The size limits of the two stream decoders. */
  lemma {:induction false} StreamLimits(b: Bytes)
    ensures |b| >= 8 && FromBE32(b[4..8]) > 65536 ==> M3uaStream.M3uaCut(b) == Stream.Bad
    ensures |b| >= 8 && |b| < FromBE32(b[4..8]) <= 65536 ==> M3uaStream.M3uaCut(b) == Stream.NeedMore
    ensures |b| < 8 ==> M3uaStream.M3uaCut(b) == Stream.NeedMore
    ensures |b| < 3 ==> Ipa.IpaCut(b) == Stream.NeedMore
    ensures |b| >= 3 && (Word(b[0], b[1]) == 0 || Word(b[0], b[1]) > 4096) ==> Ipa.IpaCut(b) == Stream.Bad
    ensures |b| >= 3 && 1 <= Word(b[0], b[1]) <= 4096 ==>
              Ipa.IpaCut(b) == if |b| < 2 + (Word(b[0], b[1]) as int) then Stream.NeedMore
                               else Stream.Frame(2 + (Word(b[0], b[1]) as int))
  {
    hide FromBE32, M3ua.Decoded, Word;
  }
}

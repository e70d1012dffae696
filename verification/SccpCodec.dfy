/** SCCP unitdata (UDT) and its party addresses, after section 3.5 and table 16 of ITU-T Q.713. */
module SccpCodec {
  import opened Basics
  import opened Buffer
  import opened Bcd

  const MSG_UDT: Byte := 0x09
  const AI_ROUTE_BY_SSN: Byte := 0x80
  const AI_SSN_PRESENT: Byte := 0x08
  const AI_GT_FORMAT_4: Byte := 0x40
  const NP_ISDN: Byte := 0x10
  const NAI_INTERNATIONAL: Byte := 0x04
  const TT_INTERNATIONAL: Byte := 0x00

  datatype SccpAddress = SccpAddress(
    routeByGt: bool, digits: string, tt: Byte, np: Byte, nai: Byte,
    ssnPresent: bool, ssn: Byte, pcPresent: bool, pc: U32)

  /** A default-constructed address. */
  const BLANK_ADDRESS := SccpAddress(true, "", TT_INTERNATIONAL, NP_ISDN, NAI_INTERNATIONAL, false, 0, false, 0)

  datatype SccpUdt = SccpUdt(protocolClass: Byte, called: SccpAddress, calling: SccpAddress, data: Bytes)

  /** Sets one bit of an octet. */
  function WithBit(b: Byte, bit: Byte): Byte
    requires bit == 0x01 || bit == 0x02 || bit == 0x08 || bit == 0x80
  {
    if b / bit % 2 == 1 then b else b + bit
  }

  predicate HasBit(b: Byte, bit: Byte)
    requires bit > 0
  {
    b / bit % 2 == 1
  }

  // --------------------------------------------------------------- addresses

  predicate Odd(d: string) { |d| % 2 == 1 }

  /** Format 4: translation type, numbering plan and encoding scheme, nature of address, digits. */
  function EncodedGt(a: SccpAddress): Bytes {
    [a.tt, WithBit(a.np, if Odd(a.digits) then 1 else 2), if Odd(a.digits) then WithBit(a.nai, 0x80) else a.nai]
    + PackBcd(a.digits)
  }

  function EncodedAddress(a: SccpAddress): Bytes {
    if a.routeByGt then
      (if a.ssnPresent then [AI_GT_FORMAT_4 + AI_SSN_PRESENT, a.ssn] else [AI_GT_FORMAT_4]) + EncodedGt(a)
    else
      [AI_ROUTE_BY_SSN + AI_SSN_PRESENT + if a.pcPresent then 1 else 0]
      + (if a.ssnPresent then [a.ssn] else [])
      + (if a.pcPresent then [a.pc % 0x100, a.pc / 0x100 % 0x40] else [])
  }

  /** Any nibble is turned into a character; the last high nibble is filler if `odd`. */
  function UnpackGt(bcd: Bytes, odd: bool): string {
    if bcd == [] then ""
    else if |bcd| == 1 && odd then [Digit(bcd[0] % 16)]
    else [Digit(bcd[0] % 16), Digit(bcd[0] / 16)] + UnpackGt(bcd[1..], odd)
  }

  function DecodedGt(s: Bytes, a: SccpAddress): Result<SccpAddress> {
    if |s| < 3 then Failure
    else Success(a.(tt := s[0], np := s[1] / 16 * 16, nai := s[2] % 0x80, digits := UnpackGt(s[3..], HasBit(s[2], 0x80))))
  }

  /** The point code is not read back. */
  function DecodedAddress(s: Bytes): Result<SccpAddress> {
    if |s| < 1 then Failure
    else
      var ai := s[0];
      var a := BLANK_ADDRESS.(routeByGt := !HasBit(ai, AI_ROUTE_BY_SSN), ssnPresent := HasBit(ai, AI_SSN_PRESENT));
      if a.ssnPresent && |s| < 2 then Failure
      else
        var a1 := if a.ssnPresent then a.(ssn := s[1]) else a;
        if ai / 16 % 8 == 4 then DecodedGt(s[if a.ssnPresent then 2 else 1..], a1) else Success(a1)
  }

  method UnpackBcd(bcd: Bytes, odd: bool) returns (digits: string)
    ensures digits == UnpackGt(bcd, odd)
  {
    digits := "";
    for i := 0 to |bcd|
      invariant UnpackGt(bcd, odd) == digits + UnpackGt(bcd[i..], odd)
    {
      assert bcd[i..][1..] == bcd[i + 1..];
      digits := digits + [Digit(bcd[i] % 16)];
      var hi: Byte := bcd[i] / 16;
      if i + 1 == |bcd| && odd { break; }
      digits := digits + [Digit(hi)];
    }
  }

  method WriteGt(w: BufferWriter, a: SccpAddress)
    modifies w
    ensures w.buf == old(w.buf) + EncodedGt(a)
  {
    hide PackBcd, WithBit;
    var bcd := Pack(a.digits);
    var odd := |a.digits| % 2 != 0;
    var es: Byte := if odd then 1 else 2;
    var nai := a.nai;
    if odd { nai := WithBit(nai, 0x80); }
    w.Write8(a.tt);
    w.Write8(WithBit(a.np, es));
    w.Write8(nai);
    assert w.buf == old(w.buf) + [a.tt, WithBit(a.np, es), nai];
    w.WriteBytes(bcd);
  }

  method EncodeAddress(a: SccpAddress) returns (r: Bytes)
    ensures r == EncodedAddress(a)
  {
    hide EncodedGt;
    var w := new BufferWriter();
    if a.routeByGt {
      var ai := AI_GT_FORMAT_4;
      if a.ssnPresent { ai := ai + AI_SSN_PRESENT; }
      w.Write8(ai);
      if a.ssnPresent { w.Write8(a.ssn); }
      assert w.buf == if a.ssnPresent then [ai, a.ssn] else [ai];
      WriteGt(w, a);
    } else {
      var ai := AI_ROUTE_BY_SSN + AI_SSN_PRESENT;
      if a.pcPresent { ai := ai + 1; }
      w.Write8(ai);
      if a.ssnPresent { w.Write8(a.ssn); }
      ghost var front := w.buf;
      if a.pcPresent {
        w.Write8(a.pc % 0x100);
        w.Write8(a.pc / 0x100 % 0x40);
        assert w.buf == front + [a.pc % 0x100, a.pc / 0x100 % 0x40];
      }
    }
    return w.buf;
  }

  method DecodeGt(r: BufferReader, a: SccpAddress) returns (res: Result<SccpAddress>)
    requires r.Valid()
    modifies r`pos
    ensures res == DecodedGt(old(r.Rest()), a)
  {
    hide UnpackGt;
    ghost var s := r.Rest();
    var tt :- r.Read8();
    var npEs :- r.Read8();
    var naiRaw :- r.Read8();
    var odd := HasBit(naiRaw, 0x80);
    var n := r.Remaining();
    var bcd := r.ReadBytes(n);
    assert bcd.value == s[3..];
    var digits := UnpackBcd(bcd.value, odd);
    return Success(a.(tt := tt, np := npEs / 16 * 16, nai := naiRaw % 0x80, digits := digits));
  }

  method DecodeAddress(s: Bytes) returns (res: Result<SccpAddress>)
    ensures res == DecodedAddress(s)
  {
    hide DecodedGt;
    var r := new BufferReader(s);
    var ai :- r.Read8();
    var a := BLANK_ADDRESS.(routeByGt := !HasBit(ai, AI_ROUTE_BY_SSN));
    var hasSsn := HasBit(ai, AI_SSN_PRESENT);
    var gti := ai / 16 % 8;
    a := a.(ssnPresent := hasSsn);
    if hasSsn {
      var ssn :- r.Read8();
      a := a.(ssn := ssn);
    }
    assert r.Rest() == s[if hasSsn then 2 else 1..];
    if gti == 4 {
      res := DecodeGt(r, a);
    } else {
      res := Success(a);
    }
  }

  // ---------------------------------------------------------------- unitdata

  /** Each pointer counts from its own octet to the length octet of its part; pointers and lengths
      are cut to eight bits. */
  function EncodedUdt(u: SccpUdt): Bytes {
    var called, calling := EncodedAddress(u.called), EncodedAddress(u.calling);
    [MSG_UDT, u.protocolClass, 3, (3 + |called|) % 0x100, (3 + |called| + |calling|) % 0x100]
    + [|called| % 0x100] + called + [|calling| % 0x100] + calling + [|u.data| % 0x100] + u.data
  }

  /** The part whose length octet the pointer at index `from` points to. */
  function Part(raw: Bytes, from: nat): Result<Bytes>
    requires from < |raw|
  {
    var at: nat := from + (raw[from] as int);
    if at >= |raw| || at + 1 + raw[at] > |raw| then Failure else Success(raw[at + 1..at + 1 + raw[at]])
  }

  function DecodedUdt(raw: Bytes): Result<SccpUdt> {
    if |raw| < 5 || raw[0] != MSG_UDT then Failure
    else
      var calledBytes :- Part(raw, 2);
      var called :- DecodedAddress(calledBytes);
      var callingBytes :- Part(raw, 3);
      var calling :- DecodedAddress(callingBytes);
      var data :- Part(raw, 4);
      Success(SccpUdt(raw[1], called, calling, data))
  }

  method EncodeUdt(u: SccpUdt) returns (r: Bytes)
    ensures r == EncodedUdt(u)
  {
    hide EncodedAddress;
    var called := EncodeAddress(u.called);
    var calling := EncodeAddress(u.calling);
    var ptr1: Byte := 3;
    var ptr2 := (3 + |called|) % 0x100;
    var ptr3 := (3 + |called| + |calling|) % 0x100;
    var w := new BufferWriter();
    w.Write8(MSG_UDT);
    w.Write8(u.protocolClass);
    w.Write8(ptr1);
    w.Write8(ptr2);
    w.Write8(ptr3);
    assert w.buf == [MSG_UDT, u.protocolClass, ptr1, ptr2, ptr3];
    w.Write8(|called| % 0x100);
    w.WriteBytes(called);
    w.Write8(|calling| % 0x100);
    w.WriteBytes(calling);
    w.Write8(|u.data| % 0x100);
    w.WriteBytes(u.data);
    return w.buf;
  }

  /** An address that overruns the message is a failure here; the source does not check for it. */
  method DecodeUdt(raw: Bytes) returns (res: Result<SccpUdt>)
    ensures res == DecodedUdt(raw)
  {
    hide DecodedAddress, Part, BufferReader.Rest;
    if |raw| < 5 { return Failure; }
    var r := new BufferReader(raw);
    Window(r, 1);
    var msgType := r.Read8();
    if msgType.value != MSG_UDT { return Failure; }
    Window(r, 1);
    var protoClass := r.Read8();
    var ptr1Pos := r.pos;
    Window(r, 1);
    var ptr1 := r.Read8();
    var ptr2Pos := r.pos;
    Window(r, 1);
    var ptr2 := r.Read8();
    var ptr3Pos := r.pos;
    Window(r, 1);
    var ptr3 := r.Read8();
    var calledBytes :- TakePart(raw, ptr1Pos, ptr1.value);
    var called :- DecodeAddress(calledBytes);
    var callingBytes :- TakePart(raw, ptr2Pos, ptr2.value);
    var calling :- DecodeAddress(callingBytes);
    var data :- TakePart(raw, ptr3Pos, ptr3.value);
    return Success(SccpUdt(protoClass.value, called, calling, data));
  }

  method TakePart(raw: Bytes, from: nat, pointer: Byte) returns (r: Result<Bytes>)
    requires from < |raw| && pointer == raw[from]
    ensures r == Part(raw, from)
  {
    var at := from + pointer;
    if at >= |raw| { return Failure; }
    var len := raw[at];
    if at + 1 + len > |raw| { return Failure; }
    return Success(raw[at + 1..at + 1 + len]);
  }

  function MakeGtAddress(digits: string, ssn: Byte, hasSsn: bool): SccpAddress {
    BLANK_ADDRESS.(digits := digits, ssnPresent := hasSsn, ssn := if hasSsn then ssn else 0)
  }
}

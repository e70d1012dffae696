/** What survives an SCCP unitdata message: addresses and user data. */
module SccpRoundTrip {
  import opened Basics
  import opened Bcd
  import opened SccpCodec

  /** The characters that stand for a nibble. */
  predicate IsNibbleChar(c: char) { '0' <= c <= '?' }

  predicate NibbleDigits(d: string) { forall i :: 0 <= i < |d| ==> IsNibbleChar(d[i]) }

  lemma {:induction false} NibbleOctet(a: char, b: char)
    requires IsNibbleChar(a) && IsNibbleChar(b)
    ensures var o := PackPair(Nibble(a), Nibble(b)); Digit(o % 16) == a && Digit(o / 16) == b
    ensures Digit(PackPair(Nibble(a), 0x0F) % 16) == a
  {
    hide *;
    NibbleIs(a);
    NibbleIs(b);
    PackedPair(Nibble(a), Nibble(b));
    PackedPair(Nibble(a), 0x0F);
    OctetParts(Nibble(a), Nibble(b), PackPair(Nibble(a), Nibble(b)));
    OctetParts(Nibble(a), 0x0F, PackPair(Nibble(a), 0x0F));
  }

  lemma {:induction false} NibbleIs(c: char)
    requires IsNibbleChar(c)
    ensures Nibble(c) < 16 && Digit(Nibble(c)) == c
  {
  }

  lemma {:induction false} OctetParts(lo: Byte, hi: Byte, octet: Byte)
    requires lo < 16 && hi < 16 && octet == hi * 16 + lo
    ensures octet % 16 == lo && octet / 16 == hi
  {
  }

  lemma {:induction false} GtDigitsBack(d: string)
    requires NibbleDigits(d)
    ensures UnpackGt(PackBcd(d), Odd(d)) == d
  {
    hide PackPair, Nibble, Digit;
    if |d| == 1 {
      NibbleOctet(d[0], d[0]);
    } else if |d| >= 2 {
      NibbleOctet(d[0], d[1]);
      GtDigitsBack(d[2..]);
      assert PackBcd(d)[1..] == PackBcd(d[2..]);
      assert d == [d[0], d[1]] + d[2..];
      if |d| == 2 { assert d[2..] == ""; }
    }
  }

  lemma {:induction false} UnpackedAreNibbles(bcd: Bytes, odd: bool)
    ensures NibbleDigits(UnpackGt(bcd, odd))
  {
    if bcd != [] { UnpackedAreNibbles(bcd[1..], odd); }
  }

  /** The global titles that the wire can carry: decimal ones among them, one with a plus sign not. */
  predicate Carriable(a: SccpAddress) {
    && NibbleDigits(a.digits) && a.np % 16 == 0 && a.nai < 0x80
    && (!a.ssnPresent ==> a.ssn == 0) && !a.pcPresent && a.pc == 0
  }

  lemma {:induction false} SchemeBitsBack(b: Byte)
    ensures WithBit(b, 1) / 16 * 16 == b / 16 * 16 && WithBit(b, 2) / 16 * 16 == b / 16 * 16
  {
    var q, r := b / 16, b % 16;
    assert b % 2 == r % 2 && b / 2 % 2 == r / 2 % 2;
    assert r % 2 == 0 ==> (b + 1) / 16 == q;
    assert r / 2 % 2 == 0 ==> (b + 2) / 16 == q;
  }

  lemma {:induction false} OddFlagBack(b: Byte)
    ensures WithBit(b, 0x80) % 0x80 == b % 0x80 && HasBit(WithBit(b, 0x80), 0x80)
    ensures b < 0x80 <==> !HasBit(b, 0x80)
  {
  }

  /** What a receiver reads of a global title. */
  lemma {:induction false} GtRead(a: SccpAddress, blank: SccpAddress)
    ensures var r := DecodedGt(EncodedGt(a), blank);
            && r.Success?
            && r.value == blank.(tt := a.tt, np := a.np / 16 * 16, nai := a.nai % 0x80, digits := r.value.digits)
            && NibbleDigits(r.value.digits)
            && (NibbleDigits(a.digits) && (Odd(a.digits) || a.nai < 0x80) ==> r.value.digits == a.digits)
  {
    hide PackBcd, UnpackGt, WithBit, HasBit;
    SchemeBitsBack(a.np);
    OddFlagBack(a.nai);
    var s := EncodedGt(a);
    assert s[3..] == PackBcd(a.digits);
    UnpackedAreNibbles(s[3..], HasBit(s[2], 0x80));
    if NibbleDigits(a.digits) { GtDigitsBack(a.digits); }
  }

  /** A global title address always decodes; to itself if and only if the wire can carry it. */
  lemma {:induction false} AddressRoundTripExact(a: SccpAddress)
    requires a.routeByGt
    ensures DecodedAddress(EncodedAddress(a)).Success?
    ensures DecodedAddress(EncodedAddress(a)) == Success(a) <==> Carriable(a)
  {
    hide EncodedGt, DecodedGt, NibbleDigits;
    var s := EncodedAddress(a);
    assert s[if a.ssnPresent then 2 else 1..] == EncodedGt(a);
    var blank := BLANK_ADDRESS.(ssnPresent := a.ssnPresent, ssn := if a.ssnPresent then a.ssn else 0);
    GtRead(a, blank);
    assert DecodedAddress(s) == DecodedGt(EncodedGt(a), blank);
  }

  /** The addresses that decode at all: only one without title, subsystem and point code does not. */
  lemma {:induction false} AddressDecodes(a: SccpAddress)
    ensures DecodedAddress(EncodedAddress(a)).Success? <==> a.routeByGt || a.ssnPresent || a.pcPresent
  {
    if a.routeByGt { AddressRoundTripExact(a); }
    hide DecodedGt, EncodedGt;
  }

  /** The three pointers fit one octet each. */
  predicate PointersFit(u: SccpUdt) {
    3 + |EncodedAddress(u.called)| + |EncodedAddress(u.calling)| <= 0xFF
  }

  /** What an eight-bit length keeps of a value. */
  function Truncated(v: Bytes): Bytes { v[..|v| % 0x100] }

  lemma {:induction false} TruncatedKeeps(v: Bytes)
    ensures Truncated(v) == v <==> |v| <= 0xFF
  {
  }

  lemma {:induction false} PartIs(raw: Bytes, from: nat, front: Bytes, v: Bytes, rest: Bytes)
    requires from < |raw| && raw == front + [|v| % 0x100] + v + rest && |front| == from + raw[from]
    ensures Part(raw, from) == Success(Truncated(v))
  {
    var n := |v| % 0x100;
    assert raw[|front|] == n;
    assert raw[|front| + 1..|front| + 1 + n] == v[..n];
  }

  lemma {:induction false} PartsAre(h: Bytes, called: Bytes, calling: Bytes, data: Bytes, raw: Bytes)
    requires |h| == 5 && h[2] == 3 && h[3] == 3 + |called| && h[4] == 3 + |called| + |calling|
    requires raw == h + [|called| % 0x100] + called + [|calling| % 0x100] + calling + [|data| % 0x100] + data
    ensures Part(raw, 2) == Success(Truncated(called))
    ensures Part(raw, 3) == Success(Truncated(calling))
    ensures Part(raw, 4) == Success(Truncated(data))
  {
    hide Part, Truncated;
    var a, b, c: Byte := |called| % 0x100, |calling| % 0x100, |data| % 0x100;
    var toCalling := h + [a] + called;
    var toData := toCalling + [b] + calling;
    assert raw[..5] == h;
    var afterCalled := [b] + calling + [c] + data;
    assert raw == h + [a] + called + afterCalled;
    PartIs(raw, 2, h, called, afterCalled);
    assert raw == toCalling + [b] + calling + ([c] + data);
    PartIs(raw, 3, toCalling, calling, [c] + data);
    assert raw == toData + [c] + data + [];
    PartIs(raw, 4, toData, data, []);
  }

  /** The user data arrives whatever the addresses are, cut to its length modulo 256: unchanged if
      and only if it has at most 255 octets. */
  lemma {:induction false} UdtExact(u: SccpUdt)
    requires PointersFit(u)
    ensures var r, called, calling := DecodedUdt(EncodedUdt(u)), DecodedAddress(EncodedAddress(u.called)),
                                      DecodedAddress(EncodedAddress(u.calling));
            && (r.Success? <==> called.Success? && calling.Success?)
            && (r.Success? ==> r.value == SccpUdt(u.protocolClass, called.value, calling.value, Truncated(u.data)))
    ensures DecodedUdt(EncodedUdt(u)).Success? ==>
              (DecodedUdt(EncodedUdt(u)).value.data == u.data <==> |u.data| <= 0xFF)
  {
    hide EncodedAddress, DecodedAddress, Part, Truncated;
    var called, calling := EncodedAddress(u.called), EncodedAddress(u.calling);
    var raw := EncodedUdt(u);
    var h := [MSG_UDT, u.protocolClass, 3, 3 + |called|, 3 + |called| + |calling|];
    PartsAre(h, called, calling, u.data, raw);
    TruncatedKeeps(called);
    TruncatedKeeps(calling);
    TruncatedKeeps(u.data);
  }
}

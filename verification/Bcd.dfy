/** Packed BCD digit strings: two digits per octet, the first in the low nibble, 0xF as filler. */
module Bcd {
  import opened Basics

  predicate AllDigits(d: string) {
    forall i :: 0 <= i < |d| ==> '0' <= d[i] <= '9'
  }

  /** `static_cast<uint8_t>(c - '0')`, whatever the character. */
  function Nibble(c: char): Byte { (c as int - 48) % 0x100 }

  /** Bitwise OR of two four-bit values. */
  function OrNibble(a: int, b: int): (r: Byte)
    requires 0 <= a < 16 && 0 <= b < 16
    ensures r < 16
    ensures b == 0 ==> r == a
  {
    (if a / 8 == 1 || b / 8 == 1 then 8 else 0)
    + (if a / 4 % 2 == 1 || b / 4 % 2 == 1 then 4 else 0)
    + (if a / 2 % 2 == 1 || b / 2 % 2 == 1 then 2 else 0)
    + (if a % 2 == 1 || b % 2 == 1 then 1 else 0)
  }

  /** The octet `(hi << 4) | lo`, truncated to eight bits. */
  function PackPair(lo: Byte, hi: Byte): Byte {
    OrNibble(hi % 16, lo / 16) * 16 + lo % 16
  }

  /** What the packing loops of the three codecs compute. */
  function PackBcd(d: string): (r: Bytes)
    ensures |r| == (|d| + 1) / 2
  {
    if d == "" then []
    else if |d| == 1 then [PackPair(Nibble(d[0]), 0x0F)]
    else [PackPair(Nibble(d[0]), Nibble(d[1]))] + PackBcd(d[2..])
  }

  method Pack(digits: string) returns (out: Bytes)
    ensures out == PackBcd(digits)
  {
    out := [];
    var i := 0;
    while i < |digits|
      invariant i <= |digits| + 1
      invariant out + PackBcd(digits[if i < |digits| then i else |digits|..]) == PackBcd(digits)
    {
      var lo := Nibble(digits[i]);
      var hi: Byte := if i + 1 < |digits| then Nibble(digits[i + 1]) else 0x0F;
      ghost var tail := digits[i..];
      if i + 1 < |digits| {
        assert tail[2..] == digits[i + 2..];
      }
      out := out + [PackPair(lo, hi)];
      i := i + 2;
    }
  }

  function Digit(n: Byte): char requires n < 16 { (48 + n) as char }

  function Prefixed(p: string, r: Result<string>): Result<string> {
    if r.Failure? then Failure else Success(p + r.value)
  }

  /** The digits one octet stands for: none if a nibble is no digit, one if the high nibble is the filler. */
  function OctetDigits(b: Byte): Result<string> {
    var lo: Byte, hi: Byte := b % 16, b / 16;
    if lo > 9 then Failure
    else if hi == 15 then Success([Digit(lo)])
    else if hi > 9 then Failure
    else Success([Digit(lo), Digit(hi)])
  }

  function UnpackImsi(bcd: Bytes): Result<string> {
    if bcd == [] then Success("")
    else
      var d :- OctetDigits(bcd[0]);
      Prefixed(d, UnpackImsi(bcd[1..]))
  }

  method BcdToImsi(bcd: Bytes) returns (r: Result<string>)
    ensures r == UnpackImsi(bcd)
  {
    var out := "";
    assert bcd[0..] == bcd;
    ghost var all := UnpackImsi(bcd);
    assert all.Success? ==> "" + all.value == all.value;
    for i := 0 to |bcd|
      invariant UnpackImsi(bcd) == Prefixed(out, UnpackImsi(bcd[i..]))
    {
      assert bcd[i..][0] == bcd[i] && bcd[i..][1..] == bcd[i + 1..];
      var lo: Byte, hi: Byte := bcd[i] % 16, bcd[i] / 16;
      if lo > 9 { return Failure; }
      ghost var before := out;
      out := out + [Digit(lo)];
      if hi != 0x0F {
        if hi > 9 { return Failure; }
        out := out + [Digit(hi)];
      }
      ghost var rest := UnpackImsi(bcd[i + 1..]);
      assert rest.Success? ==> before + (OctetDigits(bcd[i]).value + rest.value) == out + rest.value;
    }
    assert out + "" == out;
    return Success(out);
  }

  lemma {:induction false} PackedPair(lo: Byte, hi: Byte)
    requires lo < 16 && hi < 16
    ensures PackPair(lo, hi) == hi * 16 + lo
  {
    assert OrNibble(hi % 16, lo / 16) == hi;
  }

  lemma {:induction false} OctetOfDigits(lo: Byte, hi: Byte, octet: Byte)
    requires lo <= 9 && hi < 16 && octet == hi * 16 + lo
    ensures hi <= 9 ==> OctetDigits(octet) == Success([Digit(lo), Digit(hi)])
    ensures hi == 15 ==> OctetDigits(octet) == Success([Digit(lo)])
  {
    assert octet % 16 == lo && octet / 16 == hi;
  }

  lemma {:induction false} NibbleBack(c: char)
    requires '0' <= c <= '9'
    ensures Nibble(c) <= 9 && Digit(Nibble(c)) == c
  {
  }

  lemma {:induction false} PairBack(a: char, b: char)
    requires '0' <= a <= '9' && '0' <= b <= '9'
    ensures OctetDigits(PackPair(Nibble(a), Nibble(b))) == Success([a, b])
    ensures OctetDigits(PackPair(Nibble(a), 0x0F)) == Success([a])
  {
    hide *;
    NibbleBack(a);
    NibbleBack(b);
    PackedPair(Nibble(a), Nibble(b));
    PackedPair(Nibble(a), 0x0F);
    OctetOfDigits(Nibble(a), Nibble(b), PackPair(Nibble(a), Nibble(b)));
    OctetOfDigits(Nibble(a), 0x0F, PackPair(Nibble(a), 0x0F));
  }

  /** Packing then unpacking a decimal string of any length gives the string back. */
  lemma {:induction false} ImsiRoundTrip(d: string)
    requires AllDigits(d)
    ensures UnpackImsi(PackBcd(d)) == Success(d)
  {
    hide PackPair, OctetDigits, Nibble;
    if |d| == 0 {
    } else if |d| == 1 {
      PairBack(d[0], '0');
      assert d == [d[0]] + "";
    } else {
      PairBack(d[0], d[1]);
      ImsiRoundTrip(d[2..]);
      assert d == [d[0], d[1]] + d[2..];
      assert PackBcd(d)[1..] == PackBcd(d[2..]);
    }
  }

  /** Whatever octets arrive, an accepted IMSI is decimal and at most two digits per octet. */
  lemma {:induction false} UnpackedAreDigits(bcd: Bytes)
    ensures UnpackImsi(bcd).Success? ==> AllDigits(UnpackImsi(bcd).value) && |UnpackImsi(bcd).value| <= 2 * |bcd|
  {
    if bcd != [] {
      UnpackedAreDigits(bcd[1..]);
    }
  }
}

/** Basic Encoding Rules: definite lengths, TLVs and two's-complement integers. */
module Ber {
  import opened Basics
  import opened Buffer

  // ---------------------------------------------------------------- lengths

  function LengthBytes(n: nat): Result<Bytes> {
    if n <= 0x7F then Success([n])
    else if n <= 0xFF then Success([0x81, n])
    else if n <= 0xFFFF then Success([0x82, n / 0x100, n % 0x100])
    else Failure
  }

  method WriteLength(w: BufferWriter, len: nat) returns (st: Status)
    modifies w
    ensures st.Done? <==> LengthBytes(len).Success?
    ensures st.Done? ==> w.buf == old(w.buf) + LengthBytes(len).value
  {
    if len <= 0x7F {
      w.Write8(len);
    } else if len <= 0xFF {
      w.Write8(0x81);
      w.Write8(len);
    } else if len <= 0xFFFF {
      w.Write8(0x82);
      w.Write8(len / 0x100);
      w.Write8(len % 0x100);
    } else {
      return Thrown;
    }
    return Done;
  }

  /** The value of an octet string read as an unsigned number, most significant octet first. */
  function Unsigned(b: Bytes): nat {
    if b == [] then 0 else Unsigned(b[..|b| - 1]) * 0x100 + b[|b| - 1]
  }

  function TakeLength(s: Bytes): Result<(nat, Bytes)> {
    if s == [] then Failure
    else if s[0] <= 0x7F then Success((s[0], s[1..]))
    else if s[0] == 0x80 then Failure
    else
      var n: nat := s[0] - 0x80;
      if n > 4 || |s| < 1 + n then Failure
      else Success((Unsigned(s[1..1 + n]), s[1 + n..]))
  }

  method ReadLength(r: BufferReader) returns (n: Result<nat>)
    requires r.Valid()
    modifies r`pos
    ensures r.Valid()
    ensures n.Success? <==> TakeLength(old(r.Rest())).Success?
    ensures n.Success? ==> TakeLength(old(r.Rest())).value == (n.value, r.Rest())
  {
    ghost var s := r.Rest();
    var first :- r.Read8();
    if first <= 0x7F { return Success(first); }
    if first == 0x80 { return Failure; }
    var numBytes: nat := first - 0x80;
    if numBytes > 4 { return Failure; }
    var len: nat := 0;
    for i := 0 to numBytes
      invariant r.Valid()
      invariant 1 + i <= |s| && r.Rest() == s[1 + i..]
      invariant len == Unsigned(s[1..1 + i])
    {
      ghost var rest := r.Rest();
      var b :- r.Read8();
      assert |rest| == |s| - 1 - i && s[1..2 + i][..i] == s[1..1 + i];
      len := len * 0x100 + b;
    }
    return Success(len);
  }

  // ------------------------------------------------------------------- TLVs

  function TlvBytes(tag: Byte, value: Bytes): Result<Bytes> {
    var l :- LengthBytes(|value|);
    Success([tag] + l + value)
  }

  /** Both `writeTlv` and `wrapConstructed`: the source writes the two identically. */
  method WriteTlv(w: BufferWriter, tag: Byte, value: Bytes) returns (st: Status)
    modifies w
    ensures st.Done? <==> TlvBytes(tag, value).Success?
    ensures st.Done? ==> w.buf == old(w.buf) + TlvBytes(tag, value).value
    ensures st.Done? && old(w.buf) == [] ==> w.buf == TlvBytes(tag, value).value
  {
    w.Write8(tag);
    st := WriteLength(w, |value|);
    if st.Thrown? { return; }
    w.WriteBytes(value);
    assert w.buf == old(w.buf) + ([tag] + LengthBytes(|value|).value + value);
  }

  /** One TLV taken off the front of an octet string. */
  datatype Tlv = Tlv(tag: Byte, value: Bytes, rest: Bytes)

  function TakeTlv(s: Bytes): (r: Result<Tlv>)
    ensures r.Success? ==> |r.value.rest| < |s| && |r.value.value| < |s|
  {
    if s == [] then Failure
    else
      var l :- TakeLength(s[1..]);
      if |l.1| < l.0 then Failure else Success(Tlv(s[0], l.1[..l.0], l.1[l.0..]))
  }

  method ReadTlv(r: BufferReader) returns (t: Result<(Byte, Bytes)>)
    requires r.Valid()
    modifies r`pos
    ensures r.Valid()
    ensures t.Success? <==> TakeTlv(old(r.Rest())).Success?
    ensures t.Success? ==> TakeTlv(old(r.Rest())).value == Tlv(t.value.0, t.value.1, r.Rest())
  {
    var tag :- r.Read8();
    var len :- ReadLength(r);
    var out :- r.ReadBytes(len);
    return Success((tag, out));
  }

  /** A TLV is written exactly when its value has at most 65535 octets, and reading it back from
      in front of any suffix gives the tag and the value and leaves exactly the suffix. */
  lemma {:induction false} TlvRoundTrip(tag: Byte, value: Bytes, suffix: Bytes)
    ensures TlvBytes(tag, value).Success? <==> |value| <= 0xFFFF
    ensures |value| <= 0xFFFF ==> TakeTlv(TlvBytes(tag, value).value + suffix) == Success(Tlv(tag, value, suffix))
  {
    if |value| <= 0xFFFF {
      var n := |value|;
      var l := LengthBytes(n).value;
      var s := TlvBytes(tag, value).value + suffix;
      assert s[1..] == l + (value + suffix);
      LengthRoundTrip(n, value + suffix);
      assert (value + suffix)[..n] == value && (value + suffix)[n..] == suffix;
    }
  }

  lemma {:induction false} LengthRoundTrip(n: nat, suffix: Bytes)
    requires n <= 0xFFFF
    ensures TakeLength(LengthBytes(n).value + suffix) == Success((n, suffix))
  {
    var l := LengthBytes(n).value;
    var s := l + suffix;
    assert s[|l|..] == suffix && s[..|l|] == l;
    if 0x7F < n {
      var digits := l[1..];
      assert s[1..|l|] == digits;
      assert Unsigned(digits) == n by {
        if n <= 0xFF {
          assert digits == [n] && Unsigned([]) == 0 && digits[..0] == [];
        } else {
          assert digits[..1] == [n / 0x100] && digits[..1][..0] == [] && Unsigned([]) == 0;
          assert Unsigned(digits[..1]) == n / 0x100;
        }
      }
    }
  }

  // --------------------------------------------------------------- integers

  const INT64_LIMIT := 0x8000_0000_0000_0000
  type Int64 = x: int | -INT64_LIMIT <= x < INT64_LIMIT

  /** Two's-complement wrap-around of a 64-bit accumulator. */
  function Wrap64(x: int): Int64 {
    var u := x % 0x1_0000_0000_0000_0000;
    if u < INT64_LIMIT then u else u - 0x1_0000_0000_0000_0000
  }

  /** The contents octets of a BER INTEGER. */
  function IntBytes(v: int): (b: Bytes)
    ensures |b| >= 1
    decreases if v < 0 then -v else v
  {
    if -0x80 <= v < 0x80 then [v % 0x100] else IntBytes(v / 0x100) + [v % 0x100]
  }

  function Reversed(s: Bytes): Bytes {
    if s == [] then [] else [s[|s| - 1]] + Reversed(s[..|s| - 1])
  }

  /** The base-256 digits of a number; none for zero. */
  function Magnitude(v: nat): Bytes {
    if v == 0 then [] else Magnitude(v / 0x100) + [v % 0x100]
  }

  lemma {:induction false} MagnitudeIsIntBytes(v: nat)
    requires v > 0
    ensures Magnitude(v) != []
    ensures IntBytes(v) == (if Magnitude(v)[0] >= 0x80 then [0] else []) + Magnitude(v)
  {
    if v < 0x100 {
      assert Magnitude(v) == Magnitude(0) + [v] == [v];
      if v >= 0x80 { assert IntBytes(v) == IntBytes(0) + [v]; }
    } else {
      MagnitudeIsIntBytes(v / 0x100);
      assert Magnitude(v)[0] == Magnitude(v / 0x100)[0];
      assert IntBytes(v) == IntBytes(v / 0x100) + [v % 0x100];
    }
  }

  lemma {:induction false} ReversedSnoc(s: Bytes, x: Byte)
    ensures Reversed(s + [x]) == [x] + Reversed(s)
  {
    assert (s + [x])[..|s|] == s;
  }

  /** The octets still to come in front of those already produced, in the negative branch. */
  function Pending(tmp: int, last: Byte): Bytes {
    if tmp == -1 && last >= 0x80 then [] else IntBytes(tmp)
  }

  lemma {:induction false} NegativeStep(v: int)
    requires v < 0
    ensures IntBytes(v) == Pending(v / 0x100, v % 0x100) + [v % 0x100]
  {
    if -0x80 <= v {
      assert v / 0x100 == -1 && v % 0x100 == v + 0x100;
    }
  }

  lemma {:induction false} NegativeLoop(v: int, be: Bytes)
    requires v < 0
    ensures IntBytes(v) + Reversed(be) == Pending(v / 0x100, v % 0x100) + Reversed(be + [v % 0x100])
  {
    NegativeStep(v);
    ReversedSnoc(be, v % 0x100);
  }

  lemma {:induction false} PositiveLoop(v: nat, be: Bytes)
    requires v > 0
    ensures Magnitude(v) + Reversed(be) == Magnitude(v / 0x100) + Reversed(be + [v % 0x100])
  {
    ReversedSnoc(be, v % 0x100);
  }

  method EncodeInt(value: Int64) returns (be: Bytes)
    ensures be == IntBytes(value)
  {
    if value == 0 { return [0]; }
    if value < 0 {
      be := EncodeNegative(value);
    } else {
      be := EncodePositive(value);
    }
  }

  /** The `do ... while` of the negative branch, on an arithmetic right shift. */
  method EncodeNegative(value: int) returns (be: Bytes)
    requires value < 0
    ensures be == IntBytes(value)
  {
    NegativeStep(value);
    var last: Byte := value % 0x100;
    be := [last];
    var tmp := value / 0x100;
    ReversedSnoc([], last);
    while tmp != -1 || last < 0x80
      invariant tmp < 0
      invariant IntBytes(value) == Pending(tmp, last) + Reversed(be)
      decreases -tmp, last < 0x80
    {
      NegativeLoop(tmp, be);
      last := tmp % 0x100;
      be := be + [last];
      tmp := tmp / 0x100;
    }
    be := Reversed(be);
  }

  method EncodePositive(value: nat) returns (be: Bytes)
    requires value > 0
    ensures be == IntBytes(value)
  {
    be := [];
    var uv := value;
    while uv > 0
      invariant Magnitude(value) == Magnitude(uv) + Reversed(be)
    {
      PositiveLoop(uv, be);
      be := be + [uv % 0x100];
      uv := uv / 0x100;
    }
    be := Reversed(be);
    MagnitudeIsIntBytes(value);
    if be[0] >= 0x80 { be := [0] + be; }
  }

  /** The accumulator loop of `decodeInt`; beyond eight octets the high ones fall off. */
  function Accumulate(b: Bytes): Int64 {
    if b == [] then 0
    else
      var high: int := Accumulate(b[..|b| - 1]);
      Wrap64(high * 0x100 + b[|b| - 1])
  }

  function Pow256(k: nat): (p: nat)
    ensures p >= 1
  {
    if k == 0 then 1 else 0x100 * Pow256(k - 1)
  }

  function IntValue(b: Bytes): Result<Int64> {
    if b == [] then Failure
    else if b[0] >= 0x80 && |b| < 8 then
      var acc: int := Accumulate(b);
      Success(Wrap64(acc - Pow256(|b|)))
    else Success(Accumulate(b))
  }

  method DecodeInt(value: Bytes) returns (r: Result<Int64>)
    ensures r == IntValue(value)
  {
    if value == [] { return Failure; }
    var result: Int64 := 0;
    for i := 0 to |value|
      invariant result == Accumulate(value[..i])
    {
      assert value[..i + 1][..i] == value[..i];
      var high: int := result;
      result := Wrap64(high * 0x100 + value[i]);
    }
    assert value[..|value|] == value;
    if value[0] >= 0x80 && |value| < 8 {
      var acc: int := result;
      result := Wrap64(acc - Pow256(|value|));
    }
    return Success(result);
  }

  /** The octets of `v` read as an unsigned number are `v`, or `v` plus a power when it is negative. */
  lemma {:induction false} IntBytesUnsigned(v: int)
    ensures Unsigned(IntBytes(v)) == if v < 0 then v + Pow256(|IntBytes(v)|) else v
    ensures IntBytes(v)[0] >= 0x80 <==> v < 0
    decreases if v < 0 then -v else v
  {
    var b := IntBytes(v);
    if -0x80 <= v < 0x80 {
      assert b[..0] == [] && Unsigned([]) == 0 && Pow256(1) == 0x100 * Pow256(0);
    } else {
      IntBytesUnsigned(v / 0x100);
      assert b[..|b| - 1] == IntBytes(v / 0x100);
    }
  }

  lemma {:induction false} IntBytesLength(v: int, k: nat)
    requires k >= 1 && -0x80 * Pow256(k - 1) <= v < 0x80 * Pow256(k - 1)
    ensures |IntBytes(v)| <= k
    decreases k
  {
    if !(-0x80 <= v < 0x80) {
      assert Pow256(0) == 1;
      IntBytesLength(v / 0x100, k - 1);
    }
  }

  lemma {:induction false} UnsignedBound(b: Bytes)
    ensures Unsigned(b) < Pow256(|b|)
  {
    if b != [] { UnsignedBound(b[..|b| - 1]); }
  }

  lemma {:induction false} Pow256Upto8()
    ensures Pow256(1) == 0x100 && Pow256(2) == 0x1_0000 && Pow256(3) == 0x100_0000
    ensures Pow256(4) == 0x1_0000_0000 && Pow256(5) == 0x100_0000_0000 && Pow256(6) == 0x1_0000_0000_0000
    ensures Pow256(7) == 0x100_0000_0000_0000 && Pow256(8) == 0x1_0000_0000_0000_0000
  {
    assert Pow256(2) == 0x100 * Pow256(1);
    assert Pow256(4) == 0x100 * Pow256(3);
    assert Pow256(6) == 0x100 * Pow256(5);
    assert Pow256(8) == 0x100 * Pow256(7);
  }

  lemma {:induction false} Pow256Mono(a: nat, b: nat)
    requires a <= b
    ensures Pow256(a) <= Pow256(b)
  {
    if a < b { Pow256Mono(a, b - 1); }
  }

  lemma {:induction false} AccumulateIsUnsigned(b: Bytes)
    requires |b| <= 7
    ensures Accumulate(b) == Unsigned(b)
  {
    if b != [] {
      AccumulateIsUnsigned(b[..|b| - 1]);
      UnsignedBound(b);
      Pow256Mono(|b|, 7);
      Pow256Upto8();
    }
  }

  /** The first nine bits of a minimal encoding are neither all zero nor all one (X.690, 8.3.2). */
  ghost predicate MinimalInteger(b: Bytes) {
    |b| > 1 ==> !(b[0] == 0 && b[1] < 0x80) && !(b[0] == 0xFF && b[1] >= 0x80)
  }

  lemma {:induction false} IntBytesMinimal(v: int)
    ensures MinimalInteger(IntBytes(v))
    decreases if v < 0 then -v else v
  {
    if !(-0x80 <= v < 0x80) {
      var high := IntBytes(v / 0x100);
      assert IntBytes(v) == high + [v % 0x100];
      IntBytesMinimal(v / 0x100);
      if |high| == 1 { assert high == [v / 0x100 % 0x100]; }
    }
  }

  lemma {:induction false} AccumulateOf8(b: Bytes)
    requires |b| == 8
    ensures Accumulate(b) == Wrap64(Unsigned(b))
  {
    AccumulateIsUnsigned(b[..7]);
  }

  lemma {:induction false} WrapInRange(v: Int64)
    ensures Wrap64(v) == v
  {
  }

  lemma {:induction false} ShortIntValue(v: Int64, b: Bytes)
    requires 1 <= |b| <= 7 && (b[0] >= 0x80 <==> v < 0)
    requires Unsigned(b) == if v < 0 then v + Pow256(|b|) else v
    ensures IntValue(b) == Success(v)
  {
    AccumulateIsUnsigned(b);
    WrapInRange(v);
  }

  lemma {:induction false} LongIntValue(v: Int64, b: Bytes)
    requires |b| == 8
    requires Unsigned(b) == if v < 0 then v + 0x1_0000_0000_0000_0000 else v
    ensures IntValue(b) == Success(v)
  {
    AccumulateOf8(b);
  }

  /** Every 64-bit integer survives encoding, in one to eight octets, minimally. */
  lemma {:induction false} IntRoundTrip(v: Int64)
    ensures 1 <= |IntBytes(v)| <= 8
    ensures MinimalInteger(IntBytes(v))
    ensures IntValue(IntBytes(v)) == Success(v)
  {
    Pow256Upto8();
    IntBytesLength(v, 8);
    IntBytesMinimal(v);
    IntBytesUnsigned(v);
    var b := IntBytes(v);
    if |b| <= 7 {
      ShortIntValue(v, b);
    } else {
      LongIntValue(v, b);
    }
  }
}

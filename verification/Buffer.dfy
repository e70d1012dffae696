/** The read cursor and the write buffer that every codec of the source is built on. */
module Buffer {
  import opened Basics

  class BufferReader {
    const data: Bytes
    var pos: nat

    ghost predicate Valid() reads this { pos <= |data| }

    /** The bytes not read yet. */
    ghost function Rest(): Bytes
      requires Valid()
      reads this
    {
      data[pos..]
    }

    constructor (buf: Bytes)
      ensures Valid() && data == buf && pos == 0 && Rest() == buf
    {
      data, pos := buf, 0;
    }

    method Empty() returns (e: bool)
      requires Valid()
      ensures e <==> Rest() == []
    {
      e := pos >= |data|;
    }

    method Remaining() returns (n: nat)
      requires Valid()
      ensures n == |Rest()|
    {
      n := if |data| > pos then |data| - pos else 0;
    }

    method Read8() returns (r: Result<Byte>)
      requires Valid()
      modifies this`pos
      ensures Valid()
      ensures if |old(Rest())| < 1 then r.Failure? && pos == old(pos)
              else r == Success(old(Rest())[0]) && Rest() == old(Rest())[1..] && pos == old(pos) + 1
    {
      if pos + 1 > |data| { return Failure; }
      r := Success(data[pos]);
      pos := pos + 1;
    }

    method ReadBE16() returns (r: Result<U16>)
      requires Valid()
      modifies this`pos
      ensures Valid()
      ensures if |old(Rest())| < 2 then r.Failure? && pos == old(pos)
              else r == Success(FromBE16(old(Rest())[..2])) && Rest() == old(Rest())[2..] && pos == old(pos) + 2
    {
      if pos + 2 > |data| { return Failure; }
      r := Success(Word(data[pos], data[pos + 1]));
      pos := pos + 2;
    }

    method ReadBE32() returns (r: Result<U32>)
      requires Valid()
      modifies this`pos
      ensures Valid()
      ensures if |old(Rest())| < 4 then r.Failure? && pos == old(pos)
              else r == Success(FromBE32(old(Rest())[..4])) && Rest() == old(Rest())[4..] && pos == old(pos) + 4
    {
      if pos + 4 > |data| { return Failure; }
      var high: int := Word(data[pos], data[pos + 1]);
      r := Success(high * 0x1_0000 + Word(data[pos + 2], data[pos + 3]));
      pos := pos + 4;
    }

    method ReadBytes(n: nat) returns (r: Result<Bytes>)
      requires Valid()
      modifies this`pos
      ensures Valid()
      ensures if |old(Rest())| < n then r.Failure? && pos == old(pos)
              else r == Success(old(Rest())[..n]) && Rest() == old(Rest())[n..] && pos == old(pos) + n
    {
      if pos + n > |data| { return Failure; }
      r := Success(data[pos..pos + n]);
      assert data[pos..][..n] == data[pos..pos + n];
      pos := pos + n;
    }
  }

  /** What the cursor sees of the next `n` octets. */
  lemma {:induction false} Window(rd: BufferReader, n: nat)
    requires rd.Valid() && rd.pos + n <= |rd.data|
    ensures |rd.Rest()| == |rd.data| - rd.pos
    ensures rd.Rest()[..n] == rd.data[rd.pos..rd.pos + n]
    ensures n > 0 ==> rd.Rest()[0] == rd.data[rd.pos]
  {
  }

  class BufferWriter {
    var buf: Bytes

    constructor ()
      ensures buf == []
    {
      buf := [];
    }

    method Write8(v: Byte)
      modifies this
      ensures buf == old(buf) + [v]
    {
      buf := buf + [v];
    }

    method WriteBE16(v: U16)
      modifies this
      ensures buf == old(buf) + BE16(v)
    {
      buf := buf + [v / 0x100];
      buf := buf + [v % 0x100];
    }

    method WriteBE32(v: U32)
      modifies this
      ensures buf == old(buf) + BE32(v)
    {
      buf := buf + [v / 0x100_0000];
      buf := buf + [v / 0x1_0000 % 0x100];
      buf := buf + [v / 0x100 % 0x100];
      buf := buf + [v % 0x100];
    }

    method WriteBytes(b: Bytes)
      modifies this
      ensures buf == old(buf) + b
    {
      buf := buf + b;
    }

    /** Appends a zero octet to be filled in later by `Patch8` and returns its offset. */
    method ReserveLen8() returns (off: nat)
      modifies this
      ensures off == |old(buf)| && buf == old(buf) + [0]
    {
      off := |buf|;
      buf := buf + [0];
    }

    method Patch8(offset: nat, v: Byte)
      requires offset < |buf|
      modifies this
      ensures buf == old(buf)[offset := v]
    {
      buf := buf[offset := v];
    }
  }
}

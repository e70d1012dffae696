/** Fixed-width integers, byte strings and the failure types shared by every module. */
module Basics {

  type Byte = x: int | 0 <= x < 0x100
  type U16 = x: int | 0 <= x < 0x1_0000
  type U32 = x: int | 0 <= x < 0x1_0000_0000
  type U64 = x: int | 0 <= x < 0x1_0000_0000_0000_0000
  type Bytes = seq<Byte>

  /** The session identifier of a transport; 0 means "every session". */
  type ClientId = U64

  datatype Option<+T> = None | Some(value: T) {
    function GetOr(default: T): T {
      if None? then default else value
    }
  }

  /** The outcome of an operation that throws in the source: the exception text is not kept. */
  datatype Result<+T> = Failure | Success(value: T) {
    predicate IsFailure() { Failure? }
    function PropagateFailure<U>(): Result<U> requires Failure? { Failure }
    function Extract(): T requires Success? { value }
  }

  /** The outcome of an operation that throws or returns nothing. */
  datatype Status = Thrown | Done {
    predicate IsFailure() { Thrown? }
    function PropagateFailure<U>(): Result<U> requires Thrown? { Failure }
  }

  function BE16(v: U16): Bytes { [v / 0x100, v % 0x100] }

  function BE32(v: U32): Bytes {
    [v / 0x100_0000, v / 0x1_0000 % 0x100, v / 0x100 % 0x100, v % 0x100]
  }

  /** Two octets, most significant first. */
  function Word(hi: Byte, lo: Byte): U16 {
    var h: int := hi;
    h * 0x100 + lo
  }

  function FromBE16(s: Bytes): U16 requires |s| == 2 { Word(s[0], s[1]) }

  function FromBE32(s: Bytes): U32
    requires |s| == 4
  {
    var high: int := Word(s[0], s[1]);
    high * 0x1_0000 + Word(s[2], s[3])
  }

  /** The concatenation of a list of byte strings. */
  function Flatten(parts: seq<Bytes>): Bytes {
    if parts == [] then [] else parts[0] + Flatten(parts[1..])
  }

  lemma {:induction false} FlattenSnoc(parts: seq<Bytes>, last: Bytes)
    ensures Flatten(parts + [last]) == Flatten(parts) + last
  {
    if parts == [] {
      assert [last][1..] == [];
    } else {
      FlattenSnoc(parts[1..], last);
      assert (parts + [last])[1..] == parts[1..] + [last];
    }
  }

  /** `order` lists the elements of `keys`, each exactly once. */
  ghost predicate Enumerates<K(!new)>(order: seq<K>, keys: set<K>) {
    && (forall k :: k in order <==> k in keys)
    && (forall i, j :: 0 <= i < j < |order| ==> order[i] != order[j])
  }
}

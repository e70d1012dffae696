/** IPA framing: a two-octet length that counts the stream octet, the stream octet, the payload. */
module IpaCodec {
  import opened Basics
  import opened Stream

  const STREAM_GSUP: Byte := 0xEE
  const STREAM_CCM: Byte := 0xFE
  const HEADER_SIZE := 3
  const MAX_WIRE_LEN := 4096

  datatype IpaFrame = IpaFrame(streamId: Byte, payload: Bytes)

  /** The length is cut to 16 bits, so the largest accepted payload has length field 0. */
  function Encoded(f: IpaFrame): Result<Bytes> {
    if |f.payload| > 0xFFFF then Failure
    else
      var wireLen: U16 := (|f.payload| + 1) % 0x1_0000;
      Success([wireLen / 0x100, wireLen % 0x100, f.streamId] + f.payload)
  }

  function IpaCut(buf: Bytes): Cut {
    if |buf| < HEADER_SIZE then NeedMore
    else
      var wireLen: int := Word(buf[0], buf[1]);
      if wireLen == 0 || wireLen > MAX_WIRE_LEN then Bad
      else if |buf| < HEADER_SIZE + wireLen - 1 then NeedMore
      else Frame(HEADER_SIZE + wireLen - 1)
  }

  /** The frame a cut-off octet string stands for. */
  function FrameOf(raw: Bytes): IpaFrame
    requires |raw| >= HEADER_SIZE
  {
    IpaFrame(raw[2], raw[HEADER_SIZE..])
  }

  class IpaDecoder {
    var buf: Bytes

    constructor ()
      ensures buf == []
    {
      buf := [];
    }

    method Feed(data: Bytes)
      modifies this
      ensures buf == old(buf) + data
    {
      buf := buf + data;
    }

    /** A failure is an exception: an oversized frame empties the buffer, a zero length leaves it. */
    method Next() returns (r: Result<Option<IpaFrame>>)
      modifies this
      ensures match IpaCut(old(buf))
              case NeedMore => r == Success(None) && buf == old(buf)
              case Bad => r == Failure && buf == if Word(old(buf)[0], old(buf)[1]) == 0 then old(buf) else []
              case Frame(n) =>
                n <= |old(buf)| && r == Success(Some(FrameOf(old(buf)[..n]))) && buf == old(buf)[n..]
    {
      if |buf| < HEADER_SIZE { return Success(None); }
      var wireLen := Word(buf[0], buf[1]);
      if wireLen == 0 { return Failure; }
      if wireLen > MAX_WIRE_LEN {
        buf := [];
        return Failure;
      }
      var totalSize := HEADER_SIZE + wireLen - 1;
      if |buf| < totalSize { return Success(None); }
      var frame := IpaFrame(buf[2], buf[HEADER_SIZE..totalSize]);
      assert buf[..totalSize][HEADER_SIZE..] == buf[HEADER_SIZE..totalSize];
      buf := buf[totalSize..];
      return Success(Some(frame));
    }
  }

  lemma {:induction false} IpaStable()
    ensures Stable(IpaCut)
  {
  }

  /** The decoder recognises an encoded frame if and only if its payload has at most 4095 octets;
      any longer one that encodes makes it throw. */
  lemma {:induction false} EncodedIsFrame(f: IpaFrame)
    requires Encoded(f).Success?
    ensures var raw := Encoded(f).value;
            && |raw| == HEADER_SIZE + |f.payload| && FrameOf(raw) == f
            && (IpaCut(raw) == Frame(|raw|) <==> |f.payload| < MAX_WIRE_LEN)
            && (IpaCut(raw) == Bad <==> |f.payload| >= MAX_WIRE_LEN)
  {
    var wireLen: U16 := (|f.payload| + 1) % 0x1_0000;
    assert Word(wireLen / 0x100, wireLen % 0x100) == wireLen;
  }

  function FramesOf(raws: seq<Bytes>): seq<IpaFrame>
    requires forall i :: 0 <= i < |raws| ==> |raws[i]| >= HEADER_SIZE
  {
    seq(|raws|, i requires 0 <= i < |raws| => FrameOf(raws[i]))
  }

  /** The octets that a list of frames is sent as. */
  function Wire(fs: seq<IpaFrame>): seq<Bytes>
    requires forall i :: 0 <= i < |fs| ==> |fs[i].payload| < MAX_WIRE_LEN
  {
    seq(|fs|, i requires 0 <= i < |fs| => Encoded(fs[i]).value)
  }

  /** Any chunking of encoded frames with payloads of at most 4095 octets, fed and drained chunk by
      chunk, gives exactly those frames in order, and leaves nothing over. */
  lemma {:induction false} FramesSurviveChunking(fs: seq<IpaFrame>, chunks: seq<Bytes>)
    requires forall i :: 0 <= i < |fs| ==> |fs[i].payload| < MAX_WIRE_LEN
    requires Flatten(chunks) == Flatten(Wire(fs))
    ensures Reassembled(IpaCut, chunks) == Drained(Wire(fs), [], false)
    ensures forall i :: 0 <= i < |fs| ==> |Wire(fs)[i]| >= HEADER_SIZE
    ensures FramesOf(Wire(fs)) == fs
  {
    hide Encoded, IpaCut, FrameOf;
    IpaStable();
    forall i | 0 <= i < |fs|
      ensures IpaCut(Wire(fs)[i]) == Frame(|Wire(fs)[i]|) && |Wire(fs)[i]| >= HEADER_SIZE && FrameOf(Wire(fs)[i]) == fs[i]
    {
      Encodes(fs[i]);
      EncodedIsFrame(fs[i]);
    }
    FramesBack(IpaCut, Wire(fs), chunks);
  }

  lemma {:induction false} Encodes(f: IpaFrame)
    ensures Encoded(f).Success? <==> |f.payload| <= 0xFFFF
  {
  }
}

/** Reassembly of frames from a byte stream, for any rule that cuts frames off a buffer. */
module Stream {
  import opened Basics

  /** What a decoder makes of its buffer: too little, unacceptable, or a frame at the front. */
  datatype Cut = NeedMore | Bad | Frame(size: nat)

  type Cutter = Bytes -> Cut

  /** Frames taken off, what is left in the buffer, and whether the decoder threw (nothing is said of
      the buffer then). */
  datatype Drained = Drained(frames: seq<Bytes>, rest: Bytes, broken: bool) {
    function Then(d: Drained): Drained { d.(frames := frames + d.frames) }
  }

  /** Calling the decoder until it returns nothing or throws. */
  function Drain(cut: Cutter, buf: Bytes): Drained
    decreases |buf|
  {
    match cut(buf)
    case NeedMore => Drained([], buf, false)
    case Bad => Drained([], [], true)
    case Frame(n) =>
      if 0 < n <= |buf| then Drained([buf[..n]], [], false).Then(Drain(cut, buf[n..]))
      else Drained([], [], true)
  }

  /** The read loop: each chunk is fed to the decoder, which is then drained. */
  function Reassembled(cut: Cutter, chunks: seq<Bytes>): Drained {
    if chunks == [] then Drained([], [], false)
    else
      var d := Reassembled(cut, chunks[..|chunks| - 1]);
      if d.broken then d else d.Then(Drain(cut, d.rest + chunks[|chunks| - 1]))
  }

  /** A verdict on a buffer stands when more octets arrive, and an empty buffer is too little. */
  ghost predicate Stable(cut: Cutter) {
    && cut([]) == NeedMore
    && (forall b :: cut(b).Frame? ==> 0 < cut(b).size <= |b|)
    && (forall b, c :: cut(b).Frame? ==> cut(b + c) == cut(b))
    && (forall b, c :: cut(b).Bad? ==> cut(b + c).Bad?)
  }

  lemma {:induction false} StableFrame(cut: Cutter, a: Bytes, b: Bytes)
    requires Stable(cut) && cut(a).Frame?
    ensures 0 < cut(a).size <= |a| && cut(a + b) == cut(a)
  {
  }

  lemma {:induction false} StableBad(cut: Cutter, a: Bytes, b: Bytes)
    requires Stable(cut) && cut(a).Bad?
    ensures cut(a + b).Bad?
  {
  }

  lemma {:induction false} DrainCases(cut: Cutter, a: Bytes)
    ensures cut(a).NeedMore? ==> Drain(cut, a) == Drained([], a, false)
    ensures cut(a).Bad? ==> Drain(cut, a) == Drained([], [], true)
    ensures cut(a).Frame? && 0 < cut(a).size <= |a| ==>
              Drain(cut, a) == Drained([a[..cut(a).size]], [], false).Then(Drain(cut, a[cut(a).size..]))
  {
  }

  /** Draining more octets is draining what there was, and then the rest with the new octets. */
  lemma {:induction false} DrainMore(cut: Cutter, a: Bytes, b: Bytes)
    requires Stable(cut)
    ensures Drain(cut, a + b)
         == if Drain(cut, a).broken then Drain(cut, a) else Drain(cut, a).Then(Drain(cut, Drain(cut, a).rest + b))
    decreases |a|
  {
    hide Drain, Stable;
    DrainCases(cut, a);
    DrainCases(cut, a + b);
    match cut(a) {
      case NeedMore =>
        var d := Drain(cut, a + b);
        assert [] + d.frames == d.frames;
      case Bad =>
        StableBad(cut, a, b);
      case Frame(n) =>
        StableFrame(cut, a, b);
        assert (a + b)[..n] == a[..n] && (a + b)[n..] == a[n..] + b;
        DrainMore(cut, a[n..], b);
        var d := Drain(cut, a[n..]);
        if !d.broken {
          var e := Drain(cut, d.rest + b);
          assert [a[..n]] + (d.frames + e.frames) == [a[..n]] + d.frames + e.frames;
        }
    }
  }

  /** How the stream is split into chunks makes no difference: the frames, what is left over and
      whether the decoder breaks depend on the octets alone. */
  lemma {:induction false} ChunkingIrrelevant(cut: Cutter, chunks: seq<Bytes>)
    requires Stable(cut)
    ensures Reassembled(cut, chunks) == Drain(cut, Flatten(chunks))
  {
    if chunks != [] {
      var init, last := chunks[..|chunks| - 1], chunks[|chunks| - 1];
      ChunkingIrrelevant(cut, init);
      assert chunks == init + [last];
      FlattenSnoc(init, last);
      DrainMore(cut, Flatten(init), last);
    }
  }

  /** Frames that a decoder recognises one by one are recognised back to back. */
  lemma {:induction false} DrainFrames(cut: Cutter, fs: seq<Bytes>)
    requires Stable(cut) && forall i :: 0 <= i < |fs| ==> cut(fs[i]) == Frame(|fs[i]|)
    ensures Drain(cut, Flatten(fs)) == Drained(fs, [], false)
  {
    if fs != [] {
      var f, rest := fs[0], Flatten(fs[1..]);
      StableFrame(cut, f, rest);
      assert (f + rest)[..|f|] == f && (f + rest)[|f|..] == rest;
      DrainFrames(cut, fs[1..]);
      assert fs == [f] + fs[1..];
    }
  }

  /** Any chunking of a list of recognised frames gives exactly those frames, in order. */
  lemma {:induction false} FramesBack(cut: Cutter, fs: seq<Bytes>, chunks: seq<Bytes>)
    requires Stable(cut) && forall i :: 0 <= i < |fs| ==> cut(fs[i]) == Frame(|fs[i]|)
    requires Flatten(chunks) == Flatten(fs)
    ensures Reassembled(cut, chunks) == Drained(fs, [], false)
  {
    ChunkingIrrelevant(cut, chunks);
    DrainFrames(cut, fs);
  }
}

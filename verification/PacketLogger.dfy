/** The packet logger's own reassembly of frames from delivered bytes. */
module PacketLogger {
  import opened Common
  import opened Protocol

  datatype Direction = Send | Recv

  datatype Drained = Drained(frames: seq<Bytes>, rest: Bytes)

  /** Takes whole frames off the front; a header that cannot be one costs a byte. */
  function Drain(buf: Bytes): Drained
    decreases |buf|
  {
    match ScanFrame(buf)
    case NeedMore => Drained([], buf)
    case BadHeader => Drain(buf[1..])
    case Whole(n) => var d := Drain(buf[n..]); Drained([buf[..n]] + d.frames, d.rest)
  }

  lemma DrainedSoFar(frames: seq<Bytes>, frame: Bytes, more: seq<Bytes>)
    ensures frames + ([frame] + more) == (frames + [frame]) + more
  {
  }

  class Logger {
    var buffers: map<(Direction, int), Bytes>

    method DrainCompleteFrames(dir: Direction, socket: int, data: Bytes, advance: bool) returns (frames: seq<Bytes>)
      modifies this
      ensures !advance || data == [] ==> frames == [] && buffers == old(buffers)
      ensures advance && data != [] ==>
                var d := Drain((if (dir, socket) in old(buffers) then old(buffers)[(dir, socket)] else []) + data);
                frames == d.frames && buffers == old(buffers)[(dir, socket) := d.rest]
    {
      if !advance || data == [] {
        return [];
      }
      var buffer := (if (dir, socket) in buffers then buffers[(dir, socket)] else []) + data;
      ghost var whole := buffer;
      frames := [];
      while true
        invariant buffers == old(buffers)
        invariant Drain(whole) == Drained(frames + Drain(buffer).frames, Drain(buffer).rest)
        decreases |buffer|
      {
        if |buffer| < 4 {
          break;
        }
        var header := ParseHeader(buffer);
        if header.None? {
          buffer := buffer[1..];
          continue;
        }
        var frameLen := 4 + header.value.length;
        if |buffer| < frameLen {
          break;
        }
        assert ScanFrame(buffer) == Whole(frameLen);
        DrainedSoFar(frames, buffer[..frameLen], Drain(buffer[frameLen..]).frames);
        frames := frames + [buffer[..frameLen]];
        buffer := buffer[frameLen..];
      }
      buffers := buffers[(dir, socket) := buffer];
    }
  }

  lemma DrainPartial(f: Bytes, data: Bytes)
    requires IsFrame(f) && data <= f && |data| < |f|
    ensures Drain(data) == Drained([], data)
  {
    assert ScanFrame(data).NeedMore?;
  }

  lemma DrainWhole(f: Bytes, rest: Bytes)
    requires IsFrame(f)
    ensures Drain(f + rest) == Drained([f] + Drain(rest).frames, Drain(rest).rest)
  {
    assert ScanFrame(f) == Whole(|f|);
    ScanPrefix(f, rest);
    assert f[..|f|] == f && f[|f|..] + rest == rest;
  }

  lemma FlatLength(f: Bytes, more: seq<Bytes>)
    ensures |Flat([f] + more)| == |f| + |Flat(more)|
  {
    assert ([f] + more)[1..] == more;
  }

  /** Whole frames, and the end of the data as what is kept, which is not yet a frame. */
  ghost predicate SoundDrain(buf: Bytes, d: Drained) {
    && AllFrames(d.frames) && ScanFrame(d.rest).NeedMore?
    && |Flat(d.frames)| + |d.rest| <= |buf| && d.rest == buf[|buf| - |d.rest|..]
  }

  lemma SoundAhead(buf: Bytes, n: nat, d: Drained)
    requires n <= |buf| && SoundDrain(buf[n..], d)
    ensures SoundDrain(buf, d)
    ensures IsFrame(buf[..n]) ==> SoundDrain(buf, Drained([buf[..n]] + d.frames, d.rest))
  {
    var m := |buf| - |d.rest|;
    assert buf[n..][m - n..] == buf[m..];
    FlatLength(buf[..n], d.frames);
  }

  /** Whatever the bytes are, nothing but whole frames is found and no frame is kept back. */
  lemma {:induction false} DrainSound(buf: Bytes)
    ensures SoundDrain(buf, Drain(buf))
    decreases |buf|
  {
    match ScanFrame(buf)
    case NeedMore =>
    case BadHeader =>
      DrainSound(buf[1..]);
      SoundAhead(buf, 1, Drain(buf[1..]));
    case Whole(n) =>
      DrainSound(buf[n..]);
      SoundAhead(buf, n, Drain(buf[n..]));
  }

  /** Bytes that no header starts with are skipped one by one up to the next frame. */
  lemma {:induction false} JunkSkipped(junk: Bytes, f: Bytes, rest: Bytes)
    requires IsFrame(f) && forall k :: 0 <= k < |junk| ==> junk[k] > 15
    ensures Drain(junk + f + rest) == Drained([f] + Drain(rest).frames, Drain(rest).rest)
    decreases |junk|
  {
    if junk == [] {
      assert junk + f + rest == f + rest;
      DrainWhole(f, rest);
    } else {
      var buf := junk + f + rest;
      HeaderRule(buf[0], buf[1], buf[2], buf[3], buf[4..]);
      assert buf == [buf[0], buf[1], buf[2], buf[3]] + buf[4..];
      assert buf[1..] == junk[1..] + f + rest;
      JunkSkipped(junk[1..], f, rest);
    }
  }

  ghost function Then(first: Drained, b: Bytes): Drained {
    var second := Drain(first.rest + b);
    Drained(first.frames + second.frames, second.rest)
  }

  lemma ThenAfterFrame(f: Bytes, d: Drained, b: Bytes)
    ensures var t := Then(d, b); Then(Drained([f] + d.frames, d.rest), b) == Drained([f] + t.frames, t.rest)
  {
    assert [f] + d.frames + Drain(d.rest + b).frames == [f] + (d.frames + Drain(d.rest + b).frames);
  }

  /** Draining as the bytes come gives the same frames and the same rest as draining once. */
  lemma {:induction false} DrainInTwo(a: Bytes, b: Bytes)
    ensures Drain(a + b) == Then(Drain(a), b)
    decreases |a|
  {
    ScanPrefix(a, b);
    match ScanFrame(a)
    case NeedMore =>
    case BadHeader =>
      assert (a + b)[1..] == a[1..] + b;
      DrainInTwo(a[1..], b);
    case Whole(n) =>
      DrainInTwo(a[n..], b);
      ThenAfterFrame(a[..n], Drain(a[n..]), b);
  }

  /** `d` is the first `k` frames and a proper part of the next one. */
  ghost predicate CutAt(fs: seq<Bytes>, d: Drained, k: int) {
    && 0 <= k <= |fs|
    && d.frames == fs[..k]
    && (k == |fs| ==> d.rest == [])
    && (k < |fs| ==> d.rest <= fs[k] && |d.rest| < |fs[k]|)
  }

  lemma CutLater(fs: seq<Bytes>, d: Drained, k: int)
    requires fs != [] && CutAt(fs[1..], d, k)
    ensures CutAt(fs, Drained([fs[0]] + d.frames, d.rest), k + 1)
  {
    assert fs[..k + 1] == [fs[0]] + fs[1..][..k];
  }

  /** On any prefix of a stream of frames the logger finds those frames and nothing else, and
      what it keeps back is a proper part of the next frame. */
  lemma {:induction false} DrainPrefix(fs: seq<Bytes>, data: Bytes)
    requires AllFrames(fs) && data <= Flat(fs)
    ensures exists k :: CutAt(fs, Drain(data), k)
    decreases fs
  {
    if fs == [] {
      assert CutAt(fs, Drain(data), 0);
    } else if |data| < |fs[0]| {
      assert data <= fs[0];
      DrainPartial(fs[0], data);
      assert CutAt(fs, Drain(data), 0);
    } else {
      var rest := SplitFirst(fs, data);
      DrainWhole(fs[0], rest);
      DrainPrefix(fs[1..], rest);
      var k :| CutAt(fs[1..], Drain(rest), k);
      CutLater(fs, Drain(rest), k);
    }
  }

  lemma SplitFirst(fs: seq<Bytes>, data: Bytes) returns (rest: Bytes)
    requires fs != [] && data <= Flat(fs) && |data| >= |fs[0]|
    ensures data == fs[0] + rest && rest <= Flat(fs[1..])
  {
    rest := data[|fs[0]|..];
    assert Flat(fs)[..|fs[0]|] == fs[0] && Flat(fs)[|fs[0]|..] == Flat(fs[1..]);
    assert data == data[..|fs[0]|] + rest;
  }

  lemma FlatFirst(f: Bytes, more: seq<Bytes>, tail: Bytes)
    ensures Flat([f] + more) + tail == f + (Flat(more) + tail)
  {
    assert ([f] + more)[1..] == more;
  }

  /** On such a stream no byte is skipped: frames and rest make up the data. */
  lemma {:induction false} DrainLossless(fs: seq<Bytes>, data: Bytes)
    requires AllFrames(fs) && data <= Flat(fs)
    ensures Flat(Drain(data).frames) + Drain(data).rest == data
    decreases fs
  {
    if fs != [] && |data| >= |fs[0]| {
      var rest := SplitFirst(fs, data);
      DrainWhole(fs[0], rest);
      DrainLossless(fs[1..], rest);
      FlatFirst(fs[0], Drain(rest).frames, Drain(rest).rest);
    } else if fs != [] {
      assert data <= fs[0];
      DrainPartial(fs[0], data);
    }
  }
}

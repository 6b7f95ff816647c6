/** What the server does with one frame, stated over the bytes on the wire. */
module ServerRules {
  import opened Common
  import opened Protocol
  import opened Session
  import opened Domain
  import opened Server

  // ----- sending

  function NonEmpty(packets: seq<Bytes>): seq<Bytes> {
    if packets == [] then []
    else if packets[0] == [] then NonEmpty(packets[1..])
    else [packets[0]] + NonEmpty(packets[1..])
  }

  /** How many more packets the guest takes. */
  function Room(env: Env, s: Runtime): nat {
    if |s.sent| < env.capacity then env.capacity - |s.sent| else 0
  }

  /** The nonempty packets go out in order, as many as the guest takes; sending fails exactly
      when some are left over, and touches nothing else. */
  lemma {:induction false} SendRule(env: Env, s: Runtime, packets: seq<Bytes>)
    ensures var (out, room) := (NonEmpty(packets), Room(env, s));
      SendPackets(env, s, packets) ==
      if |out| <= room then Step(s.(sent := s.sent + out), true) else Step(s.(sent := s.sent + out[..room]), false)
    decreases packets
  {
    if packets == [] {
      assert s.sent + [] == s.sent;
    } else if packets[0] == [] {
      SendRule(env, s, packets[1..]);
    } else if |s.sent| < env.capacity {
      var s' := s.(sent := s.sent + [packets[0]]);
      SendRule(env, s', packets[1..]);
      var out := NonEmpty(packets[1..]);
      assert s.sent + NonEmpty(packets) == s'.sent + out;
      if |out| > Room(env, s') {
        assert NonEmpty(packets)[..Room(env, s)] == [packets[0]] + out[..Room(env, s')];
        assert s.sent + NonEmpty(packets)[..Room(env, s)] == s'.sent + out[..Room(env, s')];
      }
    } else {
      assert s.sent + NonEmpty(packets)[..0] == s.sent;
    }
  }

  lemma SendOne(env: Env, s: Runtime, packet: Bytes)
    ensures SendPackets(env, s, [packet]) ==
            if packet == [] then Step(s, true)
            else if |s.sent| < env.capacity then Step(s.(sent := s.sent + [packet]), true)
            else Step(s, false)
  {
    assert [packet][1..] == [];
  }

  lemma SendTwo(env: Env, s: Runtime, a: Bytes, b: Bytes)
    requires |s.sent| + 1 < env.capacity && a != [] && b != []
    ensures SendPackets(env, s, [a, b]) == Step(s.(sent := s.sent + [a, b]), true)
  {
    assert [a, b][1..] == [b];
    SendOne(env, s.(sent := s.sent + [a]), b);
    assert s.sent + [a] + [b] == s.sent + [a, b];
  }

  // ----- control frames

  lemma ControlFrame(env: Env, s: Runtime, msgType: nat, ch: nat)
    requires msgType < 65536 && ch < 65536
    ensures IsFrame(Ctrl(msgType, ch)) && ParseControl(Ctrl(msgType, ch)[4..]) == Some(Control(msgType, ch))
    ensures HandleFrame(env, s, Ctrl(msgType, ch)) == HandleControl(env, s, Ctrl(msgType, ch)[4..])
  {
    ControlMessageBytes(msgType, ch);
    ControlMessageParses(msgType, ch);
  }

  /** An open of a free channel from 1 to 14 opens it and is confirmed, on channel 2 with the
      stage message after it; any other open is rejected and changes nothing. */
  lemma OpenRule(env: Env, s: Runtime, ch: nat)
    requires ch < 65536 && |s.sent| + 1 < env.capacity
    ensures IsFrame(Ctrl(1, ch))
    ensures var r := HandleFrame(env, s, Ctrl(1, ch));
      && r.alive && r.next.state == s.state && r.next.closes == s.closes
      && if 1 <= ch <= 14 && ch !in s.open
         then && r.next.open == s.open + {ch} && r.next.opens == s.opens + [ch]
              && r.next.sent == s.sent + if ch == 2 then [Ctrl(2, 2), WorldMap(2)] else [Ctrl(2, ch)]
         else r.next.open == s.open && r.next.opens == s.opens && r.next.sent == s.sent + [Ctrl(3, ch)]
  {
    ControlFrame(env, s, 1, ch);
    ControlMessageBytes(2, ch);
    ControlMessageBytes(3, ch);
    SendOne(env, s, Ctrl(3, ch));
    SendOne(env, AfterOpen(s, ch), Ctrl(2, ch));
    SendTwo(env, AfterOpen(s, ch), Ctrl(2, ch), WorldMap(ch));
  }

  /** A close of an open channel ends it and is echoed; an abort ends it in silence; both do
      nothing to a channel that is not open, and every other control packet does nothing. */
  lemma CloseRule(env: Env, s: Runtime, msgType: nat, ch: nat)
    requires msgType < 65536 && msgType != 1 && ch < 65536 && |s.sent| < env.capacity
    ensures IsFrame(Ctrl(msgType, ch))
    ensures var r := HandleFrame(env, s, Ctrl(msgType, ch));
      && r.alive && r.next.state == s.state && r.next.opens == s.opens
      && if (msgType == 3 || msgType == 4) && ch in s.open
         then && r.next.open == s.open - {ch} && r.next.closes == s.closes + [ch]
              && r.next.sent == s.sent + if msgType == 4 then [Ctrl(4, ch)] else []
         else r.next == s
  {
    ControlFrame(env, s, msgType, ch);
    ControlMessageBytes(4, ch);
    SendOne(env, AfterClose(s, ch), Ctrl(4, ch));
    assert s.sent + [] == s.sent;
  }

  // ----- frames on data channels

  function Replied(s: Runtime, o: Outcome): Runtime {
    s.(state := o.state, sent := if o.reply == [] then s.sent else s.sent + [o.reply])
  }

  /** A request on channel 1 is answered with exactly the reply of its handler, if that is not
      empty, and leaves the session the handler leaves. */
  lemma AuthFrameRule(env: Env, s: Runtime, frame: Bytes)
    requires IsFrame(frame) && ParseHeader(frame).value.channel == 1 && 1 in s.open && |s.sent| < env.capacity
    requires ParseAuthPacket(frame[4..]).Some?
    ensures var o := HandleAuth(env.version, ParseAuthPacket(frame[4..]).value, 1, s.state);
      HandleFrame(env, s, frame) == Step(Replied(s, o), true)
  {
    var o := HandleAuth(env.version, ParseAuthPacket(frame[4..]).value, 1, s.state);
    SendOne(env, s.(state := o.state), o.reply);
  }

  /** The same on the channels 2 to 14. */
  lemma DispatchFrameRule(env: Env, s: Runtime, frame: Bytes, ch: nat)
    requires IsFrame(frame) && ParseHeader(frame).value.channel == ch && 2 <= ch <= 14 && ch in s.open
    requires ParseChannelPacket(frame[4..]).Some? && |s.sent| < env.capacity
    ensures var o := DispatchPacket(ParseChannelPacket(frame[4..]).value, ch, s.state);
      HandleFrame(env, s, frame) == Step(Replied(s, o), true)
  {
    var o := DispatchPacket(ParseChannelPacket(frame[4..]).value, ch, s.state);
    SendOne(env, s.(state := o.state), o.reply);
  }

  /** A ping, an inventory packet and one of kind 0xD4 on an open channel come back byte for byte. */
  lemma EchoRule(env: Env, s: Runtime, frame: Bytes, ch: nat)
    requires IsFrame(frame) && |frame| >= 6 && frame[0] == ch && 2 <= ch <= 14 && ch in s.open
    requires frame[4] == 0x68 || frame[4] == 0x80 || frame[4] == 0xD4
    requires |s.sent| < env.capacity
    ensures HandleFrame(env, s, frame) == Step(s.(sent := s.sent + [frame]), true)
  {
    FrameBytes(frame);
    DispatchFrameRule(env, s, frame, ch);
    var pkt := ParseChannelPacket(frame[4..]).value;
    assert [pkt.mainType, pkt.subType] + pkt.payload == frame[4..];
    assert DispatchPacket(pkt, ch, s.state).reply == frame;
  }

  /** Data for a channel that is not open, or too short to be a request, earns one reject and
      changes nothing else. */
  lemma RejectRule(env: Env, s: Runtime, frame: Bytes, ch: nat)
    requires IsFrame(frame) && frame[0] == ch && ch != 0 && |s.sent| < env.capacity
    requires ch !in s.open || ch == 15 || |frame| < if ch == 1 then 12 else 6
    ensures HandleFrame(env, s, frame) == Step(s.(sent := s.sent + [[0, 0, 4, 0, 3, 0, ch, 0]]), true)
  {
    FrameBytes(frame);
    ControlMessageBytes(3, ch);
    SendOne(env, s, Ctrl(3, ch));
  }

  /** Once the guest takes nothing more, every reply ends the connection; the session keeps
      what the request did to it. */
  lemma HangUpRule(env: Env, s: Runtime, frame: Bytes)
    requires IsFrame(frame) && ParseHeader(frame).value.channel != 0 && |s.sent| >= env.capacity
    ensures var (r, roomy) := (HandleFrame(env, s, frame), HandleFrame(Env(env.version, |s.sent| + 1), s, frame));
      && r.next == roomy.next.(sent := s.sent) && (r.alive <==> roomy.next.sent == s.sent)
  {
    var ch, body := ParseHeader(frame).value.channel, frame[4..];
    var env' := Env(env.version, |s.sent| + 1);
    SendNone(env, env', s, ControlMessage(CTRL_REJECT_OR_ABORT, ch));
    if ch == 1 && ParseAuthPacket(body).Some? {
      var o := HandleAuth(env.version, ParseAuthPacket(body).value, ch, s.state);
      SendNone(env, env', s.(state := o.state), o.reply);
    } else if ch != 1 && ParseChannelPacket(body).Some? {
      var o := DispatchPacket(ParseChannelPacket(body).value, ch, s.state);
      SendNone(env, env', s.(state := o.state), o.reply);
    }
  }

  lemma SendNone(env: Env, roomy: Env, s: Runtime, packet: Bytes)
    requires |s.sent| >= env.capacity && |s.sent| < roomy.capacity
    ensures var (r, q) := (SendPackets(env, s, [packet]), SendPackets(roomy, s, [packet]));
      r.next == q.next.(sent := s.sent) == s && (r.alive <==> q.next.sent == s.sent)
  {
    SendOne(roomy, s, packet);
    assert [packet][1..] == [];
  }

  // ----- the stream

  /** The frames handled one after the other, until the first that ends the connection: the
      step reached, and how many were handled. */
  function HandleAll(env: Env, s: Runtime, frames: seq<Bytes>): (Step, nat)
    requires AllFrames(frames)
    decreases |frames|
  {
    if frames == [] then (Step(s, true), 0)
    else
      var step := HandleFrame(env, s, frames[0]);
      if !step.alive then (step, 1)
      else
        var (last, n) := HandleAll(env, step.next, frames[1..]);
        (last, n + 1)
  }

  /** A stream of frames is handled frame by frame; what follows the last one is kept when it
      may still become a frame and ends the connection when it cannot. */
  lemma {:induction false} StreamIsFrames(env: Env, s: Runtime, frames: seq<Bytes>, tail: Bytes)
    requires AllFrames(frames) && !ScanFrame(tail).Whole?
    ensures var (p, (step, n)) := (Process(env, Flat(frames) + tail, s), HandleAll(env, s, frames));
      && n <= |frames| && p.runtime == step.next
      && p.rest == Flat(frames[n..]) + tail
      && (step.alive ==> n == |frames|)
      && (p.alive <==> step.alive && ScanFrame(tail).NeedMore?)
    decreases |frames|
  {
    if frames == [] {
      assert Flat(frames) + tail == tail;
    } else {
      var rest := Flat(frames[1..]) + tail;
      var buf := Flat(frames) + tail;
      assert buf == frames[0] + rest;
      FrameAhead(frames[0], rest);
      var step := HandleFrame(env, s, frames[0]);
      if step.alive {
        StreamIsFrames(env, step.next, frames[1..], tail);
        var n := HandleAll(env, step.next, frames[1..]).1;
        assert frames[n + 1..] == frames[1..][n..];
      }
    }
  }

  lemma FrameAhead(f: Bytes, rest: Bytes)
    requires IsFrame(f)
    ensures ScanFrame(f + rest) == Whole(|f|) && (f + rest)[..|f|] == f && (f + rest)[|f|..] == rest
  {
    ScanPrefix(f, rest);
  }

  /** Fewer than four bytes, or a good header with too little after it, is not yet a frame. */
  lemma ScanRule(buf: Bytes)
    ensures ScanFrame(buf).NeedMore? <==>
              |buf| < 4 || (ParseHeader(buf).Some? && |buf| < 4 + ParseHeader(buf).value.length)
    ensures ScanFrame(buf).BadHeader? <==> |buf| >= 4 && ParseHeader(buf).None?
  {
  }
}

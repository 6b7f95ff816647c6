/** What holds after every run of the server, whatever the client sends. */
module ServerRuns {
  import opened Common
  import opened Protocol
  import opened Session
  import opened Domain
  import opened Server
  import opened ServerRules

  function OpenOk(ch: nat): Bytes { ControlMessage(CTRL_OPEN_OK, ch) }

  function Count<T(==)>(s: seq<T>, x: T): nat { multiset(s)[x] }

  /** Nicknames fit their field, and no session ever has an avatar: nothing the server does
      sets the flag, so the login payload always offers empty slots. */
  predicate Avatarless(s: State) {
    s.info.Some? ==> !s.info.value.hasAvatar && |s.info.value.nickname| <= NICK_MAX
  }

  ghost predicate Sound(s: Runtime) {
    && Avatarless(s.state)
    && (forall ch :: ch in s.open ==> DataChannel(ch))
    && (forall k :: 0 <= k < |s.sent| ==> WellFramed(s.sent[k]))
    && (forall ch: nat :: Count(s.opens, ch) == Count(s.closes, ch) + if ch in s.open then 1 else 0)
  }

  /** Accepted opens and OPEN_OK packets correspond one to one. */
  ghost predicate Announced(s: Runtime) {
    forall ch: nat :: ch < 65536 ==> Count(s.sent, OpenOk(ch)) == Count(s.opens, ch)
  }

  /** As `Announced`, except that a hang-up may have swallowed the last OPEN_OK. */
  ghost predicate AtMostAnnounced(s: Runtime) {
    forall ch: nat :: ch < 65536 ==> Count(s.sent, OpenOk(ch)) <= Count(s.opens, ch)
  }

  // ----- single frames

  /** The header check already fixes the length of control bodies, so parsing one never fails. */
  lemma ControlNeverMalformed(frame: Bytes)
    requires IsFrame(frame) && ParseHeader(frame).value.channel == 0
    ensures ParseControl(frame[4..]).Some?
  {
  }

  /** Data for a channel that is not open earns one reject and leaves all else alone. */
  lemma UnopenedChannelRejected(env: Env, s: Runtime, frame: Bytes)
    requires IsFrame(frame)
    ensures var ch := ParseHeader(frame).value.channel;
      ch != 0 && ch !in s.open ==>
        HandleFrame(env, s, frame) ==
        if |s.sent| < env.capacity then Step(s.(sent := s.sent + [ControlMessage(CTRL_REJECT_OR_ABORT, ch)]), true)
        else Step(s, false)
  {
    SendOne(env, s, ControlMessage(CTRL_REJECT_OR_ABORT, ParseHeader(frame).value.channel));
  }

  /** A logout tells the client that its channel is closed, yet the server keeps the channel
      open and refuses to open it again. */
  lemma LogoutKeepsChannelOpen(env: Env, s: Runtime, logout: Bytes, reopen: Bytes)
    requires IsFrame(logout) && ParseHeader(logout).value.channel == 1 && 1 in s.open
    requires ParseAuthPacket(logout[4..]).Some? && ParseAuthPacket(logout[4..]).value.control == LOGOUT
    requires reopen == ControlMessage(CTRL_OPEN, 1) && |s.sent| + 2 <= env.capacity
    ensures IsFrame(reopen)
    ensures var after := HandleFrame(env, s, logout).next;
      && after.sent == s.sent + [ControlMessage(CTRL_CLOSE, 1)] && 1 in after.open
      && HandleFrame(env, after, reopen).next.sent == after.sent + [ControlMessage(CTRL_REJECT_OR_ABORT, 1)]
  {
    ControlMessageParses(CTRL_OPEN, 1);
    var pkt := ParseAuthPacket(logout[4..]).value;
    SendOne(env, s.(state := HandleAuth(env.version, pkt, 1, s.state).state), ControlMessage(CTRL_CLOSE, 1));
    var after := HandleFrame(env, s, logout).next;
    SendOne(env, after, ControlMessage(CTRL_REJECT_OR_ABORT, 1));
  }

  lemma ControlMessageInjective(msg: nat, ch: nat, msg': nat, ch': nat)
    requires msg < 65536 && ch < 65536 && msg' < 65536 && ch' < 65536
    ensures ControlMessage(msg, ch) == ControlMessage(msg', ch') <==> msg == msg' && ch == ch'
  {
    ControlMessageParses(msg, ch);
    ControlMessageParses(msg', ch');
  }

  lemma OpenOkDistinct(ch: nat, msg: nat, ch': nat)
    requires ch < 65536 && msg < 65536 && ch' < 65536
    ensures ControlMessage(msg, ch') == OpenOk(ch) <==> msg == CTRL_OPEN_OK && ch' == ch
  {
    ControlMessageInjective(msg, ch', CTRL_OPEN_OK, ch);
  }

  lemma AuthFirstByte(version: nat, pkt: AuthPacket, s: State)
    requires pkt.control != LOGOUT
    ensures var r := HandleAuth(version, pkt, 1, s).reply; r == [] || r[0] == 1
  {
  }

  lemma DispatchFirstByte(pkt: ChannelPacket, ch: nat, s: State)
    requires 1 <= ch <= 14
    ensures var r := DispatchPacket(pkt, ch, s).reply; r == [] || r[0] == ch
  {
  }

  lemma AuthReplyIsNotOpenOk(env: Env, pkt: AuthPacket, s: State, ch: nat)
    requires ch < 65536
    ensures HandleAuth(env.version, pkt, 1, s).reply != OpenOk(ch)
  {
    OpenOkDistinct(ch, CTRL_CLOSE, 1);
    if pkt.control != LOGOUT {
      AuthFirstByte(env.version, pkt, s);
      assert OpenOk(ch)[0] == 0;
    }
  }

  lemma DispatchReplyIsNotOpenOk(pkt: ChannelPacket, c: nat, s: State, ch: nat)
    requires 1 <= c <= 14
    ensures DispatchPacket(pkt, c, s).reply != OpenOk(ch)
  {
    DispatchFirstByte(pkt, c, s);
    assert OpenOk(ch)[0] == 0;
  }

  lemma AuthKeepsAvatarless(version: nat, pkt: AuthPacket, ch: nat, s: State)
    requires Avatarless(s)
    ensures Avatarless(HandleAuth(version, pkt, ch, s).state)
  {
  }

  lemma DispatchKeepsAvatarless(pkt: ChannelPacket, ch: nat, s: State)
    requires Avatarless(s)
    ensures Avatarless(DispatchPacket(pkt, ch, s).state)
  {
  }

  // ----- sending

  /** Packets that are whole frames and no OPEN_OK. */
  ghost predicate Quiet(packets: seq<Bytes>) {
    forall k :: 0 <= k < |packets| ==>
      packets[k] == [] || (WellFramed(packets[k]) && forall ch: nat :: ch < 65536 ==> packets[k] != OpenOk(ch))
  }

  lemma {:induction false} SendQuiet(env: Env, s: Runtime, packets: seq<Bytes>)
    requires Sound(s) && Quiet(packets)
    ensures var r := SendPackets(env, s, packets); Sound(r.next) && (Announced(s) ==> Announced(r.next))
    ensures SendPackets(env, s, packets).next == s.(sent := SendPackets(env, s, packets).next.sent)
    ensures !SendPackets(env, s, packets).alive ==> |SendPackets(env, s, packets).next.sent| >= env.capacity
    decreases packets
  {
    if packets != [] {
      if packets[0] == [] {
        SendQuiet(env, s, packets[1..]);
      } else if |s.sent| < env.capacity {
        var s' := s.(sent := s.sent + [packets[0]]);
        SendQuiet(env, s', packets[1..]);
      }
    }
  }

  lemma RejectIsQuiet(ch: nat)
    requires ch < 65536
    ensures Quiet([ControlMessage(CTRL_REJECT_OR_ABORT, ch)]) && Quiet([ControlMessage(CTRL_CLOSE, ch)])
  {
    ControlMessageParses(CTRL_REJECT_OR_ABORT, ch);
    ControlMessageParses(CTRL_CLOSE, ch);
    OneFrame(ControlMessage(CTRL_REJECT_OR_ABORT, ch));
    OneFrame(ControlMessage(CTRL_CLOSE, ch));
    forall c: nat | c < 65536
      ensures ControlMessage(CTRL_REJECT_OR_ABORT, ch) != OpenOk(c) && ControlMessage(CTRL_CLOSE, ch) != OpenOk(c)
    {
      OpenOkDistinct(c, CTRL_REJECT_OR_ABORT, ch);
      OpenOkDistinct(c, CTRL_CLOSE, ch);
    }
  }

  function AnnouncedOpen(s: Runtime, ch: nat): Runtime {
    var s1 := AfterOpen(s, ch);
    s1.(sent := s1.sent + [OpenOk(ch)])
  }

  lemma AnnouncedOpenSound(s: Runtime, ch: nat)
    requires Sound(s) && Announced(s) && DataChannel(ch) && ch !in s.open
    ensures Sound(AfterOpen(s, ch)) && AtMostAnnounced(AfterOpen(s, ch))
    ensures Sound(AnnouncedOpen(s, ch)) && Announced(AnnouncedOpen(s, ch))
  {
    ControlMessageParses(CTRL_OPEN_OK, ch);
    OneFrame(OpenOk(ch));
    var s2 := AnnouncedOpen(s, ch);
    forall c: nat | c < 65536 ensures Count(s2.sent, OpenOk(c)) == Count(s2.opens, c) {
      OpenOkDistinct(c, CTRL_OPEN_OK, ch);
    }
  }

  lemma WorldMapQuiet(ch: nat)
    requires 1 <= ch <= 14
    ensures Quiet([WorldMap(ch)])
  {
    WorldMapFramed(ch);
    forall c: nat ensures WorldMap(ch) != OpenOk(c) {
      assert WorldMap(ch)[0] == ch && OpenOk(c)[0] == 0;
    }
  }

  /** An accepted open is the one step that sends an OPEN_OK. */
  lemma AcceptedOpen(env: Env, s: Runtime, ch: nat)
    requires Sound(s) && Announced(s) && DataChannel(ch) && ch !in s.open
    ensures var r := SendPackets(env, AfterOpen(s, ch), OpenReplies(s, ch));
      && Sound(r.next) && AtMostAnnounced(r.next) && (r.alive ==> Announced(r.next))
      && (!r.alive ==> |r.next.sent| >= env.capacity)
  {
    AnnouncedOpenSound(s, ch);
    WorldMapQuiet(ch);
    var rest := OpenReplies(s, ch)[1..];
    assert rest == if ch == 2 then [WorldMap(ch)] else [];
    if |s.sent| < env.capacity {
      SendQuiet(env, AnnouncedOpen(s, ch), rest);
      assert OpenReplies(s, ch)[0] == OpenOk(ch) && OpenOk(ch) != [];
    }
  }

  lemma FrameKeepsSound(env: Env, s: Runtime, frame: Bytes)
    requires IsFrame(frame) && Sound(s) && Announced(s)
    ensures var r := HandleFrame(env, s, frame);
      && Sound(r.next) && AtMostAnnounced(r.next) && (r.alive ==> Announced(r.next))
      && (!r.alive ==> |r.next.sent| >= env.capacity)
  {
    var ch, body := ParseHeader(frame).value.channel, frame[4..];
    if ch == 0 {
      ControlKeepsSound(env, s, body);
    } else {
      AppKeepsSound(env, s, ch, body);
    }
  }

  lemma ControlKeepsSound(env: Env, s: Runtime, body: Bytes)
    requires |body| == 4 && Sound(s) && Announced(s)
    ensures var r := HandleControl(env, s, body);
      && Sound(r.next) && AtMostAnnounced(r.next) && (r.alive ==> Announced(r.next))
      && (!r.alive ==> |r.next.sent| >= env.capacity)
  {
    var ctrl := ParseControl(body).value;
    RejectIsQuiet(ctrl.channel);
    if ctrl.msgType == CTRL_OPEN {
      if DataChannel(ctrl.channel) && ctrl.channel !in s.open {
        AcceptedOpen(env, s, ctrl.channel);
      } else {
        SendQuiet(env, s, OpenReplies(s, ctrl.channel));
      }
    } else if ctrl.msgType == CTRL_CLOSE || ctrl.msgType == CTRL_REJECT_OR_ABORT {
      SendQuiet(env, AfterClose(s, ctrl.channel), CloseReplies(s, ctrl.channel));
    }
  }

  lemma AppKeepsSound(env: Env, s: Runtime, ch: nat, body: Bytes)
    requires 1 <= ch <= MAX_CHANNEL && |body| <= MAX_BODY && Sound(s) && Announced(s)
    ensures var r := HandleApp(env, s, ch, body);
      && Sound(r.next) && AtMostAnnounced(r.next) && (r.alive ==> Announced(r.next))
      && (!r.alive ==> |r.next.sent| >= env.capacity)
  {
    RejectIsQuiet(ch);
    SendQuiet(env, s, [ControlMessage(CTRL_REJECT_OR_ABORT, ch)]);
    if DataChannel(ch) && ch in s.open {
      if ch == 1 && ParseAuthPacket(body).Some? {
        var pkt := ParseAuthPacket(body).value;
        var o := HandleAuth(env.version, pkt, ch, s.state);
        AuthReplyFramed(env.version, pkt, ch, s.state);
        AuthKeepsAvatarless(env.version, pkt, ch, s.state);
        forall c: nat | c < 65536 ensures o.reply != OpenOk(c) {
          AuthReplyIsNotOpenOk(env, pkt, s.state, c);
        }
        SendQuiet(env, s.(state := o.state), [o.reply]);
      } else if ch != 1 && ParseChannelPacket(body).Some? {
        var pkt := ParseChannelPacket(body).value;
        var o := DispatchPacket(pkt, ch, s.state);
        DispatchReplyFramed(body, ch, s.state);
        DispatchKeepsAvatarless(pkt, ch, s.state);
        forall c: nat ensures o.reply != OpenOk(c) {
          DispatchReplyIsNotOpenOk(pkt, ch, s.state, c);
        }
        SendQuiet(env, s.(state := o.state), [o.reply]);
      }
    }
  }

  // ----- whole runs

  /** After any byte stream: no avatars, channels in range, only whole frames sent, and per channel the
      accepted opens exceed the closes by one exactly when it is open; while the connection
      lives every accepted open was announced.  It ends only at a bad header or because the
      guest stopped taking packets. */
  lemma {:induction false} StreamKeepsSound(env: Env, buf: Bytes, s: Runtime)
    requires Sound(s) && Announced(s)
    ensures var p := Process(env, buf, s);
      && Sound(p.runtime) && AtMostAnnounced(p.runtime) && (p.alive ==> Announced(p.runtime))
      && (!p.alive ==> ScanFrame(p.rest).BadHeader? || |p.runtime.sent| >= env.capacity)
    decreases |buf|
  {
    match ScanFrame(buf)
    case Whole(n) =>
      FrameKeepsSound(env, s, buf[..n]);
      var step := HandleFrame(env, s, buf[..n]);
      if step.alive {
        StreamKeepsSound(env, buf[n..], step.next);
      }
    case _ =>
  }

  /** The same for every run of the handler loop, in whatever chunks the bytes arrive. */
  lemma RunsAreSound(env: Env, chunks: seq<Bytes>)
    ensures var p := RunChunks(env, Progress([], Fresh(), true), chunks);
      && Sound(p.runtime) && AtMostAnnounced(p.runtime) && (p.alive ==> Announced(p.runtime))
  {
    var start := Progress([], Fresh(), true);
    ChunkingIrrelevant(env, start, chunks);
    StreamKeepsSound(env, [] + Flat(chunks), Fresh());
  }

  // ----- accounts

  /** Every account of `before` is still there with its password. */
  predicate Keeps(before: map<Bytes, Bytes>, after: map<Bytes, Bytes>) {
    forall id :: id in before ==> id in after && after[id] == before[id]
  }

  /** An id check answers 12 exactly when registering that id would be accepted, and an
      accepted registration adds that account and no other. */
  lemma CheckPredictsRegistration(version: nat, check: AuthPacket, submit: AuthPacket, ch: nat, s: State)
    requires check.control == ID_CHECK && submit.control == REGISTRATION_SUBMIT && |submit.payload| >= 52
    requires UntilNul(check.payload) == UntilNul(submit.payload[..16])
    ensures var id := UntilNul(check.payload);
      var free := HandleAuth(version, check, ch, s).reply == AuthMessage(ch, check.code, 1, Le32(12));
      && (free <==> HandleAuth(version, submit, ch, s).state != s)
      && HandleAuth(version, submit, ch, s).state ==
         if free then State(s.profile[id := UntilNul(submit.payload[36..52])], Some(DefaultSession(id))) else s
  {
    var yes, no := AuthMessage(ch, check.code, 1, Le32(12)), AuthMessage(ch, check.code, 1, Le32(0));
    assert yes[12] == 12 && no[12] == 0;
    var id := UntilNul(check.payload);
    if id != [] && id !in s.profile {
      assert id in HandleAuth(version, submit, ch, s).state.profile;
    }
  }

  lemma RepliesKeepAccounts(version: nat, pkt: AuthPacket, ch: nat, s: State)
    ensures Keeps(s.profile, HandleAuth(version, pkt, ch, s).state.profile)
  {
  }

  lemma {:induction false} SendKeepsState(env: Env, s: Runtime, packets: seq<Bytes>)
    ensures SendPackets(env, s, packets).next.state == s.state
    decreases packets
  {
    if packets != [] {
      if packets[0] == [] {
        SendKeepsState(env, s, packets[1..]);
      } else if |s.sent| < env.capacity {
        SendKeepsState(env, s.(sent := s.sent + [packets[0]]), packets[1..]);
      }
    }
  }

  lemma FrameKeepsAccounts(env: Env, s: Runtime, frame: Bytes)
    requires IsFrame(frame)
    ensures Keeps(s.state.profile, HandleFrame(env, s, frame).next.state.profile)
  {
    var ch, body := ParseHeader(frame).value.channel, frame[4..];
    var reject := [ControlMessage(CTRL_REJECT_OR_ABORT, ch)];
    SendKeepsState(env, s, reject);
    if ch == 0 {
      var ctrl := ParseControl(body).value;
      SendKeepsState(env, AfterOpen(s, ctrl.channel), OpenReplies(s, ctrl.channel));
      SendKeepsState(env, AfterClose(s, ctrl.channel), CloseReplies(s, ctrl.channel));
    } else if ch == 1 && ParseAuthPacket(body).Some? {
      var pkt := ParseAuthPacket(body).value;
      var o := HandleAuth(env.version, pkt, ch, s.state);
      RepliesKeepAccounts(env.version, pkt, ch, s.state);
      SendKeepsState(env, s.(state := o.state), [o.reply]);
    } else if ParseChannelPacket(body).Some? {
      var o := DispatchPacket(ParseChannelPacket(body).value, ch, s.state);
      SendKeepsState(env, s.(state := o.state), [o.reply]);
    }
  }

  /** No byte stream removes an account or changes its password. */
  lemma {:induction false} StreamKeepsAccounts(env: Env, buf: Bytes, s: Runtime)
    ensures Keeps(s.state.profile, Process(env, buf, s).runtime.state.profile)
    decreases |buf|
  {
    match ScanFrame(buf)
    case Whole(n) =>
      FrameKeepsAccounts(env, s, buf[..n]);
      var step := HandleFrame(env, s, buf[..n]);
      if step.alive {
        StreamKeepsAccounts(env, buf[n..], step.next);
      }
    case _ =>
  }

  // ----- announced closes

  function CloseOf(c: nat): Bytes { ControlMessage(CTRL_CLOSE, c) }

  ghost predicate IsCloseOf(packet: Bytes, c: nat) {
    c < 65536 && packet == CloseOf(c)
  }

  /** Between the two states the client was told that a channel is closed which is still open. */
  ghost predicate FalseClose(before: Runtime, after: Runtime) {
    exists k, c: nat :: |before.sent| <= k < |after.sent| && IsCloseOf(after.sent[k], c) && c in after.open
  }

  predicate IsLogout(frame: Bytes)
    requires IsFrame(frame)
  {
    && ParseHeader(frame).value.channel == 1
    && ParseAuthPacket(frame[4..]).Some? && ParseAuthPacket(frame[4..]).value.control == LOGOUT
  }

  lemma {:induction false} SendAdds(env: Env, s: Runtime, packets: seq<Bytes>)
    ensures var after := SendPackets(env, s, packets).next;
      && after.open == s.open && s.sent <= after.sent
      && forall k :: |s.sent| <= k < |after.sent| ==> after.sent[k] in packets && after.sent[k] != []
    decreases packets
  {
    if packets != [] {
      if packets[0] == [] {
        SendAdds(env, s, packets[1..]);
      } else if |s.sent| < env.capacity {
        SendAdds(env, s.(sent := s.sent + [packets[0]]), packets[1..]);
      }
    }
  }

  /** No close among the replies of a batch. */
  ghost predicate CloseFree(packets: seq<Bytes>) {
    forall p, c: nat :: p in packets && p != [] ==> !IsCloseOf(p, c)
  }

  lemma SendCloseFree(env: Env, s: Runtime, packets: seq<Bytes>, before: Runtime)
    requires CloseFree(packets) && before.sent == s.sent
    ensures !FalseClose(before, SendPackets(env, s, packets).next)
  {
    SendAdds(env, s, packets);
  }

  lemma DataFrameIsNoClose(r: Bytes, ch: nat)
    requires 1 <= ch <= 14 && (r == [] || r[0] == ch)
    ensures CloseFree([r])
  {
    forall c: nat ensures r != [] ==> !IsCloseOf(r, c) {
      assert CloseOf(c)[0] == 0;
    }
  }

  lemma RejectIsNoClose(ch: nat)
    requires ch < 65536
    ensures CloseFree([ControlMessage(CTRL_REJECT_OR_ABORT, ch)])
  {
    forall c: nat ensures !IsCloseOf(ControlMessage(CTRL_REJECT_OR_ABORT, ch), c) {
      if c < 65536 { ControlMessageInjective(CTRL_REJECT_OR_ABORT, ch, CTRL_CLOSE, c); }
    }
  }

  lemma OpenRepliesNoClose(s: Runtime, ch: nat)
    requires ch < 65536
    ensures CloseFree(OpenReplies(s, ch))
  {
    RejectIsNoClose(ch);
    forall p, c: nat | p in OpenReplies(s, ch) ensures !IsCloseOf(p, c) {
      if c < 65536 {
        ControlMessageInjective(CTRL_OPEN_OK, ch, CTRL_CLOSE, c);
        ControlMessageInjective(CTRL_REJECT_OR_ABORT, ch, CTRL_CLOSE, c);
      }
      assert ch == 2 ==> WorldMap(ch)[0] == 2;
      assert CloseOf(c)[0] == 0;
    }
  }

  lemma ControlKeepsClosesTrue(env: Env, s: Runtime, body: Bytes)
    requires |body| == 4
    ensures !FalseClose(s, HandleControl(env, s, body).next)
  {
    var ctrl := ParseControl(body).value;
    var closing := CloseReplies(s, ctrl.channel);
    OpenRepliesNoClose(s, ctrl.channel);
    SendCloseFree(env, AfterOpen(s, ctrl.channel), OpenReplies(s, ctrl.channel), s);
    SendAdds(env, AfterClose(s, ctrl.channel), closing);
    var after := SendPackets(env, AfterClose(s, ctrl.channel), closing).next;
    forall k, c: nat | |s.sent| <= k < |after.sent| && IsCloseOf(after.sent[k], c) ensures c !in after.open {
      assert after.sent[k] in closing;
      ControlMessageInjective(CTRL_CLOSE, ctrl.channel, CTRL_CLOSE, c);
    }
  }

  lemma AppClosesOnlyByLogout(env: Env, s: Runtime, frame: Bytes)
    requires IsFrame(frame) && ParseHeader(frame).value.channel != 0 && !(IsLogout(frame) && 1 in s.open)
    ensures !FalseClose(s, HandleFrame(env, s, frame).next)
  {
    var ch, body := ParseHeader(frame).value.channel, frame[4..];
    RejectIsNoClose(ch);
    SendCloseFree(env, s, [ControlMessage(CTRL_REJECT_OR_ABORT, ch)], s);
    if DataChannel(ch) && ch in s.open {
      if ch == 1 && ParseAuthPacket(body).Some? {
        var o := HandleAuth(env.version, ParseAuthPacket(body).value, ch, s.state);
        AuthFirstByte(env.version, ParseAuthPacket(body).value, s.state);
        DataFrameIsNoClose(o.reply, ch);
        SendCloseFree(env, s.(state := o.state), [o.reply], s);
      } else if ch != 1 && ParseChannelPacket(body).Some? {
        var o := DispatchPacket(ParseChannelPacket(body).value, ch, s.state);
        DispatchFirstByte(ParseChannelPacket(body).value, ch, s.state);
        DataFrameIsNoClose(o.reply, ch);
        SendCloseFree(env, s.(state := o.state), [o.reply], s);
      }
    }
  }

  /** What the server announces as closed is closed, except after a logout on an open channel 1
      that the guest still receives. */
  lemma FalseCloseIff(env: Env, s: Runtime, frame: Bytes)
    requires IsFrame(frame)
    ensures FalseClose(s, HandleFrame(env, s, frame).next) <==>
            IsLogout(frame) && 1 in s.open && |s.sent| < env.capacity
  {
    if IsLogout(frame) && 1 in s.open {
      var pkt := ParseAuthPacket(frame[4..]).value;
      SendOne(env, s.(state := HandleAuth(env.version, pkt, 1, s.state).state), CloseOf(1));
      var after := HandleFrame(env, s, frame).next;
      if |s.sent| < env.capacity {
        assert IsCloseOf(after.sent[|s.sent|], 1);
      }
    } else if ParseHeader(frame).value.channel == 0 {
      ControlKeepsClosesTrue(env, s, frame[4..]);
    } else {
      AppClosesOnlyByLogout(env, s, frame);
    }
  }
}

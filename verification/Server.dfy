/** The DNet server: frame reassembly, channel state and dispatch. */
module Server {
  import opened Common
  import opened Protocol
  import opened Session
  import opened Domain

  /** `version` is the version file's number; `capacity` is how many packets the guest takes
      before it hangs up. */
  datatype Env = Env(version: nat, capacity: nat)

  /** `opens` and `closes` record accepted opens and closes or aborts that ended one. */
  datatype Runtime = Runtime(open: set<nat>, state: State, sent: seq<Bytes>, opens: seq<nat>, closes: seq<nat>)

  datatype Step = Step(next: Runtime, alive: bool)

  function Fresh(): Runtime { Runtime({}, Session.Initial(), [], [], []) }

  predicate DataChannel(ch: nat) { 1 <= ch <= 14 }

  function SendPackets(env: Env, s: Runtime, packets: seq<Bytes>): Step
    decreases packets
  {
    if packets == [] then Step(s, true)
    else if packets[0] == [] then SendPackets(env, s, packets[1..])
    else if |s.sent| >= env.capacity then Step(s, false)
    else SendPackets(env, s.(sent := s.sent + [packets[0]]), packets[1..])
  }

  function OpenReplies(s: Runtime, ch: nat): seq<Bytes> {
    if !DataChannel(ch) || ch in s.open then [ControlMessage(CTRL_REJECT_OR_ABORT, ch)]
    else if ch == 2 then [ControlMessage(CTRL_OPEN_OK, ch), WorldMap(ch)]
    else [ControlMessage(CTRL_OPEN_OK, ch)]
  }

  function AfterOpen(s: Runtime, ch: nat): Runtime {
    if !DataChannel(ch) || ch in s.open then s else s.(open := s.open + {ch}, opens := s.opens + [ch])
  }

  function AfterClose(s: Runtime, ch: nat): Runtime {
    if ch in s.open then s.(open := s.open - {ch}, closes := s.closes + [ch]) else s
  }

  function CloseReplies(s: Runtime, ch: nat): seq<Bytes> {
    if ch in s.open then [ControlMessage(CTRL_CLOSE, ch)] else []
  }

  function HandleControl(env: Env, s: Runtime, body: Bytes): Step {
    match ParseControl(body)
    case None => Step(s, false)
    case Some(ctrl) =>
      if ctrl.msgType == CTRL_OPEN then SendPackets(env, AfterOpen(s, ctrl.channel), OpenReplies(s, ctrl.channel))
      else if ctrl.msgType == CTRL_REJECT_OR_ABORT then Step(AfterClose(s, ctrl.channel), true)
      else if ctrl.msgType == CTRL_CLOSE then
        SendPackets(env, AfterClose(s, ctrl.channel), CloseReplies(s, ctrl.channel))
      else Step(s, true)
  }

  function Reject(env: Env, s: Runtime, ch: nat): Step {
    SendPackets(env, s, [ControlMessage(CTRL_REJECT_OR_ABORT, ch)])
  }

  function HandleApp(env: Env, s: Runtime, ch: nat, body: Bytes): Step {
    if !DataChannel(ch) || ch !in s.open then Reject(env, s, ch)
    else if ch == 1 then
      match ParseAuthPacket(body)
      case None => Reject(env, s, ch)
      case Some(pkt) =>
        var o := HandleAuth(env.version, pkt, ch, s.state);
        SendPackets(env, s.(state := o.state), [o.reply])
    else
      match ParseChannelPacket(body)
      case None => Reject(env, s, ch)
      case Some(pkt) =>
        var o := DispatchPacket(pkt, ch, s.state);
        SendPackets(env, s.(state := o.state), [o.reply])
  }

  function HandleFrame(env: Env, s: Runtime, frame: Bytes): Step
    requires IsFrame(frame)
  {
    var ch := ParseHeader(frame).value.channel;
    if ch == 0 then HandleControl(env, s, frame[4..]) else HandleApp(env, s, ch, frame[4..])
  }

  /** What is left unread, the state, and whether the connection goes on. */
  datatype Progress = Progress(rest: Bytes, runtime: Runtime, alive: bool)

  function Process(env: Env, buf: Bytes, s: Runtime): Progress {
    match ScanFrame(buf)
    case NeedMore => Progress(buf, s, true)
    case BadHeader => Progress(buf, s, false)
    case Whole(n) =>
      var step := HandleFrame(env, s, buf[..n]);
      if step.alive then Process(env, buf[n..], step.next) else Progress(buf[n..], step.next, false)
  }

  // ----- the runtime object

  class ServerRuntime {
    const env: Env
    var byteBuf: Bytes
    var openChannels: set<nat>
    const request: Account
    var sent: seq<Bytes>
    ghost var opens: seq<nat>
    ghost var closes: seq<nat>

    ghost function View(): Runtime
      reads this, request
    {
      Runtime(openChannels, request.View(), sent, opens, closes)
    }

    constructor (e: Env)
      ensures env == e && byteBuf == [] && View() == Fresh() && fresh(request)
    {
      env := e;
      request := new Account();
      byteBuf, openChannels, sent := [], {}, [];
      opens, closes := [], [];
    }

    method Send(responses: seq<Bytes>) returns (ok: bool)
      modifies this`sent
      ensures Step(View(), ok) == SendPackets(env, old(View()), responses)
    {
      var k := 0;
      while k < |responses|
        invariant 0 <= k <= |responses|
        invariant SendPackets(env, View(), responses[k..]) == SendPackets(env, old(View()), responses)
        invariant View() == old(View()).(sent := sent)
      {
        var data := responses[k];
        if data != [] {
          if |sent| >= env.capacity {
            return false;
          }
          sent := sent + [data];
        }
        k := k + 1;
      }
      return true;
    }

    method HandleOpenRequest(ch: nat) returns (responses: seq<Bytes>)
      modifies this`openChannels, this`opens
      ensures View() == AfterOpen(old(View()), ch) && responses == OpenReplies(old(View()), ch)
    {
      if !DataChannel(ch) {
        return [ControlMessage(CTRL_REJECT_OR_ABORT, ch)];
      }
      if ch in openChannels {
        return [ControlMessage(CTRL_REJECT_OR_ABORT, ch)];
      }
      openChannels := openChannels + {ch};
      opens := opens + [ch];
      responses := [ControlMessage(CTRL_OPEN_OK, ch)];
      if ch == 2 {
        responses := responses + [WorldMap(ch)];
      }
    }

    method HandleControlMessage(body: Bytes) returns (ok: bool)
      modifies this`openChannels, this`opens, this`closes, this`sent
      ensures Step(View(), ok) == HandleControl(env, old(View()), body)
    {
      var parsed := ParseControl(body);
      if parsed.None? {
        return false;
      }
      var ctrl := parsed.value;
      var responses := [];
      if ctrl.msgType == CTRL_OPEN {
        responses := HandleOpenRequest(ctrl.channel);
      } else if ctrl.msgType == CTRL_REJECT_OR_ABORT || ctrl.msgType == CTRL_CLOSE {
        var wasOpen := ctrl.channel in openChannels;
        openChannels := openChannels - {ctrl.channel};
        if wasOpen {
          closes := closes + [ctrl.channel];
          if ctrl.msgType == CTRL_CLOSE {
            responses := [ControlMessage(CTRL_CLOSE, ctrl.channel)];
          }
        }
      }
      ok := Send(responses);
    }

    method HandleAppMessage(ch: nat, body: Bytes) returns (ok: bool)
      modifies request, this`sent
      ensures Step(View(), ok) == HandleApp(env, old(View()), ch, body)
    {
      if !DataChannel(ch) || ch !in openChannels {
        ok := Send([ControlMessage(CTRL_REJECT_OR_ABORT, ch)]);
        return;
      }
      if ch == 1 {
        var auth := ParseAuthPacket(body);
        if auth.None? {
          ok := Send([ControlMessage(CTRL_REJECT_OR_ABORT, ch)]);
          return;
        }
        var reply := request.Auth(env.version, auth.value, ch);
        ok := Send([reply]);
        return;
      }
      var pkt := ParseChannelPacket(body);
      if pkt.None? {
        ok := Send([ControlMessage(CTRL_REJECT_OR_ABORT, ch)]);
        return;
      }
      var reply := request.Dispatch(pkt.value, ch);
      ok := Send([reply]);
    }

    method HandleWholeFrame(frame: Bytes) returns (ok: bool)
      requires IsFrame(frame)
      modifies this`openChannels, this`opens, this`closes, this`sent, request
      ensures Step(View(), ok) == HandleFrame(env, old(View()), frame)
    {
      var channel := ParseHeader(frame).value.channel;
      if channel == 0 {
        ok := HandleControlMessage(frame[4..]);
      } else {
        ok := HandleAppMessage(channel, frame[4..]);
      }
    }

    method ProcessRecvData() returns (ok: bool)
      modifies this, request
      ensures Progress(byteBuf, View(), ok) == Process(env, old(byteBuf), old(View()))
    {
      while true
        invariant Process(env, byteBuf, View()) == Process(env, old(byteBuf), old(View()))
        decreases |byteBuf|
      {
        if |byteBuf| < 4 {
          return true;
        }
        var header := ParseHeader(byteBuf);
        if header.None? {
          return false;
        }
        var needed := 4 + header.value.length;
        if |byteBuf| < needed {
          return true;
        }
        var frame := byteBuf[..needed];
        assert ScanFrame(byteBuf) == Whole(needed);
        byteBuf := byteBuf[needed..];
        ok := HandleWholeFrame(frame);
        if !ok {
          return false;
        }
      }
    }

    /** The handler loop over the chunks as they arrive; it returns at the first failure or
        when the sender is gone. */
    method Run(chunks: seq<Bytes>) returns (alive: bool)
      modifies this, request
      ensures Progress(byteBuf, View(), alive) == RunChunks(env, Progress(old(byteBuf), old(View()), true), chunks)
    {
      var k := 0;
      while k < |chunks|
        invariant 0 <= k <= |chunks|
        invariant RunChunks(env, Progress(byteBuf, View(), true), chunks[k..])
                  == RunChunks(env, Progress(old(byteBuf), old(View()), true), chunks)
      {
        byteBuf := byteBuf + chunks[k];
        var ok := ProcessRecvData();
        DeadStaysDead(env, Progress(byteBuf, View(), false), chunks[k + 1..]);
        if !ok {
          return false;
        }
        k := k + 1;
      }
      return true;
    }
  }

  function Feed(env: Env, p: Progress, chunk: Bytes): Progress {
    if p.alive then Process(env, p.rest + chunk, p.runtime) else p
  }

  function RunChunks(env: Env, p: Progress, chunks: seq<Bytes>): Progress
    decreases chunks
  {
    if chunks == [] then p else RunChunks(env, Feed(env, p, chunks[0]), chunks[1..])
  }

  lemma {:induction false} DeadStaysDead(env: Env, p: Progress, chunks: seq<Bytes>)
    requires !p.alive
    ensures RunChunks(env, p, chunks) == p
    decreases chunks
  {
    if chunks != [] {
      DeadStaysDead(env, p, chunks[1..]);
    }
  }

  // ----- chunking does not matter

  lemma {:induction false} ProcessInTwo(env: Env, a: Bytes, b: Bytes, s: Runtime)
    ensures var first := Process(env, a, s);
      Process(env, a + b, s) ==
      if first.alive then Process(env, first.rest + b, first.runtime) else first.(rest := first.rest + b)
    decreases |a|
  {
    ScanPrefix(a, b);
    match ScanFrame(a)
    case Whole(n) =>
      var step := HandleFrame(env, s, a[..n]);
      if step.alive {
        ProcessInTwo(env, a[n..], b, step.next);
      }
    case _ =>
  }

  /** The run ended in chunk `k`, leaving unread exactly what the whole stream leaves unread,
      up to the chunks that never arrived. */
  ghost predicate StopsIn(env: Env, p: Progress, chunks: seq<Bytes>, k: int) {
    && 0 <= k < |chunks|
    && RunChunks(env, p, chunks) == RunChunks(env, p, chunks[..k + 1])
    && RunChunks(env, p, chunks).rest + Flat(chunks[k + 1..]) == Feed(env, p, Flat(chunks)).rest
  }

  lemma StopsLater(env: Env, p: Progress, chunks: seq<Bytes>, k: int)
    requires chunks != [] && StopsIn(env, Feed(env, p, chunks[0]), chunks[1..], k)
    requires Feed(env, Feed(env, p, chunks[0]), Flat(chunks[1..])).rest == Feed(env, p, Flat(chunks)).rest
    ensures StopsIn(env, p, chunks, k + 1)
  {
    var tail := chunks[1..];
    assert chunks[k + 1 + 1..] == tail[k + 1..];
    assert chunks[..k + 1 + 1][1..] == tail[..k + 1] && chunks[..k + 1 + 1][0] == chunks[0];
  }

  lemma StopsAtOnce(env: Env, p: Progress, chunks: seq<Bytes>)
    requires chunks != [] && !Feed(env, p, chunks[0]).alive
    requires Feed(env, p, chunks[0]).rest + Flat(chunks[1..]) == Feed(env, p, Flat(chunks)).rest
    ensures RunChunks(env, p, chunks) == Feed(env, p, chunks[0]) && StopsIn(env, p, chunks, 0)
  {
    var first, tail := Feed(env, p, chunks[0]), chunks[1..];
    DeadStaysDead(env, first, tail);
    assert chunks[..1][1..] == [] && chunks[..1][0] == chunks[0] && chunks[0 + 1..] == tail;
    assert RunChunks(env, p, chunks[..1]) == first;
  }

  /** However the client's bytes are cut into chunks, the packets sent, the session, the open
      channels and the outcome are those of the whole stream fed at once, and processing stops
      after the same byte. */
  lemma {:induction false} ChunkingIrrelevant(env: Env, p: Progress, chunks: seq<Bytes>)
    requires p.alive && ScanFrame(p.rest).NeedMore?
    ensures var cut, whole := RunChunks(env, p, chunks), Process(env, p.rest + Flat(chunks), p.runtime);
      && cut.runtime == whole.runtime && cut.alive == whole.alive
      && (cut.alive ==> cut.rest == whole.rest)
      && (!cut.alive ==> exists k :: StopsIn(env, p, chunks, k))
    decreases chunks
  {
    if chunks == [] {
      assert p.rest + [] == p.rest;
    } else {
      var first := Feed(env, p, chunks[0]);
      var tail := chunks[1..];
      assert p.rest + Flat(chunks) == (p.rest + chunks[0]) + Flat(tail);
      ProcessInTwo(env, p.rest + chunks[0], Flat(tail), p.runtime);
      if first.alive {
        ProcessStops(env, p.rest + chunks[0], p.runtime);
        ChunkingIrrelevant(env, first, tail);
        if !RunChunks(env, first, tail).alive {
          var k :| StopsIn(env, first, tail, k);
          StopsLater(env, p, chunks, k);
        }
      } else {
        StopsAtOnce(env, p, chunks);
      }
    }
  }

  lemma {:induction false} ProcessStops(env: Env, buf: Bytes, s: Runtime)
    ensures Process(env, buf, s).alive ==> ScanFrame(Process(env, buf, s).rest).NeedMore?
    decreases |buf|
  {
    match ScanFrame(buf)
    case Whole(n) =>
      var step := HandleFrame(env, s, buf[..n]);
      if step.alive {
        ProcessStops(env, buf[n..], step.next);
      }
    case _ =>
  }
}

/** From the server's packets through the virtual socket to the packet log: every run of
arrivals, receives, peeks, polls and drains on one connection. */
module EndToEnd {
  import opened Common
  import opened Protocol
  import opened Server
  import opened ServerRuns
  import opened Socket
  import opened PacketLogger

  /** `sent` and `delivered` are histories: packets put on the channel, and bytes handed to
      the guest by receives that were not peeks. */
  datatype Link = Link(sock: Sock, sent: seq<Bytes>, delivered: Bytes, logBuf: Bytes, logged: seq<Bytes>)

  datatype Event = Arrive(packet: Bytes) | HangUp | Receive(requested: nat, peek: bool) | Poll | DrainEvents

  function Connected(): Link { Link(Sock(true, [], false, []), [], [], [], []) }

  function Log(l: Link, data: Bytes): Link {
    if data == [] then l
    else var d := Drain(l.logBuf + data); l.(logBuf := d.rest, logged := l.logged + d.frames)
  }

  function Next(l: Link, e: Event): Link {
    match e
    case Arrive(packet) => l.(sock := l.sock.(queue := l.sock.queue + [packet]), sent := l.sent + [packet])
    case HangUp => l.(sock := l.sock.(hungUp := true))
    case Receive(requested, peek) =>
      var (s, r) := RecvPending(l.sock, requested, peek);
      if r.Data? && !peek then Log(l.(sock := s, delivered := l.delivered + r.bytes), r.bytes) else l.(sock := s)
    case Poll => l.(sock := PollReadable(l.sock).0)
    case DrainEvents => l.(sock := DrainAll(l.sock))
  }

  function Run(events: seq<Event>): Link {
    if events == [] then Connected() else Next(Run(events[..|events| - 1]), events[|events| - 1])
  }

  /** Only nonempty packets are put on the channel. */
  predicate NonemptyArrivals(events: seq<Event>) {
    forall k :: 0 <= k < |events| && events[k].Arrive? ==> events[k].packet != []
  }

  ghost predicate StreamKept(l: Link) {
    l.sock.attached && NoEmptyMessages(l.sock) && l.delivered + Pending(l.sock) == Flat(l.sent)
  }

  ghost predicate LogKept(l: Link) {
    Drain(l.delivered) == Drained(l.logged, l.logBuf)
  }

  lemma ArriveKeepsStream(l: Link, packet: Bytes)
    requires StreamKept(l) && packet != []
    ensures StreamKept(Next(l, Arrive(packet)))
  {
    FlatAppend(l.sock.queue, [packet]);
    FlatAppend(l.sent, [packet]);
    FlatOne(packet);
    Regroup(l.sock.recvBuf, Flat(l.sock.queue), packet);
    Regroup(l.delivered, Pending(l.sock), packet);
  }

  lemma ReceiveKeepsStream(l: Link, requested: nat, peek: bool)
    requires StreamKept(l)
    ensures StreamKept(Next(l, Receive(requested, peek)))
  {
    RecvKeepsStream(l.sock, requested, peek);
    var (s, r) := RecvPending(l.sock, requested, peek);
    Regroup(l.delivered, if r.Data? then r.bytes else [], Pending(s));
  }

  lemma Regroup(a: Bytes, b: Bytes, c: Bytes)
    ensures a + (b + c) == (a + b) + c
  {
  }

  lemma LogKeepsLog(l: Link, data: Bytes)
    requires LogKept(l)
    ensures LogKept(Log(l.(delivered := l.delivered + data), data))
  {
    DrainInTwo(l.delivered, data);
    assert l.delivered + [] == l.delivered;
  }

  lemma StepKeepsInv(l: Link, e: Event)
    requires StreamKept(l) && LogKept(l) && (e.Arrive? ==> e.packet != [])
    ensures StreamKept(Next(l, e)) && LogKept(Next(l, e))
  {
    match e
    case Arrive(packet) => ArriveKeepsStream(l, packet);
    case HangUp =>
    case Receive(requested, peek) =>
      ReceiveKeepsStream(l, requested, peek);
      var r := RecvPending(l.sock, requested, peek).1;
      if r.Data? && !peek {
        LogKeepsLog(l.(sock := RecvPending(l.sock, requested, peek).0), r.bytes);
      }
    case Poll => PollKeepsStream(l.sock);
    case DrainEvents => DrainKeepsStream(l.sock);
  }

  /** In every run the delivered bytes followed by the pending ones are the sent bytes: none
      lost, none doubled, none out of order. */
  lemma {:induction false} RunKeepsStream(events: seq<Event>)
    requires NonemptyArrivals(events)
    ensures StreamKept(Run(events)) && LogKept(Run(events))
  {
    if events != [] {
      RunKeepsStream(events[..|events| - 1]);
      StepKeepsInv(Run(events[..|events| - 1]), events[|events| - 1]);
    } else {
      assert Connected().delivered + Pending(Connected().sock) == [];
    }
  }

  function Arrived(e: Event): seq<Bytes> { if e.Arrive? then [e.packet] else [] }

  /** What a receive that is no peek hands out. */
  function HandedOut(l: Link, e: Event): Bytes {
    if e.Receive? && !e.peek then
      var r := RecvPending(l.sock, e.requested, false).1;
      if r.Data? then r.bytes else []
    else []
  }

  function AllArrived(events: seq<Event>): seq<Bytes> {
    if events == [] then [] else AllArrived(events[..|events| - 1]) + Arrived(events[|events| - 1])
  }

  function AllHandedOut(events: seq<Event>): Bytes {
    if events == [] then []
    else AllHandedOut(events[..|events| - 1]) + HandedOut(Run(events[..|events| - 1]), events[|events| - 1])
  }

  lemma StepHistory(l: Link, e: Event)
    requires l.sock.attached
    ensures var l' := Next(l, e);
      && l'.sent == l.sent + Arrived(e) && l'.delivered == l.delivered + HandedOut(l, e)
      && l'.sock.attached && (l'.sock.hungUp <==> l.sock.hungUp || e == HangUp)
  {
    assert l.delivered + [] == l.delivered && l.sent + [] == l.sent;
    if e.Receive? {
      RecvKeepsStream(l.sock, e.requested, e.peek);
    } else if e.Poll? {
      PollKeepsStream(l.sock);
    }
  }

  /** The histories are what happened: every arrival was sent, and exactly the bytes handed out
      were delivered, both in order. */
  lemma {:induction false} RunHistory(events: seq<Event>)
    ensures Run(events).sent == AllArrived(events) && Run(events).delivered == AllHandedOut(events)
    ensures Run(events).sock.attached
  {
    if events != [] {
      RunHistory(events[..|events| - 1]);
      StepHistory(Run(events[..|events| - 1]), events[|events| - 1]);
    }
  }

  /** And the sender is gone exactly after it hung up. */
  lemma {:induction false} RunHangUp(events: seq<Event>)
    ensures Run(events).sock.hungUp <==> exists k :: 0 <= k < |events| && events[k] == HangUp
  {
    if events != [] {
      var n := |events| - 1;
      RunHistory(events[..n]);
      RunHangUp(events[..n]);
      StepHistory(Run(events[..n]), events[n]);
    }
  }

  /** A receive that returns nothing, or end of stream, means everything sent was delivered and
      (for end of stream) that the sender is gone. */
  lemma NothingReceivedMeansDrained(events: seq<Event>, requested: nat, peek: bool)
    requires NonemptyArrivals(events) && requested > 0
    ensures var (_, r) := RecvPending(Run(events).sock, requested, peek);
      && ((!r.Data? || r.bytes == []) <==> Pending(Run(events).sock) == [])
      && (!r.Data? ==> Run(events).delivered == Flat(Run(events).sent))
      && (r.Disconnected? <==> Pending(Run(events).sock) == [] && Run(events).sock.hungUp)
  {
    var l := Run(events);
    RunKeepsStream(events);
    RecvKeepsStream(l.sock, requested, peek);
    if Pending(l.sock) == [] {
      if l.sock.queue != [] {
        PendingHead(l.sock);
        assert false;
      }
    }
  }

  // ----- frames recovered

  ghost function SplitPacket(packet: Bytes): (fs: seq<Bytes>)
    requires WellFramed(packet)
    ensures AllFrames(fs) && Flat(fs) == packet
  {
    var fs :| fs != [] && AllFrames(fs) && Flat(fs) == packet;
    fs
  }

  /** All frames of a list of packets, in order. */
  ghost function FramesOf(packets: seq<Bytes>): (fs: seq<Bytes>)
    requires forall k :: 0 <= k < |packets| ==> WellFramed(packets[k])
    ensures AllFrames(fs) && Flat(fs) == Flat(packets)
  {
    if packets == [] then []
    else
      FlatAppend(SplitPacket(packets[0]), FramesOf(packets[1..]));
      SplitPacket(packets[0]) + FramesOf(packets[1..])
  }

  ghost predicate ArrivalsFrom(events: seq<Event>, sent: seq<Bytes>) {
    Run(events).sent <= sent
  }

  lemma {:induction false} ArrivalsAreSent(events: seq<Event>)
    ensures forall k :: 0 <= k < |events| && events[k].Arrive? ==> events[k].packet in Run(events).sent
  {
    if events != [] {
      ArrivalsAreSent(events[..|events| - 1]);
      var before := Run(events[..|events| - 1]).sent;
      assert before <= Run(events).sent;
    }
  }

  /** End to end: for every client byte stream, and every way of receiving, peeking and polling
      what the server has sent so far, the log holds exactly the first frames the server sent,
      it never skips a byte to resynchronise, and it keeps back a proper part of the next. */
  lemma LoggedFramesArePrefix(env: Env, chunks: seq<Bytes>, events: seq<Event>)
    requires ArrivalsFrom(events, RunChunks(env, Progress([], Fresh(), true), chunks).runtime.sent)
    ensures var sent := RunChunks(env, Progress([], Fresh(), true), chunks).runtime.sent;
      && (forall k :: 0 <= k < |sent| ==> WellFramed(sent[k]))
      && Flat(Run(events).logged) + Run(events).logBuf == Run(events).delivered
      && exists k :: CutAt(FramesOf(sent), Drained(Run(events).logged, Run(events).logBuf), k)
  {
    var sent := RunChunks(env, Progress([], Fresh(), true), chunks).runtime.sent;
    var l := Run(events);
    RunsAreSound(env, chunks);
    ArrivalsAreSent(events);
    RunKeepsStream(events);
    assert sent == l.sent + sent[|l.sent|..];
    FlatAppend(l.sent, sent[|l.sent|..]);
    assert l.delivered <= Flat(l.sent) <= Flat(sent);
    DrainPrefix(FramesOf(sent), l.delivered);
    DrainLossless(FramesOf(sent), l.delivered);
  }
}

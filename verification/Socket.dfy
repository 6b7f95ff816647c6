/** The virtual socket's receive side: a channel of messages and the bytes already taken
from it but not yet delivered. */
module Socket {
  import opened Common
  import opened Protocol

  /** `attached` is false for a socket that was never connected; `hungUp` once every sender of
      the channel is gone. */
  datatype Sock = Sock(attached: bool, queue: seq<Bytes>, hungUp: bool, recvBuf: Bytes)

  datatype RecvResult = Data(bytes: Bytes) | Empty | Disconnected

  /** Every byte on its way to the guest, in order. */
  function Pending(s: Sock): Bytes { s.recvBuf + Flat(s.queue) }

  predicate ValidSock(s: Sock) {
    !s.attached ==> s.recvBuf == [] && s.queue == []
  }

  function AtMost(n: nat, data: Bytes): nat { if n <= |data| then n else |data| }

  function RecvPending(s: Sock, requested: nat, peek: bool): (Sock, RecvResult) {
    var take := AtMost(requested, s.recvBuf);
    var data := s.recvBuf[..take];
    var s1 := if peek then s else s.(recvBuf := s.recvBuf[take..]);
    if take >= requested then (s1, Data(data))
    else if !s.attached then (s1, Empty)
    else if s.queue == [] then (s1, if data != [] then Data(data) else if s.hungUp then Disconnected else Empty)
    else
      var msg := s.queue[0];
      var s2 := s1.(queue := s1.queue[1..]);
      if peek then
        var buf := s.recvBuf + msg;
        (s2.(recvBuf := buf), Data(buf[..AtMost(requested, buf)]))
      else
        var more := AtMost(requested - |data|, msg);
        (if |msg| > more then s2.(recvBuf := msg[more..] + s2.recvBuf) else s2, Data(data + msg[..more]))
  }

  /** `select` and `poll_wsa_event`: move one message into an empty buffer; readable when there
      is data or the channel is gone. */
  function PollReadable(s: Sock): (Sock, bool) {
    if s.recvBuf != [] then (s, true)
    else if !s.attached then (s, false)
    else if s.queue == [] then (s, s.hungUp)
    else (s.(recvBuf := s.queue[0], queue := s.queue[1..]), true)
  }

  /** `WSAEnumNetworkEvents`: move everything. */
  function DrainAll(s: Sock): Sock {
    if !s.attached then s else s.(recvBuf := s.recvBuf + Flat(s.queue), queue := [])
  }

  class VirtualSocket {
    var attached: bool
    var queue: seq<Bytes>
    var hungUp: bool
    var recvBuf: Bytes

    function View(): Sock
      reads this
    {
      Sock(attached, queue, hungUp, recvBuf)
    }

    method TakeFromRecvBuf(requested: nat, peek: bool) returns (data: Bytes)
      modifies this`recvBuf
      ensures data == old(recvBuf)[..AtMost(requested, old(recvBuf))]
      ensures recvBuf == if peek then old(recvBuf) else old(recvBuf)[|data|..]
    {
      var take := AtMost(requested, recvBuf);
      data := recvBuf[..take];
      if !peek {
        recvBuf := recvBuf[take..];
      }
    }

    method TryRecv() returns (r: RecvResult)
      requires attached
      modifies this`queue
      ensures old(queue) != [] ==> r == Data(old(queue)[0]) && queue == old(queue)[1..]
      ensures old(queue) == [] ==> queue == [] && r == if hungUp then Disconnected else Empty
    {
      if queue != [] {
        r := Data(queue[0]);
        queue := queue[1..];
      } else {
        r := if hungUp then Disconnected else Empty;
      }
    }

    method RecvPendingData(requested: nat, peek: bool) returns (r: RecvResult)
      modifies this`recvBuf, this`queue
      ensures (View(), r) == RecvPending(old(View()), requested, peek)
    {
      var data := [];
      if recvBuf != [] {
        data := TakeFromRecvBuf(requested, peek);
      }
      if |data| >= requested {
        return Data(data);
      }
      if !attached {
        return Empty;
      }
      var got := TryRecv();
      match got
      case Data(msg) =>
        if peek {
          recvBuf := recvBuf + msg;
          var copy := TakeFromRecvBuf(requested, true);
          return Data(copy);
        } else {
          var take := AtMost(requested - |data|, msg);
          data := data + msg[..take];
          if |msg| > take {
            recvBuf := msg[take..] + recvBuf;
          }
          return Data(data);
        }
      case _ =>
        if data == [] {
          return got;
        } else {
          return Data(data);
        }
    }

    method Poll() returns (readable: bool)
      modifies this`recvBuf, this`queue
      ensures (View(), readable) == PollReadable(old(View()))
    {
      if recvBuf != [] {
        return true;
      }
      if !attached {
        return false;
      }
      var got := TryRecv();
      match got
      case Data(msg) =>
        assert recvBuf + msg == msg;
        recvBuf := recvBuf + msg;
        return true;
      case Disconnected => return true;
      case Empty => return false;
    }

    method DrainChannel()
      modifies this`recvBuf, this`queue
      ensures View() == DrainAll(old(View()))
    {
      if attached {
        while queue != []
          invariant recvBuf + Flat(queue) == old(recvBuf) + Flat(old(queue))
          decreases |queue|
        {
          var got := TryRecv();
          recvBuf := recvBuf + got.bytes;
        }
      }
    }
  }

  // ----- the byte stream is kept

  predicate NoEmptyMessages(s: Sock) {
    forall k :: 0 <= k < |s.queue| ==> s.queue[k] != []
  }

  lemma PendingHead(s: Sock)
    requires s.queue != []
    ensures Flat(s.queue) == s.queue[0] + Flat(s.queue[1..])
  {
  }

  lemma TakeFromQueue(s: Sock, requested: nat)
    requires s.attached && s.queue != [] && |s.recvBuf| < requested
    ensures var (s', r) := RecvPending(s, requested, false);
      r.Data? && |r.bytes| <= requested && r.bytes + Pending(s') == Pending(s) && (s.queue[0] != [] ==> r.bytes != [])
  {
    var msg := s.queue[0];
    var more := AtMost(requested - |s.recvBuf|, msg);
    PendingHead(s);
    assert s.recvBuf[..|s.recvBuf|] == s.recvBuf && s.recvBuf[|s.recvBuf|..] == [];
    assert msg == msg[..more] + msg[more..];
    assert Pending(s) == (s.recvBuf + msg[..more]) + (msg[more..] + Flat(s.queue[1..]));
    assert Pending(RecvPending(s, requested, false).0) == msg[more..] + Flat(s.queue[1..]);
  }

  lemma PeekFromQueue(s: Sock, requested: nat)
    requires s.attached && s.queue != [] && |s.recvBuf| < requested
    ensures var (s', r) := RecvPending(s, requested, true);
      r.Data? && |r.bytes| <= requested && Pending(s') == Pending(s) && r.bytes <= Pending(s)
          && (s.queue[0] != [] ==> r.bytes != [])
  {
    var buf := s.recvBuf + s.queue[0];
    PendingHead(s);
    assert Pending(s) == buf + Flat(s.queue[1..]);
  }

  /** A receive hands over the front of what is pending and keeps the rest; a peek shows the
      front and keeps everything; an error means nothing was pending. */
  lemma RecvKeepsStream(s: Sock, requested: nat, peek: bool)
    requires ValidSock(s)
    ensures var (s', r) := RecvPending(s, requested, peek);
      && ValidSock(s') && s'.attached == s.attached && s'.hungUp == s.hungUp
      && (r.Data? ==> |r.bytes| <= requested && r.bytes <= Pending(s))
      && Pending(s) == (if r.Data? && !peek then r.bytes + Pending(s') else Pending(s'))
      && (!r.Data? ==> Pending(s) == [] && requested > 0)
      && (r.Disconnected? ==> s.hungUp)
      && (NoEmptyMessages(s) ==> NoEmptyMessages(s'))
      && (NoEmptyMessages(s) && requested > 0 && Pending(s) != [] ==> r.Data? && r.bytes != [])
  {
    var take := AtMost(requested, s.recvBuf);
    if take < requested && s.attached && s.queue != [] {
      if peek {
        PeekFromQueue(s, requested);
      } else {
        TakeFromQueue(s, requested);
      }
    } else {
      assert s.recvBuf == s.recvBuf[..take] + s.recvBuf[take..];
    }
  }

  /** How much a receive takes: from the buffer alone when that holds enough, else from the
      buffer and at most one queued message; the end of the stream is reported only with
      nothing in the buffer.  A peek moves that message into the buffer. */
  lemma RecvRule(s: Sock, requested: nat, peek: bool)
    requires ValidSock(s)
    ensures var (s', r) := RecvPending(s, requested, peek);
      && (requested <= |s.recvBuf| ==>
            r.Data? && |r.bytes| == requested && s'.queue == s.queue && (peek ==> s' == s))
      && (requested > |s.recvBuf| && s.queue != [] ==>
            && r.Data? && |r.bytes| == Min(requested, |s.recvBuf| + |s.queue[0]|) && s'.queue == s.queue[1..]
            && (peek ==> s'.recvBuf == s.recvBuf + s.queue[0]))
      && (requested > |s.recvBuf| && s.queue == [] ==>
            && s'.queue == [] && (peek ==> s' == s)
            && r == if s.recvBuf != [] then Data(s.recvBuf) else if s.attached && s.hungUp then Disconnected else Empty)
  {
    if !peek {
      assert s.recvBuf[..|s.recvBuf|] == s.recvBuf;
    }
  }

  /** A poll moves the first message into an empty buffer, and otherwise moves nothing. */
  lemma PollRule(s: Sock)
    requires ValidSock(s)
    ensures var s' := PollReadable(s).0;
      if s.recvBuf == [] && s.queue != [] then s'.recvBuf == s.queue[0] && s'.queue == s.queue[1..] else s' == s
  {
  }

  lemma PollKeepsStream(s: Sock)
    requires ValidSock(s)
    ensures var (s', readable) := PollReadable(s);
      && ValidSock(s') && Pending(s') == Pending(s) && s'.attached == s.attached && s'.hungUp == s.hungUp
      && (NoEmptyMessages(s) ==> NoEmptyMessages(s') && (readable <==> Pending(s) != [] || (s.attached && s.hungUp)))
  {
    if s.queue != [] {
      PendingHead(s);
    }
  }

  lemma DrainKeepsStream(s: Sock)
    requires ValidSock(s)
    ensures ValidSock(DrainAll(s)) && Pending(DrainAll(s)) == Pending(s)
              && (NoEmptyMessages(s) ==> NoEmptyMessages(DrainAll(s)))
    ensures s.attached ==> DrainAll(s).queue == []
  {
  }

  /** Without the socket invariant a receive would throw bytes away: exactly when the socket
      has no channel and its buffer holds some bytes, but fewer than requested. */
  lemma BytesDroppedIff(s: Sock, requested: nat)
    requires s.queue == []
    ensures var (s', r) := RecvPending(s, requested, false);
      (if r.Data? then r.bytes else []) + Pending(s') != Pending(s) <==> !s.attached && 0 < |s.recvBuf| < requested
  {
    var take := AtMost(requested, s.recvBuf);
    assert s.recvBuf == s.recvBuf[..take] + s.recvBuf[take..];
  }
}

/** DNet wire format: `[channel: u16 LE][length: u16 LE][body]`, and the packet builders. */
module Protocol {
  import opened Common

  type Bytes = seq<byte>

  const MAX_CHANNEL := 15
  const MAX_BODY := 0x1FFC

  const CTRL_OPEN := 1
  const CTRL_OPEN_OK := 2
  const CTRL_REJECT_OR_ABORT := 3
  const CTRL_CLOSE := 4

  function Le16(v: nat): Bytes { [v % 256, v / 256 % 256] }

  function Le32(v: nat): Bytes { [v % 256, v / 256 % 256, v / 65536 % 256, v / 16777216 % 256] }

  function U16(b: Bytes, i: nat): nat
    requires i + 2 <= |b|
  {
    b[i] as int + 256 * b[i + 1] as int
  }

  function U32(b: Bytes, i: nat): nat
    requires i + 4 <= |b|
  {
    U16(b, i) + 65536 * U16(b, i + 2)
  }

  function Zeros(n: nat): (z: Bytes)
    ensures |z| == n
  {
    seq(n, _ => 0)
  }

  function Flat(parts: seq<Bytes>): Bytes {
    if parts == [] then [] else parts[0] + Flat(parts[1..])
  }

  lemma {:induction false} FlatAppend(a: seq<Bytes>, b: seq<Bytes>)
    ensures Flat(a + b) == Flat(a) + Flat(b)
  {
    if a == [] {
      assert a + b == b;
    } else {
      assert (a + b)[1..] == a[1..] + b;
      FlatAppend(a[1..], b);
    }
  }

  lemma FlatOne(p: Bytes)
    ensures Flat([p]) == p
  {
    assert [p][1..] == [];
  }

  // ----- transport frames

  datatype Header = Header(channel: nat, length: nat)

  function ParseHeader(buf: Bytes): Option<Header>
    requires |buf| >= 4
  {
    var channel, length := U16(buf, 0), U16(buf, 2);
    if channel > MAX_CHANNEL || length > MAX_BODY then None
    else if channel == 0 && length != 4 then None
    else Some(Header(channel, length))
  }

  function ToBytes(channel: nat, body: Bytes): Bytes {
    Le16(channel) + Le16(|body|) + body
  }

  /** One complete frame, header and all. */
  predicate IsFrame(f: Bytes) {
    |f| >= 4 && ParseHeader(f).Some? && |f| == 4 + ParseHeader(f).value.length
  }

  predicate AllFrames(fs: seq<Bytes>) {
    forall k :: 0 <= k < |fs| ==> IsFrame(fs[k])
  }

  /** Bytes to the next frame boundary: nothing yet, a bad header, or a whole frame. */
  datatype Scan = NeedMore | BadHeader | Whole(length: nat)

  function ScanFrame(buf: Bytes): (scan: Scan)
    ensures scan.Whole? ==> 4 <= scan.length <= |buf| && IsFrame(buf[..scan.length])
  {
    if |buf| < 4 then NeedMore
    else
      match ParseHeader(buf)
      case None => BadHeader
      case Some(h) => if |buf| < 4 + h.length then NeedMore else Whole(4 + h.length)
  }

  /** What the first bytes decide, later bytes do not change. */
  lemma ScanPrefix(a: Bytes, b: Bytes)
    ensures !ScanFrame(a).NeedMore? ==> ScanFrame(a + b) == ScanFrame(a)
    ensures ScanFrame(a).Whole? ==> var n := ScanFrame(a).length; (a + b)[..n] == a[..n] && (a + b)[n..] == a[n..] + b
  {
  }

  /** One or more whole frames and nothing else. */
  ghost predicate WellFramed(packet: Bytes) {
    exists fs :: fs != [] && AllFrames(fs) && Flat(fs) == packet
  }

  /** A serialised packet is a frame that parses back to its channel and body exactly when
      the receiver's limits on channel and length are met. */
  lemma ToBytesIsFrameIff(channel: nat, body: Bytes)
    requires channel < 65536 && |body| < 65536
    ensures IsFrame(ToBytes(channel, body)) <==>
              channel <= MAX_CHANNEL && |body| <= MAX_BODY && (channel == 0 ==> |body| == 4)
    ensures IsFrame(ToBytes(channel, body)) ==>
              && ParseHeader(ToBytes(channel, body)) == Some(Header(channel, |body|))
              && ToBytes(channel, body)[4..] == body
  {
    var f := ToBytes(channel, body);
    assert f[0] == channel % 256 && f[1] == channel / 256 && f[2] == |body| % 256 && f[3] == |body| / 256;
    assert U16(f, 0) == channel && U16(f, 2) == |body|;
  }

  lemma OneFrame(f: Bytes)
    requires IsFrame(f)
    ensures WellFramed(f)
  {
    FlatOne(f);
    assert AllFrames([f]);
  }

  lemma TwoFrames(a: Bytes, b: Bytes)
    requires IsFrame(a) && IsFrame(b)
    ensures WellFramed(a + b)
  {
    FlatOne(b);
    assert [a, b][1..] == [b];
    assert AllFrames([a, b]);
  }

  /** On the wire: the channel and the length of the body, low byte first, then the body. */
  lemma ToBytesLayout(channel: nat, body: Bytes)
    requires channel < 65536 && |body| < 65536
    ensures ToBytes(channel, body) == [channel % 256, channel / 256, |body| % 256, |body| / 256] + body
  {
  }

  /** A header is good for channels 0 to 15 and bodies of at most 8188 bytes, and a control
      packet has exactly four; the numbers are read low byte first. */
  lemma HeaderRule(a: byte, b: byte, c: byte, d: byte, rest: Bytes)
    ensures var h := ParseHeader([a, b, c, d] + rest);
      && (h.Some? <==> b == 0 && a <= 15 && 256 * d as int + c as int <= 8188
                       && (a == 0 ==> c == 4 && d == 0))
      && (h.Some? ==> h.value == Header(a as int, 256 * d as int + c as int))
  {
    var buf := [a, b, c, d] + rest;
    assert buf[0] == a && buf[1] == b && buf[2] == c && buf[3] == d;
  }

  /** A frame is its four header bytes and its body. */
  lemma FrameBytes(f: Bytes)
    requires IsFrame(f)
    ensures var ch := ParseHeader(f).value.channel;
      && ch <= 15 && |f| == 4 + |f[4..]| && |f[4..]| <= 8188
      && f == [ch, 0, |f[4..]| % 256, |f[4..]| / 256] + f[4..] && f == ToBytes(ch, f[4..])
  {
    var rest := f[4..];
    HeaderRule(f[0], f[1], f[2], f[3], rest);
    assert f == [f[0], f[1], f[2], f[3]] + rest;
    ToBytesLayout(f[0], rest);
  }

  // ----- bodies

  datatype Control = Control(msgType: nat, channel: nat)

  function ParseControl(body: Bytes): Option<Control> {
    if |body| < 4 then None else Some(Control(U16(body, 0), U16(body, 2)))
  }

  function ControlMessage(msgType: nat, channel: nat): Bytes {
    ToBytes(0, Le16(msgType) + Le16(channel))
  }

  /** The eight bytes of a control packet. */
  function Ctrl(msgType: nat, channel: nat): Bytes
    requires msgType < 65536 && channel < 65536
  {
    [0, 0, 4, 0, msgType % 256, msgType / 256, channel % 256, channel / 256]
  }

  lemma ControlMessageBytes(msgType: nat, channel: nat)
    requires msgType < 65536 && channel < 65536
    ensures ControlMessage(msgType, channel) == Ctrl(msgType, channel)
  {
    ToBytesLayout(0, Le16(msgType) + Le16(channel));
  }

  /** Every frame on channel 0 is such a packet. */
  lemma ControlFrames(f: Bytes)
    requires IsFrame(f) && ParseHeader(f).value.channel == 0
    ensures var (msgType, channel) := (f[4] + 256 * f[5] as int, f[6] + 256 * f[7] as int);
      f == Ctrl(msgType, channel) && ParseControl(f[4..]) == Some(Control(msgType, channel))
  {
    FrameBytes(f);
    assert f[4..] == [f[4], f[5], f[6], f[7]];
  }

  lemma ControlMessageParses(msgType: nat, channel: nat)
    requires msgType < 65536 && channel < 65536
    ensures IsFrame(ControlMessage(msgType, channel))
    ensures ParseControl(ControlMessage(msgType, channel)[4..]) == Some(Control(msgType, channel))
    ensures ParseHeader(ControlMessage(msgType, channel)).value.channel == 0
  {
    ToBytesIsFrameIff(0, Le16(msgType) + Le16(channel));
  }

  datatype ChannelPacket = ChannelPacket(mainType: byte, subType: byte, payload: Bytes)

  function ParseChannelPacket(body: Bytes): Option<ChannelPacket> {
    if |body| < 2 then None else Some(ChannelPacket(body[0], body[1], body[2..]))
  }

  function AppPacket(channel: nat, mainType: byte, subType: byte, payload: Bytes): Bytes {
    ToBytes(channel, [mainType, subType] + payload)
  }

  datatype AuthPacket = AuthPacket(code: nat, control: nat, payload: Bytes)

  function ParseAuthPacket(body: Bytes): Option<AuthPacket> {
    if |body| < 8 then None else Some(AuthPacket(U32(body, 0), U32(body, 4), body[8..]))
  }

  function AuthMessage(channel: nat, code: nat, control: nat, payload: Bytes): Bytes {
    ToBytes(channel, Le32(code) + Le32(control) + payload)
  }

  lemma AuthMessageIsFrame(channel: nat, code: nat, control: nat, payload: Bytes)
    requires 1 <= channel <= MAX_CHANNEL && |payload| + 8 <= MAX_BODY
    ensures IsFrame(AuthMessage(channel, code, control, payload))
  {
    ToBytesIsFrameIff(channel, Le32(code) + Le32(control) + payload);
  }

  lemma AppPacketIsFrame(channel: nat, mainType: byte, subType: byte, payload: Bytes)
    requires 1 <= channel <= MAX_CHANNEL && |payload| + 2 <= MAX_BODY
    ensures IsFrame(AppPacket(channel, mainType, subType, payload))
  {
    ToBytesIsFrameIff(channel, [mainType, subType] + payload);
  }

  /** The fields of application bodies: two bytes, or two numbers of four bytes, low byte first. */
  lemma BodyFields(body: Bytes)
    ensures |body| < 2 ==> ParseChannelPacket(body) == None
    ensures |body| >= 2 ==> ParseChannelPacket(body) == Some(ChannelPacket(body[0], body[1], body[2..]))
    ensures |body| < 8 ==> ParseAuthPacket(body) == None
    ensures |body| >= 8 ==>
              var q := ParseAuthPacket(body);
              && q.Some? && q.value.payload == body[8..]
              && q.value.code == body[0] + 0x100 * body[1] as int + 0x1_0000 * body[2] as int
                                 + 0x100_0000 * body[3] as int
              && q.value.control == body[4] + 0x100 * body[5] as int + 0x1_0000 * body[6] as int
                                    + 0x100_0000 * body[7] as int
  {
  }

  /** Builders and parsers agree on every application packet. */
  lemma PacketsParseBack(channel: nat, p: ChannelPacket, q: AuthPacket)
    requires q.code < 0x1_0000_0000 && q.control < 0x1_0000_0000
    ensures ParseChannelPacket(AppPacket(channel, p.mainType, p.subType, p.payload)[4..]) == Some(p)
    ensures ParseAuthPacket(AuthMessage(channel, q.code, q.control, q.payload)[4..]) == Some(q)
  {
    var body := Le32(q.code) + Le32(q.control) + q.payload;
    assert AuthMessage(channel, q.code, q.control, q.payload)[4..] == body;
    Le32Value(q.code);
    Le32Value(q.control);
    assert body[0..4] == Le32(q.code) && body[4..8] == Le32(q.control) && body[8..] == q.payload;
    assert U32(body, 0) == U32(Le32(q.code), 0) && U32(body, 4) == U32(Le32(q.control), 0);
    var body' := [p.mainType, p.subType] + p.payload;
    assert AppPacket(channel, p.mainType, p.subType, p.payload)[4..] == body';
    assert body'[2..] == p.payload;
  }

  lemma Le32Value(v: nat)
    requires v < 0x1_0000_0000
    ensures U32(Le32(v), 0) == v
  {
    var a := v / 256;
    var b := a / 256;
    var c := b / 256;
    assert v / 65536 == b && v / 16777216 == c && c < 256;
  }
}

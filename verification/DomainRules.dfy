/** What the request handlers read from the wire and put on it. */
module DomainRules {
  import opened Common
  import opened Protocol
  import opened Session
  import opened Domain

  // ----- login payloads

  /** Nonempty and without a NUL. */
  predicate IsName(s: Bytes) { s != [] && 0 !in s }

  /** A name in a field of sixteen bytes. */
  function Field16(s: Bytes): Bytes
    requires |s| <= 16
  {
    s + Zeros(16 - |s|)
  }

  lemma {:induction false} NulEnds(s: Bytes, rest: Bytes)
    requires 0 !in s && (rest == [] || rest[0] == 0)
    ensures UntilNul(s + rest) == s
  {
    if s == [] {
      assert s + rest == rest;
    } else {
      assert (s + rest)[1..] == s[1..] + rest;
      NulEnds(s[1..], rest);
    }
  }

  lemma NoName(data: Bytes)
    ensures UntilNul(data) == [] <==> data == [] || data[0] == 0
  {
  }

  /** The id of a login on channel 1 ends at the first NUL, or after sixteen bytes. */
  lemma LoginIdRule(payload: Bytes)
    ensures LoginUserId(payload) == UntilNul(payload[..Min(|payload|, 16)])
  {
    if |payload| < 16 {
      assert payload[..|payload|] == payload;
    }
  }

  lemma LoginIdRead(id: Bytes, rest: Bytes)
    requires 0 !in id && |id| <= 16 && (|id| < 16 && rest != [] ==> rest[0] == 0)
    ensures LoginUserId(id + rest) == id
  {
    var payload := id + rest;
    LoginIdRule(payload);
    var n := Min(|payload|, 16);
    assert payload[..n] == id + rest[..n - |id|];
    NulEnds(id, rest[..n - |id|]);
  }

  /** Without a first byte there are no credentials.  Two filled fields of sixteen bytes are
      id and password; otherwise the id ends at the first NUL, and the password is the text
      after that NUL, or the id again when there is none. */
  lemma CredentialsRule(payload: Bytes)
    ensures Credentials(payload) == None <==> payload == [] || payload[0] == 0
    ensures payload != [] && payload[0] != 0 && |payload| >= 32 && payload[16] != 0 ==>
              Credentials(payload) == Some((UntilNul(payload[..16]), UntilNul(payload[16..32])))
    ensures payload != [] && payload[0] != 0 && !(|payload| >= 32 && payload[16] != 0) ==>
              var id := UntilNul(payload);
              var k := |id| + 1;
              Credentials(payload) ==
              Some((id, if k < |payload| && payload[k] != 0 then UntilNul(payload[k..]) else id))
  {
    NoName(payload);
    if |payload| >= 32 {
      NoName(payload[..16]);
      NoName(payload[16..32]);
    }
    var k := |UntilNul(payload)| + 1;
    if k <= |payload| {
      NoName(payload[k..]);
    }
  }

  /** Both encodings of an id and a password are read back. */
  lemma CredentialsRead(id: Bytes, password: Bytes, rest: Bytes)
    requires IsName(id) && IsName(password)
    ensures |id| <= 16 && |password| <= 16 ==>
              Credentials(Field16(id) + Field16(password) + rest) == Some((id, password))
    ensures |id| + |password| < 30 && (rest == [] || rest[0] == 0) ==>
              Credentials(id + [0] + password + rest[..Min(|rest|, 1)]) == Some((id, password))
    ensures |id| < 32 ==> Credentials(id) == Some((id, id))
  {
    if |id| <= 16 && |password| <= 16 {
      FieldsRead(id, password, rest);
    }
    if |id| + |password| < 30 && (rest == [] || rest[0] == 0) {
      TextRead(id, password, rest[..Min(|rest|, 1)]);
    }
    CredentialsRule(id);
    assert id + [] == id;
    NulEnds(id, []);
  }

  lemma FieldsRead(id: Bytes, password: Bytes, rest: Bytes)
    requires IsName(id) && IsName(password) && |id| <= 16 && |password| <= 16
    ensures Credentials(Field16(id) + Field16(password) + rest) == Some((id, password))
  {
    var payload := Field16(id) + Field16(password) + rest;
    assert payload[..16] == Field16(id) && payload[16..32] == Field16(password);
    assert payload[0] == id[0] && payload[16] == password[0];
    NulEnds(id, Zeros(16 - |id|));
    NulEnds(password, Zeros(16 - |password|));
    CredentialsRule(payload);
  }

  lemma TextRead(id: Bytes, password: Bytes, rest: Bytes)
    requires IsName(id) && IsName(password) && |id| + |password| + |rest| < 31 && (rest == [] || rest[0] == 0)
    ensures Credentials(id + [0] + password + rest) == Some((id, password))
  {
    NulEnds(id, [0] + (password + rest));
    NulEnds(password, rest);
    TextParts(id, password + rest, id + [0] + password + rest);
  }

  lemma TextParts(id: Bytes, tail: Bytes, payload: Bytes)
    requires payload == id + [0] + tail == id + ([0] + tail) && IsName(id) && tail != [] && tail[0] != 0
    requires |payload| < 32 && UntilNul(id + ([0] + tail)) == id
    ensures Credentials(payload) == Some((id, UntilNul(tail)))
  {
    assert payload[0] == id[0] && payload[|id| + 1..] == tail;
    CredentialsRule(payload);
  }

  // ----- replies off channel 1

  /** The bytes of a system reply: a number of four bytes after the kind of the request. */
  function SystemReply(ch: byte, subType: byte, v: byte): Bytes {
    [ch, 0, 6, 0, 0x64, subType, v, 0, 0, 0]
  }

  lemma SystemPacket(ch: byte, subType: byte, v: byte)
    ensures AppPacket(ch, 0x64, subType, Le32(v)) == SystemReply(ch, subType, v)
  {
    ToBytesLayout(ch, [0x64, subType] + Le32(v));
  }

  /** The version answer is 54; a login answers 4 without credentials, 1 for an unknown id, 0
      when the stored password is the test one and 2 for any other; nothing else is answered. */
  lemma SystemReplies(pkt: ChannelPacket, ch: byte, s: State)
    ensures var r := HandleSystem(pkt, ch, s).reply;
      && (pkt.subType == 1 ==> r == SystemReply(ch, 1, 54))
      && (pkt.subType == 2 ==>
            match Credentials(pkt.payload)
            case None => r == SystemReply(ch, 2, 4)
            case Some(c) =>
              if c.0 !in s.profile then r == SystemReply(ch, 2, 1)
              else r == SystemReply(ch, 2, if s.profile[c.0] == Ascii("test") then 0 else 2))
      && (pkt.subType != 1 && pkt.subType != 2 ==> r == [])
  {
    SystemPacket(ch, 1, 54);
    SystemPacket(ch, 2, 0);
    SystemPacket(ch, 2, 1);
    SystemPacket(ch, 2, 2);
    SystemPacket(ch, 2, 4);
    CredentialsNonempty(pkt.payload);
    assert TEST == Ascii("test");
  }

  /** A new server knows one account, the test one, and no session. */
  lemma FirstLogin(pkt: ChannelPacket, ch: byte)
    requires pkt.subType == 2 && Credentials(pkt.payload).Some?
    ensures Initial().info == None
    ensures var id := Credentials(pkt.payload).value.0;
      HandleSystem(pkt, ch, Initial()).reply == SystemReply(ch, 2, if id == Ascii("test") then 0 else 1)
  {
    SystemReplies(pkt, ch, Initial());
    assert TEST == Ascii("test");
  }

  // ----- replies on channel 1

  /** One frame on the channel that parses to the given message. */
  predicate Says(frame: Bytes, ch: nat, code: nat, control: nat, payload: Bytes) {
    && IsFrame(frame) && ParseHeader(frame).value.channel == ch
    && ParseAuthPacket(frame[4..]) == Some(AuthPacket(code, control, payload))
  }

  lemma MessageSays(ch: nat, code: nat, control: nat, payload: Bytes)
    requires 1 <= ch <= 15 && code < 0x1_0000_0000 && control < 0x1_0000_0000 && |payload| + 8 <= 8188
    ensures Says(AuthMessage(ch, code, control, payload), ch, code, control, payload)
  {
    ToBytesIsFrameIff(ch, Le32(code) + Le32(control) + payload);
    PacketsParseBack(ch, ChannelPacket(0, 0, []), AuthPacket(code, control, payload));
  }

  /** The two frames of a reply, one after the other. */
  ghost predicate SaysTwo(reply: Bytes, ch: nat, code: nat, control: nat, payload: Bytes,
                          control': nat, payload': Bytes)
  {
    exists a, b :: reply == a + b && Says(a, ch, code, control, payload) && Says(b, ch, code, control', payload')
  }

  lemma BothSay(ch: nat, code: nat, control: nat, payload: Bytes, control': nat, payload': Bytes)
    requires 1 <= ch <= 15 && code < 0x1_0000_0000 && control < 0x1_0000_0000 && control' < 0x1_0000_0000
    requires |payload| + 8 <= 8188 && |payload'| + 8 <= 8188
    ensures SaysTwo(AuthMessage(ch, code, control, payload) + AuthMessage(ch, code, control', payload'),
                    ch, code, control, payload, control', payload')
  {
    MessageSays(ch, code, control, payload);
    MessageSays(ch, code, control', payload');
  }

  /** The answers that change nothing: the version and the news title, the greeting, and
      whether an id is free. */
  lemma PlainReplies(version: nat, pkt: AuthPacket, ch: nat, s: State)
    requires 1 <= ch <= 15 && pkt.code < 0x1_0000_0000 && version < 65536
    ensures var r := HandleAuth(version, pkt, ch, s).reply;
      && (pkt.control == 0 ==>
            Says(r, ch, 0, 0, [version % 256, version / 256] + Ascii("4Leaf Emulator!\r\n\0")))
      && (pkt.control == 3 ==> Says(r, ch, pkt.code, 0, Ascii("Welcome to 4Leaf Server!\0")))
      && (pkt.control == 4 ==>
            var id := UntilNul(pkt.payload);
            Says(r, ch, pkt.code, 1, [if id == [] || id in s.profile then 0 else 12, 0, 0, 0]))
      && (pkt.control == 0 || pkt.control == 3 || pkt.control == 4 ==> HandleAuth(version, pkt, ch, s).state == s)
  {
    if pkt.control == 0 {
      assert Le16(version) == [version % 256, version / 256];
      MessageSays(ch, 0, 0, Le16(version) + Ascii("4Leaf Emulator!\r\n\0"));
    } else if pkt.control == 3 {
      MessageSays(ch, pkt.code, 0, Ascii("Welcome to 4Leaf Server!\0"));
    } else if pkt.control == 4 {
      var id := UntilNul(pkt.payload);
      var answer: byte := if id == [] || id in s.profile then 0 else 12;
      assert Le32(answer) == [answer, 0, 0, 0];
      MessageSays(ch, pkt.code, 1, [answer, 0, 0, 0]);
    }
  }

  /** A login is answered with the slots of the session and an empty block, an avatar choice
      with the detail of the session, if any, and the visit pay. */
  lemma SessionReplies(version: nat, pkt: AuthPacket, ch: nat, s: State)
    requires 1 <= ch <= 15 && pkt.code < 0x1_0000_0000
    ensures var o := HandleAuth(version, pkt, ch, s);
      var pay: Bytes := [0, 0, 0, 0, 100, 0, 0, 0, 0, 0, 0, 0];
      && (pkt.control == 1 ==>
            && o.state.info.Some?
            && SaysTwo(o.reply, ch, pkt.code, 0, AvatarBootstrap(o.state.info.value), 30, Zeros(23)))
      && (pkt.control == 7 && s.info.None? ==> Says(o.reply, ch, pkt.code, 6, pay))
      && (pkt.control == 7 && s.info.Some? ==>
            && o.state.info.Some?
            && SaysTwo(o.reply, ch, pkt.code, 0, AvatarDetail(o.state.info.value), 6, pay))
  {
    var o := HandleAuth(version, pkt, ch, s);
    var pay: Bytes := [0, 0, 0, 0, 100, 0, 0, 0, 0, 0, 0, 0];
    if pkt.control == 1 {
      BothSay(ch, pkt.code, 0, AvatarBootstrap(o.state.info.value), 30, Zeros(23));
    } else if pkt.control == 7 {
      assert Le32(0) + Le32(100) + Le32(0) == pay;
      MessageSays(ch, pkt.code, 6, pay);
      if s.info.Some? {
        BothSay(ch, pkt.code, 0, AvatarDetail(o.state.info.value), 6, pay);
      }
    }
  }

  /** A registration reads the id from the first sixteen bytes and the password from byte 36
      on; it adds the account, starts its session and shows it, or says why not. */
  lemma RegistrationReplies(version: nat, pkt: AuthPacket, ch: nat, s: State)
    requires 1 <= ch <= 15 && pkt.code < 0x1_0000_0000 && pkt.control == 5 && |pkt.payload| >= 52
    ensures var (o, id) := (HandleAuth(version, pkt, ch, s), UntilNul(pkt.payload[..16]));
      if id == [] then o.state == s && Says(o.reply, ch, pkt.code, 0, Ascii("Registration failed.\r\n\0"))
      else if id in s.profile then o.state == s && Says(o.reply, ch, pkt.code, 0, Ascii("ID already in use.\r\n\0"))
      else
        && o.state.profile == s.profile[id := UntilNul(pkt.payload[36..52])]
        && o.state.info == Some(DefaultSession(id))
        && Says(o.reply, ch, pkt.code, 0, AvatarBootstrap(DefaultSession(id)))
  {
    var id := UntilNul(pkt.payload[..16]);
    var (failed, used) := (Ascii("Registration failed.\r\n\0"), Ascii("ID already in use.\r\n\0"));
    assert HandleAuth(version, pkt, ch, s) == RegistrationSubmit(pkt, ch, s);
    MessageSays(ch, pkt.code, 0,
                if id == [] then failed else if id in s.profile then used else AvatarBootstrap(DefaultSession(id)));
  }

  /** The stage message: its name in a block of zeros. */
  lemma WorldMapSays(ch: nat)
    requires 1 <= ch <= 15
    ensures Says(WorldMap(ch), ch, 0, 0, Ascii("WorldMap") + Zeros(280))
  {
    var payload := Put(Zeros(0x120), 0, Ascii("WorldMap"));
    assert payload == Ascii("WorldMap") + Zeros(280);
    MessageSays(ch, 0, 0, payload);
  }
}

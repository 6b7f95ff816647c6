/** The per-channel request handlers: a request and the session state give one reply, which
may be empty, and a new session state. */
module Domain {
  import opened Common
  import opened Protocol
  import opened Session

  datatype Outcome = Outcome(reply: Bytes, state: State)

  // ----- channel 1

  const SERVER_CHECK := 0
  const LOGIN := 1
  const REGISTRATION := 3
  const ID_CHECK := 4
  const REGISTRATION_SUBMIT := 5
  const AVATAR_SELECTION := 7
  const LOGOUT := 9

  function Ascii(s: string): (b: Bytes)
    ensures |b| == |s| && forall i :: 0 <= i < |s| && s[i] as int < 128 ==> b[i] == s[i] as int
  {
    seq(|s|, i requires 0 <= i < |s| => s[i] as int % 256)
  }

  function LoginUserId(payload: Bytes): Bytes {
    if |payload| >= 16 && UntilNul(payload[..16]) != [] then UntilNul(payload[..16]) else UntilNul(payload)
  }

  function Login(pkt: AuthPacket, ch: nat, state: State): Outcome {
    var userId := LoginUserId(pkt.payload);
    var info := if userId == [] then DefaultSession(TEST)
                else if state.info.Some? && state.info.value.userId == userId then state.info.value
                else DefaultSession(userId);
    Outcome(AuthMessage(ch, pkt.code, 0, AvatarBootstrap(info)) + AuthMessage(ch, pkt.code, 0x1e, Zeros(23)),
            state.(info := Some(info)))
  }

  function IdCheck(pkt: AuthPacket, ch: nat, state: State): Bytes {
    var id := UntilNul(pkt.payload);
    AuthMessage(ch, pkt.code, 1, Le32(if id != [] && id !in state.profile then 12 else 0))
  }

  function RegistrationSubmit(pkt: AuthPacket, ch: nat, state: State): Outcome {
    if |pkt.payload| < 52 then Outcome([], state)
    else
      var id, pass := UntilNul(pkt.payload[..16]), UntilNul(pkt.payload[36..52]);
      if id == [] then Outcome(AuthMessage(ch, pkt.code, 0, Ascii("Registration failed.\r\n\0")), state)
      else if id in state.profile then Outcome(AuthMessage(ch, pkt.code, 0, Ascii("ID already in use.\r\n\0")), state)
      else
        Outcome(AuthMessage(ch, pkt.code, 0, AvatarBootstrap(DefaultSession(id))),
                State(state.profile[id := pass], Some(DefaultSession(id))))
  }

  function AvatarSelection(pkt: AuthPacket, ch: nat, state: State): Outcome {
    var index := if |pkt.payload| > 0 then pkt.payload[0] else 0;
    var visit := AuthMessage(ch, pkt.code, 6, Le32(0) + Le32(100) + Le32(0));
    match state.info
    case None => Outcome(visit, state)
    case Some(info) =>
      var chosen := info.(character := index);
      Outcome(AuthMessage(ch, pkt.code, 0, AvatarDetail(chosen)) + visit, state.(info := Some(chosen)))
  }

  /** `version` is what the version file holds, or 54. */
  function HandleAuth(version: nat, pkt: AuthPacket, ch: nat, state: State): Outcome {
    if pkt.control == SERVER_CHECK
        then Outcome(AuthMessage(ch, 0, 0, Le16(version) + Ascii("4Leaf Emulator!\r\n\0")), state)
    else if pkt.control == LOGIN then Login(pkt, ch, state)
    else if pkt.control == REGISTRATION
        then Outcome(AuthMessage(ch, pkt.code, 0, Ascii("Welcome to 4Leaf Server!\0")), state)
    else if pkt.control == ID_CHECK then Outcome(IdCheck(pkt, ch, state), state)
    else if pkt.control == REGISTRATION_SUBMIT then RegistrationSubmit(pkt, ch, state)
    else if pkt.control == AVATAR_SELECTION then AvatarSelection(pkt, ch, state)
    else if pkt.control == LOGOUT then Outcome(ControlMessage(CTRL_CLOSE, ch), state.(info := None))
    else Outcome([], state)
  }

  // ----- the other channels

  const LOGIN_OK := 0
  const LOGIN_ERR_NO_ID := 1
  const LOGIN_ERR_BAD_PASSWORD := 2
  const LOGIN_ERR_AUTH_FAILED := 4

  function Credentials(payload: Bytes): Option<(Bytes, Bytes)> {
    if payload == [] then None
    else if |payload| >= 32 && UntilNul(payload[..16]) != [] && UntilNul(payload[16..32]) != []
    then Some((UntilNul(payload[..16]), UntilNul(payload[16..32])))
    else
      var userId := UntilNul(payload);
      if userId == [] then None
      else
        var second := if |userId| < |payload| then UntilNul(payload[|userId| + 1..]) else [];
        var password := if second != [] then second
                        else if |payload| >= 32 && UntilNul(payload[16..32]) != [] then UntilNul(payload[16..32])
                        else userId;
        Some((userId, password))
  }

  function LoginResult(state: State, userId: Bytes, password: Bytes): nat {
    if userId !in state.profile then LOGIN_ERR_NO_ID
    else if state.profile[userId] == TEST && password != [] then LOGIN_OK
    else LOGIN_ERR_BAD_PASSWORD
  }

  function HandleSystem(pkt: ChannelPacket, ch: nat, state: State): Outcome {
    if pkt.subType == 1 then Outcome(AppPacket(ch, 0x64, 1, Le32(54)), state)
    else if pkt.subType == 2 then
      match Credentials(pkt.payload)
      case None => Outcome(AppPacket(ch, 0x64, 2, Le32(LOGIN_ERR_AUTH_FAILED)), state.(info := None))
      case Some(c) =>
        var result := LoginResult(state, c.0, c.1);
        Outcome(AppPacket(ch, 0x64, 2, Le32(result)),
                state.(info := if result == LOGIN_OK then Some(DefaultSession(c.0)) else None))
    else Outcome([], state)
  }

  function DispatchPacket(pkt: ChannelPacket, ch: nat, state: State): Outcome {
    match pkt.mainType
    case 0x80 => Outcome(AppPacket(ch, 0x80, pkt.subType, pkt.payload), state)
    case 0xD4 => Outcome(AppPacket(ch, 0xD4, pkt.subType, pkt.payload), state)
    case 0x64 => HandleSystem(pkt, ch, state)
    case 0x68 => Outcome(AppPacket(ch, pkt.mainType, pkt.subType, pkt.payload), state)
    case _ => Outcome([], state)
  }

  /** The stage message pushed when channel 2 opens. */
  function WorldMap(ch: nat): Bytes {
    AuthMessage(ch, 0, 0, Put(Zeros(0x120), 0, Ascii("WorldMap")))
  }

  // ----- what the handlers promise

  /** The session a login leads to: the current one if it is the same user's, else a new one. */
  predicate LoginSession(payload: Bytes, before: Option<SessionInfo>, after: Option<SessionInfo>) {
    var id := LoginUserId(payload);
    && after.Some? && after.value.userId == (if id == [] then TEST else id)
    && (id != [] && before.Some? && before.value.userId == id ==> after == before)
    && (!(id != [] && before.Some? && before.value.userId == id) ==> after == Some(DefaultSession(after.value.userId)))
  }

  /** A login always leaves a session, keeps the one of the same user with its character, shows
      it in the reply and touches no account; logging in again changes nothing. */
  lemma LoginRules(pkt: AuthPacket, ch: nat, s: State)
    requires 1 <= ch <= MAX_CHANNEL
    ensures var o := Login(pkt, ch, s);
      && LoginSession(pkt.payload, s.info, o.state.info) && o.state.profile == s.profile
      && AuthMessage(ch, pkt.code, 0, AvatarBootstrap(o.state.info.value)) <= o.reply
      && Login(pkt, ch, o.state) == o
  {
  }

  /** The system login succeeds exactly for an account whose stored password is the test one;
      a session exists afterwards exactly then, and it is that account's. */
  lemma SystemLoginIff(pkt: ChannelPacket, ch: nat, s: State)
    requires pkt.subType == 2
    ensures var o := HandleSystem(pkt, ch, s);
      var c := Credentials(pkt.payload);
      var admitted := c.Some? && c.value.0 in s.profile && s.profile[c.value.0] == TEST;
      && (o.state.info.Some? <==> admitted)
      && (o.reply == AppPacket(ch, 0x64, 2, Le32(LOGIN_OK)) <==> admitted)
      && (admitted ==> o.state.info.value.userId == c.value.0)
      && o.state.profile == s.profile
  {
    CredentialsNonempty(pkt.payload);
    LoginCodesDiffer(ch);
  }

  /** Neither the id nor the password taken from a login payload is ever empty. */
  lemma CredentialsNonempty(payload: Bytes)
    ensures var c := Credentials(payload); c.Some? ==> c.value.0 != [] && c.value.1 != []
  {
  }

  lemma LoginCodesDiffer(ch: nat)
    ensures forall code :: code in {LOGIN_ERR_NO_ID, LOGIN_ERR_BAD_PASSWORD, LOGIN_ERR_AUTH_FAILED} ==>
              AppPacket(ch, 0x64, 2, Le32(code)) != AppPacket(ch, 0x64, 2, Le32(LOGIN_OK))
  {
    forall code | 0 < code < 256 ensures AppPacket(ch, 0x64, 2, Le32(code)) != AppPacket(ch, 0x64, 2, Le32(LOGIN_OK)) {
      assert AppPacket(ch, 0x64, 2, Le32(code))[6] == code && AppPacket(ch, 0x64, 2, Le32(LOGIN_OK))[6] == 0;
    }
  }

  predicate Echoed(mainType: byte) {
    mainType == 0x80 || mainType == 0xD4 || mainType == 0x68
  }

  /** Off channel 1 only a system login touches the session and nothing touches the accounts;
      the echoed kinds come back as one frame on the same channel that parses to the very packet
      sent, and everything but them and the two system requests goes unanswered. */
  lemma DispatchRules(pkt: ChannelPacket, ch: nat, s: State)
    requires 1 <= ch <= MAX_CHANNEL && |pkt.payload| + 2 <= MAX_BODY
    ensures var o := DispatchPacket(pkt, ch, s);
      && (o.state != s ==> pkt.mainType == 0x64 && pkt.subType == 2)
      && o.state.profile == s.profile
      && (o.reply == [] <==> !Echoed(pkt.mainType) && !(pkt.mainType == 0x64 && (pkt.subType == 1 || pkt.subType == 2)))
      && (Echoed(pkt.mainType) ==> IsFrame(o.reply) && ParseHeader(o.reply).value.channel == ch
                                   && ParseChannelPacket(o.reply[4..]) == Some(pkt))
  {
    if Echoed(pkt.mainType) {
      AppPacketIsFrame(ch, pkt.mainType, pkt.subType, pkt.payload);
      ToBytesIsFrameIff(ch, [pkt.mainType, pkt.subType] + pkt.payload);
      PacketsParseBack(ch, pkt, AuthPacket(0, 0, []));
    }
  }

  predicate SessionRequest(control: nat) {
    control == 1 || control == 5 || control == 7 || control == 9
  }

  predicate KnownRequest(control: nat) {
    SessionRequest(control) || control == 0 || control == 3 || control == 4
  }

  /** The reply opens with a frame on the request's channel that carries the request's code. */
  predicate Answers(reply: Bytes, ch: nat, code: nat) {
    && |reply| >= 4 && ParseHeader(reply).Some? && ParseHeader(reply).value.channel == ch
    && |reply| >= 12 && U32(reply, 4) == code
  }

  lemma AnswersLonger(f: Bytes, more: Bytes, ch: nat, code: nat)
    requires Answers(f, ch, code)
    ensures Answers(f + more, ch, code)
  {
  }

  lemma OneMessageAnswers(ch: nat, code: nat, control: nat, payload: Bytes)
    requires 1 <= ch <= MAX_CHANNEL && code < 0x1_0000_0000 && |payload| + 8 <= MAX_BODY
    ensures AuthMessage(ch, code, control, payload) != [] && Answers(AuthMessage(ch, code, control, payload), ch, code)
  {
    var body := Le32(code) + Le32(control) + payload;
    var f := AuthMessage(ch, code, control, payload);
    ToBytesIsFrameIff(ch, body);
    Le32Value(code);
    CodeOfBody(f, body, Le32(code));
  }

  lemma CodeOfBody(f: Bytes, body: Bytes, code: Bytes)
    requires |f| >= 12 && f[4..] == body && |code| == 4 && code <= body
    ensures U32(f, 4) == U32(code, 0)
  {
    assert forall i :: 0 <= i < 4 ==> f[4 + i] == body[i] && body[i] == code[i];
  }

  lemma MessageAnswers(ch: nat, code: nat, control: nat, payload: Bytes, more: Bytes)
    requires 1 <= ch <= MAX_CHANNEL && code < 0x1_0000_0000 && |payload| + 8 <= MAX_BODY
    ensures Answers(AuthMessage(ch, code, control, payload) + more, ch, code)
  {
    OneMessageAnswers(ch, code, control, payload);
    AnswersLonger(AuthMessage(ch, code, control, payload), more, ch, code);
  }

  /** On channel 1 accounts change only by a registration and the session only by the four
      session requests; a logout ends it and announces the close, and every other known request
      is answered on its channel under its own code, except a registration that is too short. */
  lemma AuthRules(version: nat, pkt: AuthPacket, ch: nat, s: State)
    requires 1 <= ch <= MAX_CHANNEL && pkt.code < 0x1_0000_0000
    ensures var o := HandleAuth(version, pkt, ch, s);
      && (o.state.profile != s.profile ==> pkt.control == REGISTRATION_SUBMIT)
      && (o.state.info != s.info ==> SessionRequest(pkt.control))
      && (pkt.control == LOGOUT ==> o.state.info == None && o.reply == ControlMessage(CTRL_CLOSE, ch))
      && (o.reply == [] <==>
            !KnownRequest(pkt.control) || (pkt.control == REGISTRATION_SUBMIT && |pkt.payload| < 52))
      && (o.reply != [] && pkt.control != LOGOUT ==>
            Answers(o.reply, ch, if pkt.control == SERVER_CHECK then 0 else pkt.code))
  {
    if pkt.control == LOGIN {
      var o := Login(pkt, ch, s);
      MessageAnswers(ch, pkt.code, 0, AvatarBootstrap(o.state.info.value), AuthMessage(ch, pkt.code, 0x1e, Zeros(23)));
    } else if pkt.control == AVATAR_SELECTION {
      AvatarRules(pkt, ch, s);
    } else if pkt.control == REGISTRATION_SUBMIT {
      SubmitAnswers(pkt, ch, s);
    } else if pkt.control != LOGOUT && KnownRequest(pkt.control) {
      SmallAnswers(version, pkt, ch, s);
    }
  }

  /** Choosing an avatar sets the character of the session, if there is one, and nothing else. */
  lemma AvatarRules(pkt: AuthPacket, ch: nat, s: State)
    requires 1 <= ch <= MAX_CHANNEL && pkt.code < 0x1_0000_0000
    ensures var o := AvatarSelection(pkt, ch, s);
      && o.state.profile == s.profile && (s.info.None? ==> o.state == s)
      && (s.info.Some? ==>
            o.state.info == Some(s.info.value.(character := if pkt.payload == [] then 0 else pkt.payload[0])))
      && Answers(o.reply, ch, pkt.code)
  {
    var visit := Le32(0) + Le32(100) + Le32(0);
    if s.info.Some? {
      var detail := AvatarDetail(AvatarSelection(pkt, ch, s).state.info.value);
      MessageAnswers(ch, pkt.code, 0, detail, AuthMessage(ch, pkt.code, 6, visit));
    } else {
      OneMessageAnswers(ch, pkt.code, 6, visit);
    }
  }

  lemma SubmitAnswers(pkt: AuthPacket, ch: nat, s: State)
    requires 1 <= ch <= MAX_CHANNEL && pkt.code < 0x1_0000_0000
    ensures var r := RegistrationSubmit(pkt, ch, s).reply;
      if |pkt.payload| < 52 then r == [] else r != [] && Answers(r, ch, pkt.code)
  {
    if |pkt.payload| >= 52 {
      OneMessageAnswers(ch, pkt.code, 0, Ascii("Registration failed.\r\n\0"));
      OneMessageAnswers(ch, pkt.code, 0, Ascii("ID already in use.\r\n\0"));
      OneMessageAnswers(ch, pkt.code, 0, AvatarBootstrap(DefaultSession(UntilNul(pkt.payload[..16]))));
    }
  }

  lemma SmallAnswers(version: nat, pkt: AuthPacket, ch: nat, s: State)
    requires 1 <= ch <= MAX_CHANNEL && pkt.code < 0x1_0000_0000
    requires pkt.control == SERVER_CHECK || pkt.control == REGISTRATION || pkt.control == ID_CHECK
    ensures var r := HandleAuth(version, pkt, ch, s).reply;
      r != [] && Answers(r, ch, if pkt.control == SERVER_CHECK then 0 else pkt.code)
  {
    OneMessageAnswers(ch, 0, 0, Le16(version) + Ascii("4Leaf Emulator!\r\n\0"));
    OneMessageAnswers(ch, pkt.code, 0, Ascii("Welcome to 4Leaf Server!\0"));
    var id := UntilNul(pkt.payload);
    OneMessageAnswers(ch, pkt.code, 1, Le32(if id != [] && id !in s.profile then 12 else 0));
  }

  // ----- the session object the handlers update

  class Account {
    var profile: map<Bytes, Bytes>
    var info: Option<SessionInfo>

    function View(): State
      reads this
    {
      State(profile, info)
    }

    constructor ()
      ensures View() == Session.Initial()
    {
      profile, info := Session.Initial().profile, None;
    }

    method LoginResponse(pkt: AuthPacket, ch: nat) returns (reply: Bytes)
      modifies this`info
      ensures LoginSession(pkt.payload, old(info), info)
      ensures Outcome(reply, View()) == Login(pkt, ch, old(View()))
    {
      var userId := LoginUserId(pkt.payload);
      var session := DefaultSession(userId);
      if userId == [] {
        session := DefaultSession(TEST);
      } else if info.Some? && info.value.userId == userId {
        session := info.value;
      }
      info := Some(session);
      var payload := BuildAvatarBootstrap(session);
      reply := AuthMessage(ch, pkt.code, 0, payload);
      reply := reply + AuthMessage(ch, pkt.code, 0x1e, Zeros(23));
    }

    method IdCheckResponse(pkt: AuthPacket, ch: nat) returns (reply: Bytes)
      ensures reply == IdCheck(pkt, ch, View())
    {
      var id := UntilNul(pkt.payload);
      var result := 0;
      if id != [] && id !in profile {
        result := 12;
      }
      reply := AuthMessage(ch, pkt.code, 1, Le32(result));
    }

    method RegistrationSubmitResponse(pkt: AuthPacket, ch: nat) returns (reply: Bytes)
      modifies this
      ensures Outcome(reply, View()) == RegistrationSubmit(pkt, ch, old(View()))
    {
      if |pkt.payload| < 52 {
        return [];
      }
      var id, pass := UntilNul(pkt.payload[..16]), UntilNul(pkt.payload[36..52]);
      if id == [] {
        return AuthMessage(ch, pkt.code, 0, Ascii("Registration failed.\r\n\0"));
      }
      if id in profile {
        return AuthMessage(ch, pkt.code, 0, Ascii("ID already in use.\r\n\0"));
      }
      profile := profile[id := pass];
      var payload := BuildAvatarBootstrap(DefaultSession(id));
      info := Some(DefaultSession(id));
      reply := AuthMessage(ch, pkt.code, 0, payload);
    }

    method AvatarSelectionResponse(pkt: AuthPacket, ch: nat) returns (reply: Bytes)
      modifies this`info
      ensures Outcome(reply, View()) == AvatarSelection(pkt, ch, old(View()))
    {
      var index := if |pkt.payload| > 0 then pkt.payload[0] else 0;
      reply := [];
      if info.Some? {
        info := Some(info.value.(character := index));
        var detail := BuildAvatarDetail(info.value);
        reply := AuthMessage(ch, pkt.code, 0, detail);
      }
      reply := reply + AuthMessage(ch, pkt.code, 6, Le32(0) + Le32(100) + Le32(0));
    }

    method Auth(version: nat, pkt: AuthPacket, ch: nat) returns (reply: Bytes)
      modifies this
      ensures profile != old(profile) ==> pkt.control == REGISTRATION_SUBMIT
      ensures info != old(info) ==> SessionRequest(pkt.control)
      ensures pkt.control == LOGOUT ==> info == None
      ensures Outcome(reply, View()) == HandleAuth(version, pkt, ch, old(View()))
    {
      if pkt.control == SERVER_CHECK {
        reply := AuthMessage(ch, 0, 0, Le16(version) + Ascii("4Leaf Emulator!\r\n\0"));
      } else if pkt.control == LOGIN {
        reply := LoginResponse(pkt, ch);
      } else if pkt.control == REGISTRATION {
        reply := AuthMessage(ch, pkt.code, 0, Ascii("Welcome to 4Leaf Server!\0"));
      } else if pkt.control == ID_CHECK {
        reply := IdCheckResponse(pkt, ch);
      } else if pkt.control == REGISTRATION_SUBMIT {
        reply := RegistrationSubmitResponse(pkt, ch);
      } else if pkt.control == AVATAR_SELECTION {
        reply := AvatarSelectionResponse(pkt, ch);
      } else if pkt.control == LOGOUT {
        info := None;
        reply := ControlMessage(CTRL_CLOSE, ch);
      } else {
        reply := [];
      }
    }

    method SystemLogin(pkt: ChannelPacket, ch: nat) returns (reply: Bytes)
      requires pkt.subType == 2
      modifies this`info
      ensures info.Some? <==> reply == AppPacket(ch, 0x64, 2, Le32(LOGIN_OK))
      ensures info.Some? ==> info.value.userId in profile && profile[info.value.userId] == TEST
      ensures Outcome(reply, View()) == HandleSystem(pkt, ch, old(View()))
    {
      SystemLoginIff(pkt, ch, View());
      var credentials := Credentials(pkt.payload);
      if credentials.None? {
        info := None;
        return AppPacket(ch, 0x64, 2, Le32(LOGIN_ERR_AUTH_FAILED));
      }
      var (userId, password) := credentials.value;
      var result := LoginResult(View(), userId, password);
      info := if result == LOGIN_OK then Some(DefaultSession(userId)) else None;
      reply := AppPacket(ch, 0x64, 2, Le32(result));
    }

    method Dispatch(pkt: ChannelPacket, ch: nat) returns (reply: Bytes)
      modifies this`info
      ensures info != old(info) ==> pkt.mainType == 0x64 && pkt.subType == 2
      ensures Outcome(reply, View()) == DispatchPacket(pkt, ch, old(View()))
    {
      reply := [];
      match pkt.mainType {
        case 0x80 => reply := AppPacket(ch, 0x80, pkt.subType, pkt.payload);
        case 0xD4 => reply := AppPacket(ch, 0xD4, pkt.subType, pkt.payload);
        case 0x68 => reply := AppPacket(ch, pkt.mainType, pkt.subType, pkt.payload);
        case 0x64 =>
          if pkt.subType == 1 {
            reply := AppPacket(ch, 0x64, 1, Le32(54));
          } else if pkt.subType == 2 {
            reply := SystemLogin(pkt, ch);
          }
        case _ =>
      }
    }
  }

  // ----- every reply is whole frames

  lemma AuthReplyFramed(version: nat, pkt: AuthPacket, ch: nat, state: State)
    requires 1 <= ch <= MAX_CHANNEL
    ensures var r := HandleAuth(version, pkt, ch, state).reply; r == [] || WellFramed(r)
  {
    var r := HandleAuth(version, pkt, ch, state).reply;
    if pkt.control == LOGIN {
      LoginFramed(pkt, ch, state);
    } else if pkt.control == AVATAR_SELECTION {
      AvatarFramed(pkt, ch, state);
    } else if pkt.control == LOGOUT {
      ToBytesIsFrameIff(0, Le16(CTRL_CLOSE) + Le16(ch));
      OneFrame(r);
    } else if r != [] {
      SmallAuthFramed(version, pkt, ch, state);
      OneFrame(r);
    }
  }

  lemma LoginFramed(pkt: AuthPacket, ch: nat, state: State)
    requires 1 <= ch <= MAX_CHANNEL
    ensures WellFramed(Login(pkt, ch, state).reply)
  {
    var info := Login(pkt, ch, state).state.info.value;
    AuthMessageIsFrame(ch, pkt.code, 0, AvatarBootstrap(info));
    AuthMessageIsFrame(ch, pkt.code, 0x1e, Zeros(23));
    TwoFrames(AuthMessage(ch, pkt.code, 0, AvatarBootstrap(info)), AuthMessage(ch, pkt.code, 0x1e, Zeros(23)));
  }

  lemma AvatarFramed(pkt: AuthPacket, ch: nat, state: State)
    requires 1 <= ch <= MAX_CHANNEL
    ensures WellFramed(AvatarSelection(pkt, ch, state).reply)
  {
    var visit := Le32(0) + Le32(100) + Le32(0);
    AuthMessageIsFrame(ch, pkt.code, 6, visit);
    OneFrame(AuthMessage(ch, pkt.code, 6, visit));
    if state.info.Some? {
      var detail := AvatarDetail(AvatarSelection(pkt, ch, state).state.info.value);
      AuthMessageIsFrame(ch, pkt.code, 0, detail);
      TwoFrames(AuthMessage(ch, pkt.code, 0, detail), AuthMessage(ch, pkt.code, 6, visit));
    }
  }

  lemma SmallAuthFramed(version: nat, pkt: AuthPacket, ch: nat, state: State)
    requires 1 <= ch <= MAX_CHANNEL
    requires pkt.control != LOGIN && pkt.control != AVATAR_SELECTION && pkt.control != LOGOUT
    ensures var r := HandleAuth(version, pkt, ch, state).reply; r == [] || IsFrame(r)
  {
    AuthMessageIsFrame(ch, 0, 0, Le16(version) + Ascii("4Leaf Emulator!\r\n\0"));
    AuthMessageIsFrame(ch, pkt.code, 0, Ascii("Welcome to 4Leaf Server!\0"));
    AuthMessageIsFrame(ch, pkt.code, 0, Ascii("Registration failed.\r\n\0"));
    AuthMessageIsFrame(ch, pkt.code, 0, Ascii("ID already in use.\r\n\0"));
    if pkt.control == ID_CHECK {
      var id := UntilNul(pkt.payload);
      AuthMessageIsFrame(ch, pkt.code, 1, Le32(if id != [] && id !in state.profile then 12 else 0));
    } else if pkt.control == REGISTRATION_SUBMIT && |pkt.payload| >= 52 {
      AuthMessageIsFrame(ch, pkt.code, 0, AvatarBootstrap(DefaultSession(UntilNul(pkt.payload[..16]))));
    }
  }

  /** An echo is as long as the request it answers, so a request that fitted the wire limits
      is answered within them. */
  lemma DispatchReplyFramed(body: Bytes, ch: nat, state: State)
    requires 1 <= ch <= MAX_CHANNEL && 2 <= |body| <= MAX_BODY
    ensures var r := DispatchPacket(ParseChannelPacket(body).value, ch, state).reply; r == [] || WellFramed(r)
  {
    var pkt := ParseChannelPacket(body).value;
    var r := DispatchPacket(pkt, ch, state).reply;
    AppPacketIsFrame(ch, pkt.mainType, pkt.subType, pkt.payload);
    forall v: nat { AppPacketIsFrame(ch, 0x64, pkt.subType, Le32(v)); }
    if r != [] {
      OneFrame(r);
    }
  }

  lemma WorldMapFramed(ch: nat)
    requires 1 <= ch <= MAX_CHANNEL
    ensures WellFramed(WorldMap(ch))
  {
    AuthMessageIsFrame(ch, 0, 0, Put(Zeros(0x120), 0, Ascii("WorldMap")));
    OneFrame(WorldMap(ch));
  }
}

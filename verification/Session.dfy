/** Login session state and the fixed-layout avatar payloads. */
module Session {
  import opened Common
  import opened Protocol

  const ALLOW_CREATE: byte := 1
  const NICK_MAX := 22

  datatype SessionInfo = SessionInfo(userId: Bytes, nickname: Bytes, character: byte, gp: nat, fp: nat,
                                     hasAvatar: bool, dialogFlags: byte)

  /** Accounts by id, and the session of the current login, if any. */
  datatype State = State(profile: map<Bytes, Bytes>, info: Option<SessionInfo>)

  const TEST: Bytes := [0x74, 0x65, 0x73, 0x74]

  function Initial(): State { State(map[TEST := TEST], None) }

  function DefaultSession(userId: Bytes): SessionInfo {
    SessionInfo(userId, if |userId| > NICK_MAX then userId[..NICK_MAX] else userId, 1, 1000, 0, false, ALLOW_CREATE)
  }

  /** The bytes before the first NUL. */
  function UntilNul(data: Bytes): (s: Bytes)
    ensures |s| <= |data| && s == data[..|s|] && (forall k :: 0 <= k < |s| ==> s[k] != 0)
    ensures |s| < |data| ==> data[|s|] == 0
  {
    if data == [] || data[0] == 0 then [] else [data[0]] + UntilNul(data[1..])
  }

  function NickBytes(info: SessionInfo): Bytes {
    if |info.nickname| > NICK_MAX then info.nickname[..NICK_MAX] else info.nickname
  }

  /** Overwrites part of a buffer. */
  function Put(buf: Bytes, at: nat, data: Bytes): (r: Bytes)
    requires at + |data| <= |buf|
    ensures |r| == |buf|
    ensures forall k :: 0 <= k < |buf| ==> r[k] == if at <= k < at + |data| then data[k - at] else buf[k]
  {
    buf[..at] + data + buf[at + |data|..]
  }

  function AvatarDetail(info: SessionInfo): (data: Bytes)
    ensures |data| == 272
  {
    [info.character] + Put(Zeros(22), 0, NickBytes(info)) + Zeros(5) + Zeros(32) + Zeros(24) + Zeros(24)
    + Le32(info.gp) + Le32(info.fp) + Zeros(16) + Zeros(140)
  }

  function AvatarRecord(info: SessionInfo): (record: Bytes)
    ensures |record| == 0x80
  {
    var r0 := Put(Zeros(0x80), 0, [info.character]);
    var r1 := Put(r0, 0x15, [0]);
    var r2 := Put(r1, 0x54, NickBytes(info));
    var r3 := Put(r2, 0x70, Le16(if info.gp > 0xffff then 0xffff else info.gp));
    Put(r3, 0x72, Le16(if info.fp > 0xffff then 0xffff else info.fp))
  }

  const HEADER_LEN := 0x1c
  const SUMMARY_LEN := 0x1c
  const BLOCK_LEN := 0x1fc
  const FLAGS_OFFSET := HEADER_LEN + SUMMARY_LEN
  const BLOCK_A := FLAGS_OFFSET + 1
  const BLOCK_B := BLOCK_A + BLOCK_LEN
  const RECORD_OFFSET := 0x7c
  const BOOTSTRAP_LEN := HEADER_LEN + SUMMARY_LEN + 1 + BLOCK_LEN + BLOCK_LEN

  function AvatarBootstrap(info: SessionInfo): (payload: Bytes)
    ensures |payload| == BOOTSTRAP_LEN
  {
    var p1 := Put(Zeros(BOOTSTRAP_LEN), HEADER_LEN, [info.character]);
    var p2 := Put(Put(p1, HEADER_LEN + 4, Le32(info.gp)), HEADER_LEN + 8, Le32(info.fp));
    var p3 := Put(p2, FLAGS_OFFSET, [info.dialogFlags]);
    var has: byte := if info.hasAvatar then 1 else 0;
    var p4 := Put(Put(p3, BLOCK_A, [0, has]), BLOCK_B, [0, has]);
    if info.hasAvatar
    then Put(Put(p4, BLOCK_A + RECORD_OFFSET, AvatarRecord(info)), BLOCK_B + RECORD_OFFSET, AvatarRecord(info))
    else p4
  }

  lemma NumberAt(d: Bytes, i: nat, v: nat)
    requires i + 4 <= |d| && v < 0x1_0000_0000 && d[i..i + 4] == Le32(v)
    ensures U32(d, i) == v
  {
    Le32Value(v);
    var w := d[i..i + 4];
    assert w[0] == d[i] && w[1] == d[i + 1] && w[2] == d[i + 2] && w[3] == d[i + 3];
  }

  /** Where the client finds things in an avatar record: character, nickname, the two balances
      cut to 16 bits, and zeros everywhere else. */
  lemma RecordLayout(info: SessionInfo, k: nat)
    requires k < 0x80
    ensures var r := AvatarRecord(info);
      && r[0] == info.character && U16(r, 0x70) == Min(info.gp, 65535) && U16(r, 0x72) == Min(info.fp, 65535)
      && (0x54 <= k < 0x54 + 22 ==> r[k] == if k - 0x54 < |NickBytes(info)| then NickBytes(info)[k - 0x54] else 0)
      && (1 <= k < 0x54 || 0x54 + 22 <= k < 0x70 || 0x74 <= k ==> r[k] == 0)
  {
    Le16Value(Min(info.gp, 65535));
    Le16Value(Min(info.fp, 65535));
  }

  /** Where the client finds things: character, balances and flags of the summary, and whether
      the two slots hold an avatar. */
  lemma BootstrapLayout(info: SessionInfo)
    requires info.gp < 0x1_0000_0000 && info.fp < 0x1_0000_0000
    ensures var p := AvatarBootstrap(info);
      && p[0x1c] == info.character && U32(p, 0x20) == info.gp && U32(p, 0x24) == info.fp
      && p[0x38] == info.dialogFlags && p[0x3a] == p[0x236] == (if info.hasAvatar then 1 else 0)
  {
    var p := AvatarBootstrap(info);
    assert p[0x20..0x24] == Le32(info.gp) && p[0x24..0x28] == Le32(info.fp);
    NumberAt(p, 0x20, info.gp);
    NumberAt(p, 0x24, info.fp);
  }

  predicate SummaryByte(k: nat) {
    k == 0x1c || 0x20 <= k < 0x28 || k == 0x38 || k == 0x3a || k == 0x236
  }

  /** Both slots hold the record of an avatar, and everything else is zero. */
  lemma BootstrapSlots(info: SessionInfo, k: nat)
    ensures var p := AvatarBootstrap(info);
      var inSlot := info.hasAvatar && (0xb5 <= k < 0x135 || 0x2b1 <= k < 0x331);
      && (k < 0x80 && info.hasAvatar ==> p[0xb5 + k] == p[0x2b1 + k] == AvatarRecord(info)[k])
      && (k < 0x431 && !SummaryByte(k) && !inSlot ==> p[k] == 0)
  {
  }

  lemma Le16Value(v: nat)
    requires v < 65536
    ensures U16(Le16(v), 0) == v
  {
  }

  /** At most the first 22 bytes of a nickname are used. */
  lemma NickLength(info: SessionInfo)
    ensures NickBytes(info) <= info.nickname && |NickBytes(info)| == Min(|info.nickname|, 22)
  {
  }

  /** A new user starts as character 1 with 1000 GP and no FP, without an avatar but allowed to
      create one, under a nickname cut from the id. */
  lemma NewUserLayout(userId: Bytes)
    ensures var info := DefaultSession(userId);
      var p := AvatarBootstrap(info);
      && info.userId == userId && info.nickname == NickBytes(info) == userId[..Min(|userId|, 22)] && !info.hasAvatar
      && p[0x1c] == 1 && U32(p, 0x20) == 1000 && U32(p, 0x24) == 0 && p[0x38] == 1 && p[0x3a] == p[0x236] == 0
  {
    BootstrapLayout(DefaultSession(userId));
  }

  /** Where the client finds things in the detail block: character, nickname padded with zeros,
      the two balances, and zeros everywhere else. */
  lemma DetailLayout(info: SessionInfo, k: nat)
    requires k < 272 && info.gp < 0x1_0000_0000 && info.fp < 0x1_0000_0000
    ensures var d := AvatarDetail(info);
      && d[0] == info.character && U32(d, 108) == info.gp && U32(d, 112) == info.fp
      && (1 <= k < 23 ==> d[k] == if k - 1 < |NickBytes(info)| then NickBytes(info)[k - 1] else 0)
      && (23 <= k < 108 || 116 <= k ==> d[k] == 0)
  {
    var d := AvatarDetail(info);
    assert d[108..112] == Le32(info.gp) && d[112..116] == Le32(info.fp);
    NumberAt(d, 108, info.gp);
    NumberAt(d, 112, info.fp);
  }

  // ----- the builders, writing into zeroed buffers

  method CopyInto(buf: array<byte>, at: nat, data: Bytes)
    requires at + |data| <= buf.Length
    modifies buf
    ensures buf[..] == Put(old(buf[..]), at, data)
  {
    for k := 0 to |data|
      invariant forall i :: 0 <= i < buf.Length ==> buf[i] == if at <= i < at + k then data[i - at] else old(buf[i])
    {
      buf[at + k] := data[k];
    }
  }

  method Zeroed(n: nat) returns (buf: array<byte>)
    ensures fresh(buf) && buf[..] == Zeros(n)
  {
    buf := new byte[n](_ => 0);
  }

  method BuildAvatarDetail(info: SessionInfo) returns (data: Bytes)
    ensures data == AvatarDetail(info)
  {
    data := [info.character];
    var nick := Zeroed(22);
    CopyInto(nick, 0, NickBytes(info));
    data := data + nick[..];
    data := data + Zeros(5) + Zeros(32) + Zeros(24) + Zeros(24);
    data := data + Le32(info.gp) + Le32(info.fp);
    data := data + Zeros(16) + Zeros(140);
  }

  method BuildAvatarRecord(info: SessionInfo) returns (record: Bytes)
    ensures record == AvatarRecord(info)
  {
    var buf := Zeroed(0x80);
    CopyInto(buf, 0, [info.character]);
    CopyInto(buf, 0x15, [0]);
    CopyInto(buf, 0x54, NickBytes(info));
    CopyInto(buf, 0x70, Le16(if info.gp > 0xffff then 0xffff else info.gp));
    CopyInto(buf, 0x72, Le16(if info.fp > 0xffff then 0xffff else info.fp));
    record := buf[..];
  }

  method BuildAvatarBootstrap(info: SessionInfo) returns (payload: Bytes)
    ensures payload == AvatarBootstrap(info)
  {
    var buf := Zeroed(BOOTSTRAP_LEN);
    CopyInto(buf, HEADER_LEN, [info.character]);
    CopyInto(buf, HEADER_LEN + 4, Le32(info.gp));
    CopyInto(buf, HEADER_LEN + 8, Le32(info.fp));
    CopyInto(buf, FLAGS_OFFSET, [info.dialogFlags]);
    var has: byte := if info.hasAvatar then 1 else 0;
    CopyInto(buf, BLOCK_A, [0, has]);
    CopyInto(buf, BLOCK_B, [0, has]);
    if info.hasAvatar {
      var record := BuildAvatarRecord(info);
      CopyInto(buf, BLOCK_A + RECORD_OFFSET, record);
      CopyInto(buf, BLOCK_B + RECORD_OFFSET, record);
    }
    payload := buf[..];
  }
}

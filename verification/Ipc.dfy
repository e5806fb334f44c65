// The control connection between the two processes: packets, the resumable parser, and how far the way TCP cuts the
// bytes can matter. It cannot change which packets are found. It can change the floats taken from packet 1004, which
// the parser reads from the buffer only after the packet has been removed from it.

module Ipc {
  import opened Bytes

  /** Whether NSString accepts some bytes as UTF-8. Everything below holds for every such test. */
  type Utf8Test = bytes -> bool

  datatype Command =
    | LiveOn
    | LiveOff
    | Setting(code: nat, operand: bytes)  // one four-byte operand, a float or an integer
    | Beauty(operands: bytes)             // five floats; the packet's sixth is never read
    | Login(user: bytes, pass: bytes)
    | Check(user: bytes, pass: bytes)

  const LIVE_ON := 1000
  const LIVE_OFF := 1001
  const BEAUTY := 1004
  const LOGIN := 1014
  const CHECK := 1016
  const BEAUTY_LENGTH := 28
  const MAX_PAYLOAD := 0x400
  const MAX_CREDENTIAL := 0x100

  predicate IsSetting(code: int) {
    code in {1002, 1003, 1005, 1006, 1008, 1009, 1018, 1019}
  }

  /** The 32-bit word as a signed integer. */
  function Int32(s: bytes): int
    requires |s| == 4
  {
    var v := FromLE32(s);
    if v < 0x8000_0000 then v else v - 0x1_0000_0000
  }

  // ---------------------------------------------------------------- parsing

  datatype Credentials = Credentials(user: bytes, pass: bytes)

  function ParseCredentials(s: bytes, utf8: Utf8Test): Option<Credentials> {
    if |s| < 8 then None else
    var u := Int32(s[..4]);
    if u < 0 || u > MAX_CREDENTIAL || |s| < u + 8 then None else
    var p := Int32(s[4 + u..8 + u]);
    if p < 0 || p > MAX_CREDENTIAL || |s| < u + p + 8 then None else
    var user, pass := s[4..4 + u], s[8 + u..8 + u + p];
    if utf8(user) && utf8(pass) then Some(Credentials(user, pass)) else None
  }

  datatype Head =
    | Incomplete
    | Rejected
    | Accepted(cmd: Command, rest: bytes)

  /** What the bytes at the front of the buffer say. */
  function ReadHead(s: bytes, utf8: Utf8Test): (h: Head)
    ensures h.Accepted? ==> |h.rest| + 4 <= |s|
    ensures h.Accepted? && h.cmd.Beauty? ==> |h.rest| + BEAUTY_LENGTH == |s|
  {
    if |s| < 4 then Incomplete else
    var code := Int32(s[..4]);
    if code == LIVE_ON then Accepted(LiveOn, s[4..])
    else if code == LIVE_OFF then Accepted(LiveOff, s[4..])
    else if IsSetting(code) then
      if |s| < 8 then Incomplete else Accepted(Setting(code, s[4..8]), s[8..])
    else if code == BEAUTY then
      if |s| < BEAUTY_LENGTH then Incomplete else Accepted(Beauty(s[4..24]), s[BEAUTY_LENGTH..])
    else if code == LOGIN || code == CHECK then
      if |s| < 8 then Incomplete else
      var n := Int32(s[4..8]);
      if n < 0 || n > MAX_PAYLOAD then Rejected
      else if |s| < 8 + n then Incomplete
      else
        match ParseCredentials(s[8..8 + n], utf8)
        case None => Rejected
        case Some(c) => Accepted(if code == LOGIN then Login(c.user, c.pass) else Check(c.user, c.pass), s[8 + n..])
    else Rejected
  }

  /**
   A buffer's memory once its first `n` bytes are removed: the bytes left over have moved to the front, and the end
   still holds what it held.
   */
  function Moved(s: bytes, n: nat): (m: bytes)
    requires n <= |s|
    ensures |m| == |s|
    ensures forall i :: 0 <= i < |s| ==> m[i] == if i + n < |s| then s[i + n] else s[i]
  {
    s[n..] + s[|s| - n..]
  }

  /** What the parser makes of them: the floats of packet 1004 are read once the packet has been removed. */
  function ParseHead(s: bytes, utf8: Utf8Test): (h: Head)
    ensures h.Accepted? ==> |h.rest| + 4 <= |s|
  {
    var h := ReadHead(s, utf8);
    if h.Accepted? && h.cmd.Beauty? then Accepted(Beauty(Moved(s, BEAUTY_LENGTH)[4..24]), h.rest) else h
  }

  /** A connection is waiting for more bytes, or has been closed. */
  datatype Conn = Open(buffer: bytes) | Closed

  datatype Outcome = Outcome(cmds: seq<Command>, conn: Conn)

  function Then(cmds: seq<Command>, o: Outcome): Outcome {
    o.(cmds := cmds + o.cmds)
  }

  /** Everything that is dispatched from a buffer. */
  function ParseAll(s: bytes, utf8: Utf8Test): Outcome
    decreases |s|
  {
    match ParseHead(s, utf8)
    case Incomplete => Outcome([], Open(s))
    case Rejected => Outcome([], Closed)
    case Accepted(cmd, rest) => Then([cmd], ParseAll(rest, utf8))
  }

  lemma ParseStep(s: bytes, utf8: Utf8Test)
    ensures ParseAll(s, utf8) ==
            match ReadHead(s, utf8)
            case Incomplete => Outcome([], Open(s))
            case Rejected => Outcome([], Closed)
            case Accepted(cmd, rest) =>
              Then([if cmd.Beauty? then Beauty(Moved(s, BEAUTY_LENGTH)[4..24]) else cmd], ParseAll(rest, utf8))
  {
    hide ReadHead;
  }

  /** One piece arriving; nothing arrives on a closed connection. */
  function Feed(conn: Conn, piece: bytes, utf8: Utf8Test): Outcome {
    match conn
    case Closed => Outcome([], Closed)
    case Open(b) => ParseAll(b + piece, utf8)
  }

  function FeedAll(conn: Conn, pieces: seq<bytes>, utf8: Utf8Test): Outcome
    decreases |pieces|
  {
    if pieces == [] then Outcome([], conn) else
    var o := Feed(conn, pieces[0], utf8);
    Then(o.cmds, FeedAll(o.conn, pieces[1..], utf8))
  }

  // ---------------------------------------------------------------- the floats of packet 1004

  /** They are right for all contents exactly when at most four bytes follow the packet in the buffer. */
  lemma BeautyIsRightExactly(n: nat, utf8: Utf8Test)
    requires n >= BEAUTY_LENGTH
    ensures (forall s: bytes :: |s| == n && Int32(s[..4]) == 1004 ==> ParseHead(s, utf8) == ReadHead(s, utf8))
       <==> n <= 32
  {
    hide Int32, LE32, ParseCredentials;
    if n <= BEAUTY_LENGTH + 4 {
      forall s: bytes | |s| == n && Int32(s[..4]) == BEAUTY ensures ParseHead(s, utf8) == ReadHead(s, utf8) {
        assert Moved(s, BEAUTY_LENGTH)[4..24] == s[4..24];
      }
    } else {
      var s: bytes := LE32(BEAUTY) + seq(n - 4, i => if i < 28 then 0 else 1);
      WordRoundTrip(BEAUTY);
      assert s[..4] == LE32(BEAUTY);
      assert s[4] == 0 && s[32] == 1;
      assert Moved(s, BEAUTY_LENGTH)[4] == s[32];
      assert s[4..24][0] == s[4] && Moved(s, BEAUTY_LENGTH)[4..24][0] == Moved(s, BEAUTY_LENGTH)[4];
      assert ParseHead(s, utf8) != ReadHead(s, utf8);
    }
  }

  /** In general: byte `i` of the floats is byte `i + 4` of the packet, or what moved over it from 28 bytes behind. */
  lemma BeautyFloats(s: bytes, utf8: Utf8Test)
    requires |s| >= 28 && Int32(s[..4]) == 1004
    ensures ParseHead(s, utf8).Accepted? && ParseHead(s, utf8).cmd.Beauty? && ParseHead(s, utf8).rest == s[28..]
    ensures var x := ParseHead(s, utf8).cmd.operands;
            |x| == 20 && forall i :: 0 <= i < 20 ==> x[i] == if i + 32 < |s| then s[i + 32] else s[i + 4]
  {
    hide Int32, ParseCredentials;
  }

  // ---------------------------------------------------------------- fragmentation does not matter

  /** Everything the bytes spell, each packet's operands being its own. */
  function ReadAll(s: bytes, utf8: Utf8Test): Outcome
    decreases |s|
  {
    match ReadHead(s, utf8)
    case Incomplete => Outcome([], Open(s))
    case Rejected => Outcome([], Closed)
    case Accepted(cmd, rest) => Then([cmd], ReadAll(rest, utf8))
  }

  /** What a connection's buffer and the bytes still to come spell. */
  function Spelled(conn: Conn, s: bytes, utf8: Utf8Test): Outcome {
    match conn
    case Closed => Outcome([], Closed)
    case Open(b) => ReadAll(b + s, utf8)
  }

  lemma ThenJoins(xs: seq<Command>, ys: seq<Command>, o: Outcome)
    ensures Then([], o) == o
    ensures Then(xs, Then(ys, o)) == Then(xs + ys, o)
  {
    assert [] + o.cmds == o.cmds;
    assert xs + (ys + o.cmds) == xs + ys + o.cmds;
  }

  /** A decision, once made, does not depend on the bytes that follow. */
  lemma HeadIsStable(s: bytes, t: bytes, utf8: Utf8Test)
    ensures match ReadHead(s, utf8)
            case Incomplete => true
            case Rejected => ReadHead(s + t, utf8) == Rejected
            case Accepted(cmd, rest) => ReadHead(s + t, utf8) == Accepted(cmd, rest + t)
  {
    hide Int32, ParseCredentials;
    var e := s + t;
    if |s| >= 4 {
      assert e[..4] == s[..4] && e[4..] == s[4..] + t;
    }
    if |s| >= 8 {
      assert e[4..8] == s[4..8] && e[8..] == s[8..] + t;
      var n := Int32(s[4..8]);
      if 0 <= n && 8 + n <= |s| {
        assert e[8..8 + n] == s[8..8 + n] && e[8 + n..] == s[8 + n..] + t;
      }
    }
    if |s| >= BEAUTY_LENGTH {
      assert e[4..24] == s[4..24] && e[BEAUTY_LENGTH..] == s[BEAUTY_LENGTH..] + t;
    }
  }

  lemma {:induction false} ReadingResumes(s: bytes, t: bytes, utf8: Utf8Test)
    ensures var o := ReadAll(s, utf8);
            ReadAll(s + t, utf8) == Then(o.cmds, Spelled(o.conn, t, utf8))
    decreases |s|
  {
    hide ReadHead;
    HeadIsStable(s, t, utf8);
    match ReadHead(s, utf8)
    case Incomplete => ThenJoins([], [], ReadAll(s + t, utf8));
    case Rejected => ThenJoins([], [], Outcome([], Closed));
    case Accepted(cmd, rest) =>
      ReadingResumes(rest, t, utf8);
      var o := ReadAll(rest, utf8);
      ThenJoins([cmd], o.cmds, Spelled(o.conn, t, utf8));
  }

  /** A buffer the parser has finished with. */
  predicate Settled(conn: Conn, utf8: Utf8Test) {
    conn.Open? ==> ReadHead(conn.buffer, utf8) == Incomplete
  }

  lemma {:induction false} ReadingSettles(s: bytes, utf8: Utf8Test)
    ensures Settled(ReadAll(s, utf8).conn, utf8)
    decreases |s|
  {
    hide ReadHead;
    match ReadHead(s, utf8)
    case Incomplete =>
    case Rejected =>
    case Accepted(cmd, rest) => ReadingSettles(rest, utf8);
  }

  /** The packets without the floats of 1004. */
  function Blank(c: Command): Command {
    if c.Beauty? then Beauty([]) else c
  }

  function Blanks(cs: seq<Command>): seq<Command> {
    seq(|cs|, i requires 0 <= i < |cs| => Blank(cs[i]))
  }

  /** Whenever a packet 1004 comes to the front of the buffer, at most four bytes follow it. */
  predicate Timely(s: bytes, utf8: Utf8Test)
    decreases |s|
  {
    match ReadHead(s, utf8)
    case Incomplete => true
    case Rejected => true
    case Accepted(cmd, rest) => (cmd.Beauty? ==> |rest| <= 4) && Timely(rest, utf8)
  }

  predicate TimelyFeed(conn: Conn, pieces: seq<bytes>, utf8: Utf8Test)
    decreases |pieces|
  {
    pieces == [] || conn.Closed?
    || (Timely(conn.buffer + pieces[0], utf8) && TimelyFeed(Feed(conn, pieces[0], utf8).conn, pieces[1..], utf8))
  }

  lemma HeadReads(s: bytes, utf8: Utf8Test)
    ensures match ReadHead(s, utf8)
            case Incomplete => ParseHead(s, utf8) == Incomplete
            case Rejected => ParseHead(s, utf8) == Rejected
            case Accepted(cmd, rest) =>
              && ParseHead(s, utf8).Accepted? && ParseHead(s, utf8).rest == rest
              && Blank(ParseHead(s, utf8).cmd) == Blank(cmd)
              && ((cmd.Beauty? ==> |rest| <= 4) ==> ParseHead(s, utf8).cmd == cmd)
  {
    hide Int32, ParseCredentials;
    var h := ReadHead(s, utf8);
    if h.Accepted? && h.cmd.Beauty? && |h.rest| <= 4 {
      assert Moved(s, BEAUTY_LENGTH)[4..24] == s[4..24];
    }
  }

  lemma BlanksJoin(xs: seq<Command>, ys: seq<Command>)
    ensures Blanks(xs + ys) == Blanks(xs) + Blanks(ys)
  {
  }

  /** The parser finds the packets the bytes spell, and dispatches them as they are when they come in time. */
  lemma {:induction false} ParseReads(s: bytes, utf8: Utf8Test)
    ensures var o, w := ParseAll(s, utf8), ReadAll(s, utf8);
            o.conn == w.conn && Blanks(o.cmds) == Blanks(w.cmds) && (Timely(s, utf8) ==> o == w)
    decreases |s|
  {
    hide ParseHead, ReadHead, Blank;
    HeadReads(s, utf8);
    match ReadHead(s, utf8)
    case Incomplete =>
    case Rejected =>
    case Accepted(cmd, rest) =>
      ParseReads(rest, utf8);
      var cmd' := ParseHead(s, utf8).cmd;
      assert Blanks([cmd']) == Blanks([cmd]);
      BlanksJoin([cmd'], ParseAll(rest, utf8).cmds);
      BlanksJoin([cmd], ReadAll(rest, utf8).cmds);
  }

  /**
   However the bytes are split into pieces, the packets found, the bytes left in the buffer and whether the
   connection was closed are what the whole spells; and so are the floats of packet 1004 if each came in time.
   */
  lemma {:induction false} FragmentationIsHarmless(conn: Conn, pieces: seq<bytes>, utf8: Utf8Test)
    requires Settled(conn, utf8)
    ensures var o, w := FeedAll(conn, pieces, utf8), Spelled(conn, Concat(pieces), utf8);
            o.conn == w.conn && Blanks(o.cmds) == Blanks(w.cmds) && (TimelyFeed(conn, pieces, utf8) ==> o == w)
    decreases |pieces|
  {
    hide ParseHead, ReadHead, ParseAll, Timely, Blanks;
    if pieces == [] {
      if conn.Open? {
        SettledReads(conn.buffer, utf8);
      }
    } else {
      var first, rest := pieces[0], Concat(pieces[1..]);
      var o := Feed(conn, first, utf8);
      if conn.Open? {
        var s := conn.buffer + first;
        ParseReads(s, utf8);
        ReadingSettles(s, utf8);
        ReadingResumes(s, rest, utf8);
        assert conn.buffer + (first + rest) == s + rest;
        BlanksJoin(o.cmds, FeedAll(o.conn, pieces[1..], utf8).cmds);
        BlanksJoin(ReadAll(s, utf8).cmds, Spelled(o.conn, rest, utf8).cmds);
      } else {
        ThenJoins([], [], FeedAll(Closed, pieces[1..], utf8));
      }
      FragmentationIsHarmless(o.conn, pieces[1..], utf8);
    }
  }

  lemma SettledReads(b: bytes, utf8: Utf8Test)
    requires ReadHead(b, utf8) == Incomplete
    ensures ReadAll(b + [], utf8) == Outcome([], Open(b))
  {
    hide ReadHead;
    assert b + [] == b;
  }

  // ---------------------------------------------------------------- writing

  /** What strlen sees of a string. */
  function CString(s: bytes): (c: bytes)
    ensures c <= s && 0 !in c
    ensures 0 !in s ==> c == s
    ensures |c| < |s| ==> s[|c|] == 0
  {
    if s == [] || s[0] == 0 then [] else [s[0]] + CString(s[1..])
  }

  function CredentialPacket(code: nat, user: bytes, pass: bytes): bytes {
    var u, p := CString(user), CString(pass);
    LE32(code) + (LE32(|u| + |p| + 8) + (LE32(|u|) + (u + (LE32(|p|) + p))))
  }

  function Write(c: Command): bytes {
    match c
    case LiveOn => LE32(1000)
    case LiveOff => LE32(1001)
    case Setting(code, operand) => LE32(code) + operand
    case Beauty(operands) => LE32(1004) + (operands + LE32(0))
    case Login(u, p) => CredentialPacket(1014, u, p)
    case Check(u, p) => CredentialPacket(1016, u, p)
  }

  function WriteAll(cs: seq<Command>): bytes {
    if cs == [] then [] else Write(cs[0]) + WriteAll(cs[1..])
  }

  predicate Acceptable(user: bytes, pass: bytes, utf8: Utf8Test) {
    |user| <= 256 && |pass| <= 256 && utf8(user) && utf8(pass)
  }

  /** Thin face, big eyes, switch face, dermabrasion, big nose, big mouth, camera, rotation. */
  const SETTINGS: set<nat> := {1002, 1003, 1005, 1006, 1008, 1009, 1018, 1019}

  predicate Sendable(c: Command, utf8: Utf8Test) {
    match c
    case LiveOn => true
    case LiveOff => true
    case Setting(code, operand) => code in SETTINGS && |operand| == 4
    case Beauty(operands) => |operands| == 20
    case Login(u, p) => 0 !in u && 0 !in p && Acceptable(u, p, utf8)
    case Check(u, p) => 0 !in u && 0 !in p && Acceptable(u, p, utf8)
  }

  lemma WordRoundTrip(v: nat)
    requires v < 0x8000_0000
    ensures Int32(LE32(v)) == v
  {
    hide LE32, FromLE32;
    LE32RoundTrip(v);
  }

  lemma CredentialsParse(u: bytes, p: bytes, uw: bytes, pw: bytes, utf8: Utf8Test)
    requires |uw| == |pw| == 4 && Int32(uw) == |u| && Int32(pw) == |p|
    ensures ParseCredentials(uw + (u + (pw + p)), utf8)
         == if Acceptable(u, p, utf8) then Some(Credentials(u, p)) else None
  {
    hide Int32;
    var s := uw + (u + (pw + p));
    assert s[..4] == uw;
    assert s[4..4 + |u|] == u;
    assert s[4 + |u|..8 + |u|] == pw;
    assert s[8 + |u|..8 + |u| + |p|] == p;
  }

  lemma PacketHead(code: bytes, size: bytes, payload: bytes, t: bytes, utf8: Utf8Test)
    requires |code| == |size| == 4 && Int32(size) == |payload|
    requires Int32(code) == LOGIN || Int32(code) == CHECK
    ensures ParseHead(code + (size + payload) + t, utf8) ==
            if |payload| > MAX_PAYLOAD then Rejected else
            match ParseCredentials(payload, utf8)
            case None => Rejected
            case Some(c) =>
              Accepted(if Int32(code) == LOGIN then Login(c.user, c.pass) else Check(c.user, c.pass), t)
  {
    hide Int32, ParseCredentials;
    var s := code + (size + payload) + t;
    assert s[..4] == code;
    assert s[4..8] == size;
    assert s[8..8 + |payload|] == payload;
    assert s[8 + |payload|..] == t;
  }

  /** A login or re-check packet is accepted exactly when both C strings are short and valid; otherwise it closes. */
  lemma CredentialsExactly(code: nat, user: bytes, pass: bytes, t: bytes, utf8: Utf8Test)
    requires code == 1014 || code == 1016
    requires |user| + |pass| + 8 < 0x8000_0000
    ensures var u, p := CString(user), CString(pass);
            ParseHead(CredentialPacket(code, user, pass) + t, utf8) ==
            if Acceptable(u, p, utf8) then Accepted(if code == 1014 then Login(u, p) else Check(u, p), t) else Rejected
  {
    hide LE32, Int32, ParseHead, ParseCredentials, CString, Acceptable, CredentialPacket;
    var u, p := CString(user), CString(pass);
    var payload := PacketPayload(code, user, pass);
    WordRoundTrip(code);
    WordRoundTrip(|payload|);
    WordRoundTrip(|u|);
    WordRoundTrip(|p|);
    CredentialsParse(u, p, LE32(|u|), LE32(|p|), utf8);
    PacketHead(LE32(code), LE32(|payload|), payload, t, utf8);
    if Acceptable(u, p, utf8) {
      AcceptableIsShort(u, p, utf8);
    }
  }

  lemma PacketPayload(code: nat, user: bytes, pass: bytes) returns (payload: bytes)
    ensures var u, p := CString(user), CString(pass);
            && payload == LE32(|u|) + (u + (LE32(|p|) + p)) && |payload| == |u| + |p| + 8
            && CredentialPacket(code, user, pass) == LE32(code) + (LE32(|payload|) + payload)
  {
    hide LE32, CString;
    var u, p := CString(user), CString(pass);
    payload := LE32(|u|) + (u + (LE32(|p|) + p));
  }

  lemma AcceptableIsShort(u: bytes, p: bytes, utf8: Utf8Test)
    requires Acceptable(u, p, utf8)
    ensures |u| <= 256 && |p| <= 256
  {
  }


  lemma CommandReads(c: Command, t: bytes, utf8: Utf8Test)
    requires Sendable(c, utf8)
    ensures ReadHead(Write(c) + t, utf8) == Accepted(c, t)
  {
    hide LE32, Int32, ParseCredentials;
    var s := Write(c) + t;
    match c {
      case LiveOn =>
        WordRoundTrip(1000);
        assert s[..4] == LE32(1000) && s[4..] == t;
      case LiveOff =>
        WordRoundTrip(1001);
        assert s[..4] == LE32(1001) && s[4..] == t;
      case Setting(code, operand) =>
        WordRoundTrip(code);
        assert s[..4] == LE32(code) && s[4..8] == operand && s[8..] == t;
      case Beauty(operands) =>
        WordRoundTrip(1004);
        assert s[..4] == LE32(1004) && s[4..24] == operands && s[BEAUTY_LENGTH..] == t;
      case Login(u, p) => CredentialsExactly(1014, u, p, t, utf8);
      case Check(u, p) => CredentialsExactly(1016, u, p, t, utf8);
    }
  }

  lemma {:induction false} CommandsRead(cs: seq<Command>, utf8: Utf8Test)
    requires forall c :: c in cs ==> Sendable(c, utf8)
    ensures ReadAll(WriteAll(cs), utf8) == Outcome(cs, Open([]))
    decreases |cs|
  {
    hide Write, ReadHead, Sendable;
    if cs == [] {
      NothingIsIncomplete(utf8);
    } else {
      CommandReads(cs[0], WriteAll(cs[1..]), utf8);
      CommandsRead(cs[1..], utf8);
      assert cs == [cs[0]] + cs[1..];
    }
  }

  lemma NothingIsIncomplete(utf8: Utf8Test)
    ensures ReadHead([], utf8) == Incomplete
  {
  }

  /** A command is not found before its last byte. */
  lemma PartIsIncomplete(c: Command, part: bytes, t: bytes, utf8: Utf8Test)
    requires Sendable(c, utf8) && part + t == Write(c) && t != []
    ensures ReadHead(part, utf8) == Incomplete && ParseHead(part, utf8) == Incomplete
  {
    hide ReadHead, Write, Sendable;
    HeadIsStable(part, t, utf8);
    CommandReads(c, [], utf8);
    assert Write(c) + [] == Write(c);
    HeadReads(part, utf8);
  }

  // ---------------------------------------------------------------- the wire format, packet by packet

  /** A login or re-check packet: sizes, lengths and credentials in order, and anything up to the announced size. */
  function AccountBytes(code: nat, u: bytes, p: bytes, slack: bytes): bytes {
    LE32(code) + (LE32(|u| + |p| + 8 + |slack|) + (LE32(|u|) + (u + (LE32(|p|) + (p + slack)))))
  }

  predicate AccountOk(u: bytes, p: bytes, slack: bytes, utf8: Utf8Test) {
    Acceptable(u, p, utf8) && |u| + |p| + 8 + |slack| <= 1024
  }

  /** `s` begins with a packet for `c`, and `rest` is what follows. */
  ghost predicate Stands(s: bytes, c: Command, rest: bytes, utf8: Utf8Test) {
    match c
    case LiveOn => s == LE32(1000) + rest
    case LiveOff => s == LE32(1001) + rest
    case Setting(code, x) => code in SETTINGS && |x| == 4 && s == LE32(code) + (x + rest)
    case Beauty(x) => |x| == 20 && exists y: bytes :: |y| == 4 && s == LE32(1004) + (x + (y + rest))
    case Login(u, p) => exists y :: AccountOk(u, p, y, utf8) && s == AccountBytes(1014, u, p, y) + rest
    case Check(u, p) => exists y :: AccountOk(u, p, y, utf8) && s == AccountBytes(1016, u, p, y) + rest
  }

  lemma WordInverse(w: bytes)
    requires |w| == 4 && Int32(w) >= 0
    ensures w == LE32(Int32(w))
  {
    LE32Inverse(w);
  }

  /** A code at the front of a buffer. */
  lemma Front(s: bytes, code: nat)
    requires |s| >= 4 && code < 0x8000_0000
    ensures Int32(s[..4]) == code <==> s == LE32(code) + s[4..]
  {
    hide LE32, Int32;
    WordRoundTrip(code);
    assert s == s[..4] + s[4..];
    if Int32(s[..4]) == code {
      WordInverse(s[..4]);
    }
    if s == LE32(code) + s[4..] {
      assert s[..4] == LE32(code);
    }
  }

  /** The payload an account packet announces. */
  function Payload(u: bytes, p: bytes, y: bytes): bytes {
    LE32(|u|) + (u + (LE32(|p|) + (p + y)))
  }

  /** Credentials inside an announced payload: exactly those whose lengths and characters are acceptable. */
  lemma CredentialsStand(payload: bytes, u: bytes, p: bytes, utf8: Utf8Test)
    requires |payload| <= 1024
    ensures ParseCredentials(payload, utf8) == Some(Credentials(u, p))
       <==> Acceptable(u, p, utf8)
            && exists y :: payload == Payload(u, p, y)
  {
    hide LE32, Int32;
    if ParseCredentials(payload, utf8) == Some(Credentials(u, p)) {
      var k, l := |u|, |p|;
      WordInverse(payload[..4]);
      WordInverse(payload[4 + k..8 + k]);
      var y := payload[8 + k + l..];
      assert payload == payload[..4] + (payload[4..4 + k] + (payload[4 + k..8 + k] + (payload[8 + k..8 + k + l] + y)));
      assert payload == Payload(u, p, y);
    }
    if Acceptable(u, p, utf8) && exists y :: payload == Payload(u, p, y) {
      var y :| payload == Payload(u, p, y);
      AcceptableIsShort(u, p, utf8);
      WordRoundTrip(|u|);
      WordRoundTrip(|p|);
      CredentialsWithSlack(u, p, LE32(|u|), LE32(|p|), y, utf8);
    }
  }

  lemma CredentialsWithSlack(u: bytes, p: bytes, uw: bytes, pw: bytes, y: bytes, utf8: Utf8Test)
    requires |uw| == |pw| == 4 && Int32(uw) == |u| && Int32(pw) == |p| && Acceptable(u, p, utf8)
    ensures ParseCredentials(uw + (u + (pw + (p + y))), utf8) == Some(Credentials(u, p))
  {
    hide Int32;
    var s := uw + (u + (pw + (p + y)));
    assert s[..4] == uw;
    assert s[4..4 + |u|] == u;
    assert s[4 + |u|..8 + |u|] == pw;
    assert s[8 + |u|..8 + |u| + |p|] == p;
  }

  /** What the parser finds for each code, in the codes' own numbers; any other code is rejected once it is there. */
  lemma ReadsCode(s: bytes, utf8: Utf8Test)
    requires |s| >= 4
    ensures var code, t := Int32(s[..4]), s[4..];
            ReadHead(s, utf8) ==
            if code == 1000 then Accepted(LiveOn, t)
            else if code == 1001 then Accepted(LiveOff, t)
            else if code in SETTINGS then if |t| < 4 then Incomplete else Accepted(Setting(code, t[..4]), t[4..])
            else if code == 1004 then if |t| < 24 then Incomplete else Accepted(Beauty(t[..20]), t[24..])
            else if code == 1014 || code == 1016 then ReadsAccount(code, t, utf8)
            else Rejected
  {
    hide Int32, ParseCredentials;
    var t := s[4..];
    if |t| >= 4 {
      assert t[..4] == s[4..8] && t[4..] == s[8..];
      var n := Int32(s[4..8]);
      if 0 <= n <= |t| - 4 {
        assert t[4..4 + n] == s[8..8 + n] && t[4 + n..] == s[8 + n..];
      }
    }
    if |t| >= 24 {
      assert t[..20] == s[4..24] && t[24..] == s[28..];
    }
  }

  function ReadsAccount(code: nat, t: bytes, utf8: Utf8Test): (h: Head)
    ensures h.Accepted? ==> if code == 1014 then h.cmd.Login? else h.cmd.Check?
  {
    if |t| < 4 then Incomplete else
    var n := Int32(t[..4]);
    if n < 0 || n > 1024 then Rejected
    else if |t| < 4 + n then Incomplete
    else
      match ParseCredentials(t[4..4 + n], utf8)
      case None => Rejected
      case Some(c) => Accepted(if code == 1014 then Login(c.user, c.pass) else Check(c.user, c.pass), t[4 + n..])
  }

  /** Words in front: what it takes to stand at the beginning of `s`. */
  lemma Splits(s: bytes, code: nat, rest: bytes)
    requires |s| >= 4 && code < 0x8000_0000
    ensures s == LE32(code) + rest <==> Int32(s[..4]) == code && s[4..] == rest
  {
    hide LE32, Int32;
    Front(s, code);
    if s == LE32(code) + rest {
      assert s[4..] == rest;
    }
  }

  lemma SettingStands(s: bytes, code: nat, x: bytes, rest: bytes)
    requires |s| >= 4 && code in SETTINGS
    ensures Int32(s[..4]) == code && |s[4..]| >= 4 && s[4..][..4] == x && s[4..][4..] == rest
       <==> |x| == 4 && s == LE32(code) + (x + rest)
  {
    hide LE32, Int32;
    var t := s[4..];
    if |x| == 4 {
      Splits(s, code, x + rest);
      assert (x + rest)[..4] == x && (x + rest)[4..] == rest;
    }
    if |t| >= 4 {
      Splits(s, code, t);
      assert t == t[..4] + t[4..];
    }
  }

  lemma ThreeParts(x: bytes, y: bytes, z: bytes)
    ensures var t := x + (y + z); |t| == |x| + |y| + |z| && t[..|x|] == x && t[|x| + |y|..] == z
  {
    assert x + (y + z) == x + y + z;
  }

  lemma BeautyFound(s: bytes)
    requires |s| >= 28 && Int32(s[..4]) == 1004
    ensures s == LE32(1004) + (s[4..24] + (s[24..28] + s[28..]))
  {
    hide LE32, Int32;
    Splits(s, 1004, s[4..]);
    assert s[4..] == s[4..24] + (s[24..28] + s[28..]);
  }

  lemma BeautyRead(s: bytes, x: bytes, y: bytes, rest: bytes)
    requires |s| >= 4 && |x| == 20 && |y| == 4 && s == LE32(1004) + (x + (y + rest))
    ensures Int32(s[..4]) == 1004 && |s| >= 28 && s[4..24] == x && s[28..] == rest
  {
    hide LE32, Int32;
    Splits(s, 1004, x + (y + rest));
    ThreeParts(x, y, rest);
    assert s[4..24] == s[4..][..20] && s[28..] == s[4..][24..];
  }

  lemma BeautyStands(s: bytes, x: bytes, rest: bytes)
    requires |s| >= 4
    ensures Int32(s[..4]) == 1004 && |s[4..]| >= 24 && s[4..][..20] == x && s[4..][24..] == rest
       <==> |x| == 20 && exists y: bytes :: |y| == 4 && s == LE32(1004) + (x + (y + rest))
  {
    hide LE32, Int32;
    if |s| >= 28 {
      assert s[4..][..20] == s[4..24] && s[4..][24..] == s[28..];
      if Int32(s[..4]) == 1004 {
        BeautyFound(s);
      }
    }
    if |x| == 20 && exists y: bytes :: |y| == 4 && s == LE32(1004) + (x + (y + rest)) {
      var y: bytes :| |y| == 4 && s == LE32(1004) + (x + (y + rest));
      BeautyRead(s, x, y, rest);
    }
  }

  lemma AccountFound(s: bytes, code: nat, u: bytes, p: bytes, rest: bytes, utf8: Utf8Test) returns (y: bytes)
    requires |s| >= 8 && 0 <= Int32(s[4..8]) <= 1024 && |s| >= 8 + Int32(s[4..8]) && code < 0x8000_0000
    requires Int32(s[..4]) == code
    requires var n := Int32(s[4..8]);
             ParseCredentials(s[8..8 + n], utf8) == Some(Credentials(u, p)) && s[8 + n..] == rest
    ensures AccountOk(u, p, y, utf8) && s == AccountBytes(code, u, p, y) + rest
  {
    hide LE32, Int32, ParseCredentials, Acceptable;
    var n := Int32(s[4..8]);
    var payload := s[8..8 + n];
    CredentialsStand(payload, u, p, utf8);
    y :| payload == Payload(u, p, y);
    WordInverse(s[..4]);
    WordInverse(s[4..8]);
    assert s == s[..4] + (s[4..8] + payload) + rest;
    assert n == |payload| == |u| + |p| + 8 + |y|;
  }

  lemma AccountRead(code: nat, u: bytes, p: bytes, y: bytes, rest: bytes, utf8: Utf8Test)
    requires AccountOk(u, p, y, utf8) && code < 0x8000_0000
    ensures var s := AccountBytes(code, u, p, y) + rest;
            && |s| >= 8 && Int32(s[..4]) == code && 0 <= Int32(s[4..8]) <= 1024 && |s| >= 8 + Int32(s[4..8])
            && var n := Int32(s[4..8]);
               ParseCredentials(s[8..8 + n], utf8) == Some(Credentials(u, p)) && s[8 + n..] == rest
  {
    hide LE32, Int32, ParseCredentials, Acceptable;
    var payload := Payload(u, p, y);
    var n := |payload|;
    var s := AccountBytes(code, u, p, y) + rest;
    WordRoundTrip(code);
    WordRoundTrip(n);
    assert n == |u| + |p| + 8 + |y|;
    assert s == LE32(code) + (LE32(n) + payload) + rest;
    assert s[..4] == LE32(code) && s[4..8] == LE32(n) && s[8..8 + n] == payload && s[8 + n..] == rest;
    CredentialsStand(payload, u, p, utf8);
  }

  lemma AccountStands(s: bytes, code: nat, u: bytes, p: bytes, rest: bytes, utf8: Utf8Test)
    requires |s| >= 4 && (code == 1014 || code == 1016)
    ensures Int32(s[..4]) == code
            && ReadsAccount(code, s[4..], utf8) == Accepted(if code == 1014 then Login(u, p) else Check(u, p), rest)
       <==> exists y :: AccountOk(u, p, y, utf8) && s == AccountBytes(code, u, p, y) + rest
  {
    hide LE32, Int32, ParseCredentials, AccountOk, AccountBytes;
    var t := s[4..];
    if |t| >= 4 {
      assert t[..4] == s[4..8];
      var n := Int32(s[4..8]);
      if 0 <= n <= |t| - 4 {
        assert t[4..4 + n] == s[8..8 + n] && t[4 + n..] == s[8 + n..];
      }
    }
    if Int32(s[..4]) == code
       && ReadsAccount(code, t, utf8) == Accepted(if code == 1014 then Login(u, p) else Check(u, p), rest)
    {
      var y := AccountFound(s, code, u, p, rest, utf8);
    }
    if exists y :: AccountOk(u, p, y, utf8) && s == AccountBytes(code, u, p, y) + rest {
      var y :| AccountOk(u, p, y, utf8) && s == AccountBytes(code, u, p, y) + rest;
      AccountRead(code, u, p, y, rest, utf8);
    }
  }

  /** A command is found exactly where a packet for it stands, and then exactly that packet is consumed. */
  lemma FindsExactly(s: bytes, c: Command, rest: bytes, utf8: Utf8Test)
    ensures ReadHead(s, utf8) == Accepted(c, rest) <==> Stands(s, c, rest, utf8)
  {
    hide LE32, Int32, ReadHead, ParseCredentials, AccountOk, ReadsAccount;
    if |s| < 4 {
      ShortIsIncomplete(s, utf8);
      assert !Stands(s, c, rest, utf8);
    } else {
      hide AccountBytes;
      ReadsCode(s, utf8);
      match c {
        case LiveOn => Splits(s, 1000, rest);
        case LiveOff => Splits(s, 1001, rest);
        case Setting(code, x) =>
          if code in SETTINGS {
            SettingStands(s, code, x, rest);
          }
        case Beauty(x) => BeautyStands(s, x, rest);
        case Login(u, p) => AccountStands(s, 1014, u, p, rest, utf8);
        case Check(u, p) => AccountStands(s, 1016, u, p, rest, utf8);
      }
    }
  }

  lemma ShortIsIncomplete(s: bytes, utf8: Utf8Test)
    requires |s| < 4
    ensures ReadHead(s, utf8) == Incomplete && forall c, rest :: !Stands(s, c, rest, utf8)
  {
    hide LE32;
  }

  /** The codes there are. */
  const CODES: set<int> := {1000, 1001, 1002, 1003, 1004, 1005, 1006, 1008, 1009, 1014, 1016, 1018, 1019}

  /**
   When nothing is found: the parser waits while fewer bytes than the packet's length are there, and closes the
   connection for an unknown code, an impossible size, or credentials that do not stand in a payload of that size.
   */
  lemma WaitsExactly(s: bytes, utf8: Utf8Test)
    ensures ReadHead(s, utf8) == Incomplete <==>
            || |s| < 4
            || (Int32(s[..4]) in SETTINGS && |s| < 8)
            || (Int32(s[..4]) == 1004 && |s| < 28)
            || (Int32(s[..4]) in {1014, 1016}
                && (|s| < 8 || (0 <= Int32(s[4..8]) <= 1024 && |s| < 8 + Int32(s[4..8]))))
    ensures |s| >= 4 && Int32(s[..4]) !in CODES ==> ReadHead(s, utf8) == Rejected
    ensures |s| >= 8 && Int32(s[..4]) in {1014, 1016} && !(0 <= Int32(s[4..8]) <= 1024) ==>
              ReadHead(s, utf8) == Rejected
  {
    hide Int32, ParseCredentials;
    if |s| >= 4 {
      ReadsCode(s, utf8);
      if |s| >= 8 {
        assert s[4..][..4] == s[4..8];
      }
    }
  }
  // ---------------------------------------------------------------- lists of commands in pieces

  /**
   `have` bytes of the list have arrived and the rest will come in pieces. A packet 1004 comes in time when, once it
   is complete and everything before it dispatched, at most four bytes are there behind it.
   */
  predicate InTime(cs: seq<Command>, have: nat, pieces: seq<bytes>)
    decreases |cs| + |pieces|
  {
    if cs == [] then true
    else if have >= |Write(cs[0])| then
      (cs[0].Beauty? ==> have <= |Write(cs[0])| + 4) && InTime(cs[1..], have - |Write(cs[0])|, pieces)
    else pieces == [] || InTime(cs, have + |pieces[0]|, pieces[1..])
  }

  /** Parsing what has arrived, then taking in the rest. */
  function Run(buffer: bytes, pieces: seq<bytes>, utf8: Utf8Test): Outcome {
    var o := ParseAll(buffer, utf8);
    Then(o.cmds, FeedAll(o.conn, pieces, utf8))
  }

  lemma FeedIsRun(b: bytes, pieces: seq<bytes>, utf8: Utf8Test)
    requires pieces != []
    ensures FeedAll(Open(b), pieces, utf8) == Run(b + pieces[0], pieces[1..], utf8)
  {
  }

  lemma RunWaits(b: bytes, pieces: seq<bytes>, utf8: Utf8Test)
    requires ParseHead(b, utf8) == Incomplete
    ensures Run(b, pieces, utf8) == FeedAll(Open(b), pieces, utf8)
  {
    hide ParseHead;
    ThenJoins([], [], FeedAll(Open(b), pieces, utf8));
  }

  lemma RunDispatches(b: bytes, pieces: seq<bytes>, utf8: Utf8Test)
    requires ParseHead(b, utf8).Accepted?
    ensures var h := ParseHead(b, utf8); Run(b, pieces, utf8) == Then([h.cmd], Run(h.rest, pieces, utf8))
  {
    hide ParseHead;
    var h := ParseHead(b, utf8);
    var o := ParseAll(h.rest, utf8);
    ThenJoins([h.cmd], o.cmds, FeedAll(o.conn, pieces, utf8));
  }

  /** The bytes of a list, some of them arrived. */
  ghost predicate Arriving(cs: seq<Command>, b: bytes, pieces: seq<bytes>, utf8: Utf8Test) {
    (forall c :: c in cs ==> Sendable(c, utf8)) && b + Concat(pieces) == WriteAll(cs)
  }

  /** The next command is complete, or there is a next piece. */
  lemma NextArrival(cs: seq<Command>, b: bytes, pieces: seq<bytes>, utf8: Utf8Test)
    requires Arriving(cs, b, pieces, utf8) && cs != []
    ensures |b| >= |Write(cs[0])| ==>
              var rest := b[|Write(cs[0])|..];
              b == Write(cs[0]) + rest && ReadHead(b, utf8) == Accepted(cs[0], rest)
              && Arriving(cs[1..], rest, pieces, utf8)
    ensures |b| < |Write(cs[0])| ==>
              ParseHead(b, utf8) == Incomplete && pieces != [] && Arriving(cs, b + pieces[0], pieces[1..], utf8)
  {
    hide Write, ReadHead, ParseHead, Sendable;
    var first, more, n := Write(cs[0]), WriteAll(cs[1..]), |Write(cs[0])|;
    assert cs[0] in cs;
    if |b| >= n {
      var rest := b[n..];
      SplitsAt(b, Concat(pieces), first, more);
      CommandReads(cs[0], rest, utf8);
    } else {
      SplitsAt(first, more, b, Concat(pieces));
      PartIsIncomplete(cs[0], b, first[|b|..], utf8);
      if pieces != [] {
        assert b + (pieces[0] + Concat(pieces[1..])) == b + pieces[0] + Concat(pieces[1..]);
      }
    }
  }

  lemma SplitsAt(a: bytes, b: bytes, c: bytes, d: bytes)
    requires a + b == c + d && |a| >= |c|
    ensures a == c + a[|c|..] && d == a[|c|..] + b
  {
    assert (a + b)[..|c|] == a[..|c|] && (c + d)[..|c|] == c;
    assert (a + b)[|c|..] == a[|c|..] + b && (c + d)[|c|..] == d;
  }

  lemma {:induction false} RunInTime(cs: seq<Command>, b: bytes, pieces: seq<bytes>, utf8: Utf8Test)
    requires Arriving(cs, b, pieces, utf8) && InTime(cs, |b|, pieces)
    ensures Run(b, pieces, utf8) == Outcome(cs, Open([]))
    decreases |cs| + |pieces|
  {
    hide Write, ReadHead, ParseHead, Sendable;
    if cs == [] {
      NothingLeft(b, pieces, utf8);
    } else {
      NextArrival(cs, b, pieces, utf8);
      var n := |Write(cs[0])|;
      if |b| >= n {
        HeadReads(b, utf8);
        RunInTime(cs[1..], b[n..], pieces, utf8);
        RunDispatches(b, pieces, utf8);
        assert cs == [cs[0]] + cs[1..];
      } else {
        RunInTime(cs, b + pieces[0], pieces[1..], utf8);
        RunWaits(b, pieces, utf8);
        FeedIsRun(b, pieces, utf8);
      }
    }
  }

  lemma {:induction false} NothingLeft(b: bytes, pieces: seq<bytes>, utf8: Utf8Test)
    requires b + Concat(pieces) == []
    ensures Run(b, pieces, utf8) == Outcome([], Open([]))
    decreases |pieces|
  {
    hide ReadHead, ParseHead;
    PartOfNothing(b, Concat(pieces));
    NothingIsIncomplete(utf8);
    HeadReads([], utf8);
    RunWaits(b, pieces, utf8);
    if pieces != [] {
      PartOfNothing(pieces[0], Concat(pieces[1..]));
      NothingLeft(b + pieces[0], pieces[1..], utf8);
      FeedIsRun(b, pieces, utf8);
    }
  }

  lemma PartOfNothing(a: bytes, b: bytes)
    requires a + b == []
    ensures a == [] && b == []
  {
    assert |a + b| == 0;
  }

  /**
   Any list of commands, serialised and delivered in any pieces, is found as exactly that list, with nothing left
   over; and it is dispatched as it was written if every packet 1004 comes in time.
   */
  lemma CommandsSurviveFragmentation(cs: seq<Command>, pieces: seq<bytes>, utf8: Utf8Test)
    requires forall c :: c in cs ==> Sendable(c, utf8)
    requires Concat(pieces) == WriteAll(cs)
    ensures var o := FeedAll(Open([]), pieces, utf8);
            && o.conn == Open([]) && Blanks(o.cmds) == Blanks(cs)
            && (InTime(cs, 0, pieces) ==> o.cmds == cs)
  {
    hide ReadHead, ParseHead, ParseAll, ReadAll, Write, Sendable, InTime, Blanks;
    assert [] + Concat(pieces) == Concat(pieces);
    NothingIsIncomplete(utf8);
    FragmentationIsHarmless(Open([]), pieces, utf8);
    CommandsRead(cs, utf8);
    if InTime(cs, 0, pieces) {
      HeadReads([], utf8);
      RunWaits([], pieces, utf8);
      RunInTime(cs, [], pieces, utf8);
    }
  }

  /** Only packet 1004 can be late. */
  lemma {:induction false} OthersAreInTime(cs: seq<Command>, have: nat, pieces: seq<bytes>)
    requires forall c :: c in cs ==> !c.Beauty?
    ensures InTime(cs, have, pieces)
    decreases |cs| + |pieces|
  {
    hide Write;
    if cs != [] {
      if have >= |Write(cs[0])| {
        OthersAreInTime(cs[1..], have - |Write(cs[0])|, pieces);
      } else if pieces != [] {
        OthersAreInTime(cs, have + |pieces[0]|, pieces[1..]);
      }
    }
  }

  // ---------------------------------------------------------------- exactly the cuts that are safe

  /** The same kinds of commands with the same lengths; only the floats of packet 1004 may differ. */
  ghost predicate Alike(cs: seq<Command>, cs': seq<Command>) {
    |cs| == |cs'| && forall i :: 0 <= i < |cs| ==>
      Blank(cs[i]) == Blank(cs'[i]) && (cs[i].Beauty? ==> |cs[i].operands| == |cs'[i].operands|)
  }

  /** The same cut. */
  ghost predicate CutAlike(pieces: seq<bytes>, pieces': seq<bytes>) {
    |pieces| == |pieces'| && forall i :: 0 <= i < |pieces| ==> |pieces[i]| == |pieces'[i]|
  }

  lemma AlikeLength(cs: seq<Command>, cs': seq<Command>)
    requires Alike(cs, cs') && cs != []
    ensures |Write(cs[0])| == |Write(cs'[0])| && cs[0].Beauty? == cs'[0].Beauty?
  {
    hide LE32;
    assert Blank(cs[0]) == Blank(cs'[0]);
  }

  lemma {:induction false} InTimeAlike(cs: seq<Command>, cs': seq<Command>, have: nat,
                                       pieces: seq<bytes>, pieces': seq<bytes>)
    requires Alike(cs, cs') && CutAlike(pieces, pieces')
    ensures InTime(cs, have, pieces) == InTime(cs', have, pieces')
    decreases |cs| + |pieces|
  {
    hide Write, Blank;
    if cs != [] {
      AlikeLength(cs, cs');
      if have >= |Write(cs[0])| {
        InTimeAlike(cs[1..], cs'[1..], have - |Write(cs[0])|, pieces, pieces');
      } else if pieces != [] {
        assert |pieces[0]| == |pieces'[0]|;
        InTimeAlike(cs, cs', have + |pieces[0]|, pieces[1..], pieces'[1..]);
      }
    }
  }

  lemma BeautyPacket(c: Command, utf8: Utf8Test)
    requires Sendable(c, utf8) && c.Beauty?
    ensures |Write(c)| == BEAUTY_LENGTH
  {
  }

  lemma RunsBeauty(operands: bytes, t: bytes, pieces: seq<bytes>, utf8: Utf8Test)
    requires |operands| == 20
    ensures var s := Write(Beauty(operands)) + t;
            && |s| == BEAUTY_LENGTH + |t|
            && Run(s, pieces, utf8) == Then([Beauty(Moved(s, BEAUTY_LENGTH)[4..24])], Run(t, pieces, utf8))
  {
    hide LE32, ReadHead, Run;
    CommandReads(Beauty(operands), t, utf8);
    RunDispatches(Write(Beauty(operands)) + t, pieces, utf8);
  }

  /** A late packet: its first float begins with a byte of what follows, so some other byte there goes wrong. */
  lemma WrongNow(cs: seq<Command>, b: bytes, pieces: seq<bytes>, utf8: Utf8Test) returns (cs': seq<Command>, b': bytes)
    requires Arriving(cs, b, pieces, utf8) && cs != [] && cs[0].Beauty? && |b| > BEAUTY_LENGTH + 4
    ensures Arriving(cs', b', pieces, utf8) && Alike(cs, cs') && |b'| == |b|
    ensures Run(b', pieces, utf8).cmds != cs'
  {
    hide Write, ReadHead, Run, Concat, Sendable, Alike;
    NextArrival(cs, b, pieces, utf8);
    assert cs[0] in cs;
    BeautyPacket(cs[0], utf8);
    var rest := b[BEAUTY_LENGTH..];
    var c := OtherFloats(cs[0], rest[4], utf8);
    cs', b' := [c] + cs[1..], Write(c) + rest;
    assert cs'[1..] == cs[1..];
    AlikeFront(cs[0], c, cs);
    assert Write(c) + (rest + Concat(pieces)) == b' + Concat(pieces);
    RunsBeauty(c.operands, rest, pieces, utf8);
    assert Moved(b', BEAUTY_LENGTH)[4..24][0] == rest[4];
  }

  /** Floats that do not begin with the byte `x`. */
  lemma OtherFloats(c: Command, x: byte, utf8: Utf8Test) returns (d: Command)
    requires Sendable(c, utf8) && c.Beauty?
    ensures Sendable(d, utf8) && d.Beauty? && |d.operands| == |c.operands| == 20 && d.operands[0] != x
    ensures |Write(d)| == BEAUTY_LENGTH
  {
    var y: byte := if x == 0 then 1 else 0;
    d := Beauty([y] + c.operands[1..]);
  }

  lemma AlikeFront(c: Command, d: Command, cs: seq<Command>)
    requires cs != [] && cs[0] == c && c.Beauty? && d.Beauty? && |c.operands| == |d.operands|
    ensures Alike(cs, [d] + cs[1..])
  {
  }

  /** What goes wrong behind a command goes wrong in the list that has the command in front. */
  lemma WrongBehind(c: Command, cs: seq<Command>, b: bytes, pieces: seq<bytes>, utf8: Utf8Test)
    requires Sendable(c, utf8) && Arriving(cs, b, pieces, utf8) && Run(b, pieces, utf8).cmds != cs
    ensures Arriving([c] + cs, Write(c) + b, pieces, utf8) && Run(Write(c) + b, pieces, utf8).cmds != [c] + cs
  {
    hide Write, ReadHead, ParseHead, Sendable;
    assert ([c] + cs)[1..] == cs;
    assert Write(c) + (b + Concat(pieces)) == Write(c) + b + Concat(pieces);
    CommandReads(c, b, utf8);
    HeadReads(Write(c) + b, utf8);
    RunDispatches(Write(c) + b, pieces, utf8);
    var cmds := Run(Write(c) + b, pieces, utf8).cmds;
    assert cmds[1..] == Run(b, pieces, utf8).cmds;
  }

  /** What goes wrong once a piece has arrived goes wrong before it has. */
  lemma WrongLater(cs: seq<Command>, b: bytes, piece: bytes, pieces: seq<bytes>, utf8: Utf8Test)
    requires Arriving(cs, b + piece, pieces, utf8) && Run(b + piece, pieces, utf8).cmds != cs
    requires cs != [] && |b| < |Write(cs[0])|
    ensures Arriving(cs, b, [piece] + pieces, utf8) && Run(b, [piece] + pieces, utf8).cmds != cs
  {
    hide Write, ReadHead, ParseHead, Sendable;
    assert ([piece] + pieces)[1..] == pieces;
    assert b + (piece + Concat(pieces)) == b + piece + Concat(pieces);
    NextArrival(cs, b, [piece] + pieces, utf8);
    RunWaits(b, [piece] + pieces, utf8);
    FeedIsRun(b, [piece] + pieces, utf8);
  }

  /** When a packet 1004 is late, there are floats for it that go wrong under the same cut. */
  lemma {:induction false} LateGoesWrong(cs: seq<Command>, b: bytes, pieces: seq<bytes>, utf8: Utf8Test)
    returns (cs': seq<Command>, b': bytes, pieces': seq<bytes>)
    requires Arriving(cs, b, pieces, utf8) && !InTime(cs, |b|, pieces)
    ensures Arriving(cs', b', pieces', utf8) && Alike(cs, cs') && |b'| == |b| && CutAlike(pieces, pieces')
    ensures Run(b', pieces', utf8).cmds != cs'
    decreases |cs| + |pieces|
  {
    hide Write, ReadHead, ParseHead, Sendable, Run, Blank;
    NextArrival(cs, b, pieces, utf8);
    var n := |Write(cs[0])|;
    assert cs[0] in cs;
    if |b| < n {
      var s, ps;
      cs', s, ps := LateGoesWrong(cs, b + pieces[0], pieces[1..], utf8);
      AlikeLength(cs, cs');
      b', pieces' := s[..|b|], [s[|b|..]] + ps;
      assert s == b' + s[|b|..];
      WrongLater(cs', b', s[|b|..], ps, utf8);
    } else if cs[0].Beauty? && |b| > n + 4 {
      BeautyPacket(cs[0], utf8);
      cs', b' := WrongNow(cs, b, pieces, utf8);
      pieces' := pieces;
    } else {
      var more, rest;
      more, rest, pieces' := LateGoesWrong(cs[1..], b[n..], pieces, utf8);
      cs', b' := [cs[0]] + more, Write(cs[0]) + rest;
      WrongBehind(cs[0], more, rest, pieces', utf8);
    }
  }

  /**
   A cut is safe for a list of commands, whatever floats are in it, exactly when under it every packet 1004 comes in
   time.
   */
  lemma SafeExactlyWhenInTime(cs: seq<Command>, pieces: seq<bytes>, utf8: Utf8Test)
    requires Arriving(cs, [], pieces, utf8)
    ensures (forall cs', pieces' :: Arriving(cs', [], pieces', utf8) && Alike(cs, cs') && CutAlike(pieces, pieces') ==>
               FeedAll(Open([]), pieces', utf8) == Outcome(cs', Open([])))
       <==> InTime(cs, 0, pieces)
  {
    hide ReadHead, ParseHead, InTime, Alike, CutAlike, Arriving;
    NothingIsIncomplete(utf8);
    HeadReads([], utf8);
    if InTime(cs, 0, pieces) {
      forall cs', pieces' | Arriving(cs', [], pieces', utf8) && Alike(cs, cs') && CutAlike(pieces, pieces')
        ensures FeedAll(Open([]), pieces', utf8) == Outcome(cs', Open([]))
      {
        InTimeAlike(cs, cs', 0, pieces, pieces');
        RunInTime(cs', [], pieces', utf8);
        RunWaits([], pieces', utf8);
      }
    } else {
      var cs', b', pieces' := LateGoesWrong(cs, [], pieces, utf8);
      assert b' == [];
      RunWaits([], pieces', utf8);
    }
  }

  lemma RunsSetting(code: nat, operand: bytes, utf8: Utf8Test)
    requires code in SETTINGS && |operand| == 4
    ensures Run(Write(Setting(code, operand)), [], utf8) == Outcome([Setting(code, operand)], Open([]))
  {
    hide LE32, ReadHead, Run;
    var s := Write(Setting(code, operand));
    assert s + [] == s;
    CommandReads(Setting(code, operand), [], utf8);
    RunDispatches(s, [], utf8);
    NothingLeft([], [], utf8);
  }

  /** The same 36 bytes: in one piece the first float is taken from the packet behind, cut between the two it is not. */
  lemma CutChangesBeauty(utf8: Utf8Test)
    ensures var zeros: bytes := seq(20, _ => 0);
            var packet, other := Write(Beauty(zeros)), Setting(1002, [1, 2, 3, 4]);
            && FeedAll(Open([]), [packet, Write(other)], utf8) == Outcome([Beauty(zeros), other], Open([]))
            && FeedAll(Open([]), [packet + Write(other)], utf8)
            == Outcome([Beauty([1, 2, 3, 4] + zeros[4..]), other], Open([]))
  {
    hide LE32, ReadHead, ParseHead, Run, Sendable, FeedAll;
    var zeros: bytes := seq(20, _ => 0);
    var other := Setting(1002, [1, 2, 3, 4]);
    var packet, tail := Write(Beauty(zeros)), Write(other);
    RunsSetting(1002, [1, 2, 3, 4], utf8);

    FeedsTwo(packet, tail, utf8);
    RunsBeauty(zeros, [], [tail], utf8);
    assert packet + [] == packet;
    NothingIsIncomplete(utf8);
    HeadReads([], utf8);
    RunWaits([], [tail], utf8);
    FeedsOne(tail, utf8);
    FloatsMoved(packet, [], zeros);

    FeedsOne(packet + tail, utf8);
    RunsBeauty(zeros, tail, [], utf8);
    FloatsMoved(packet, tail, zeros);
  }

  lemma FloatsMoved(packet: bytes, t: bytes, zeros: bytes)
    requires |packet| == BEAUTY_LENGTH && packet[4..24] == zeros && (|t| == 0 || |t| == 8)
    ensures Moved(packet + t, BEAUTY_LENGTH)[4..24] == (if t == [] then zeros else t[4..] + zeros[4..])
  {
    var m := Moved(packet + t, BEAUTY_LENGTH);
    if t == [] {
      assert m == packet;
    } else {
      assert m[4..8] == t[4..];
      forall i | 8 <= i < 24 ensures m[i] == packet[i] {
        assert (packet + t)[i] == packet[i];
      }
      assert m[8..24] == packet[8..24];
      assert m[4..24] == m[4..8] + m[8..24] && zeros[4..] == packet[8..24];
    }
  }

  lemma FeedsOne(p: bytes, utf8: Utf8Test)
    ensures FeedAll(Open([]), [p], utf8) == Run(p, [], utf8)
  {
    hide ParseAll;
    assert [p][1..] == [] && [] + p == p;
  }

  lemma FeedsTwo(p: bytes, q: bytes, utf8: Utf8Test)
    ensures FeedAll(Open([]), [p, q], utf8) == Run(p, [q], utf8)
  {
    hide ParseAll;
    assert [p, q][1..] == [q] && [] + p == p;
  }

  // ---------------------------------------------------------------- many connections

  /** What the socket layer tells the bridge: bytes for a connection, or its end. */
  datatype NetEvent = NetEvent(fd: int, data: Option<bytes>)

  datatype Logged = Logged(fd: int, cmd: Command)

  type Table = map<int, bytes>

  function Buffer(table: Table, fd: int): bytes {
    if fd in table then table[fd] else []
  }

  function Tag(fd: int, cmds: seq<Command>): seq<Logged> {
    seq(|cmds|, i requires 0 <= i < |cmds| => Logged(fd, cmds[i]))
  }

  /** News for a connection whose buffer is `b`: the commands and the new buffer, empty when it is removed. */
  function React(b: bytes, data: Option<bytes>, utf8: Utf8Test): (seq<Command>, bytes) {
    match data
    case None => ([], [])
    case Some(d) =>
      var o := ParseAll(b + d, utf8);
      (o.cmds, if o.conn.Open? then o.conn.buffer else [])
  }

  function TableAfter(table: Table, e: NetEvent, utf8: Utf8Test): Table {
    if e.data.Some? && ParseAll(Buffer(table, e.fd) + e.data.value, utf8).conn.Open? then
      table[e.fd := ParseAll(Buffer(table, e.fd) + e.data.value, utf8).conn.buffer]
    else table - {e.fd}
  }

  function RunBridge(table: Table, es: seq<NetEvent>, utf8: Utf8Test): seq<Logged>
    decreases |es|
  {
    if es == [] then [] else
    Tag(es[0].fd, React(Buffer(table, es[0].fd), es[0].data, utf8).0)
    + RunBridge(TableAfter(table, es[0], utf8), es[1..], utf8)
  }

  function RunConnection(b: bytes, ds: seq<Option<bytes>>, utf8: Utf8Test): seq<Command>
    decreases |ds|
  {
    if ds == [] then [] else
    React(b, ds[0], utf8).0 + RunConnection(React(b, ds[0], utf8).1, ds[1..], utf8)
  }

  function NewsFor(fd: int, es: seq<NetEvent>): seq<Option<bytes>> {
    if es == [] then [] else (if es[0].fd == fd then [es[0].data] else []) + NewsFor(fd, es[1..])
  }

  function CommandsOf(fd: int, log: seq<Logged>): seq<Command> {
    if log == [] then [] else (if log[0].fd == fd then [log[0].cmd] else []) + CommandsOf(fd, log[1..])
  }

  lemma {:induction false} CommandsOfTag(fd: int, tag: int, cmds: seq<Command>, log: seq<Logged>)
    ensures CommandsOf(fd, Tag(tag, cmds) + log) == (if tag == fd then cmds else []) + CommandsOf(fd, log)
    decreases |cmds|
  {
    var l := Tag(tag, cmds) + log;
    if cmds == [] {
      assert l == log;
    } else {
      assert l[1..] == Tag(tag, cmds[1..]) + log;
      assert l[0] == Logged(tag, cmds[0]);
      CommandsOfTag(fd, tag, cmds[1..], log);
      if tag == fd {
        assert cmds == [cmds[0]] + cmds[1..];
      }
    }
  }

  /** Connections do not disturb each other: each sees the commands its own bytes spell, in any interleaving. */
  lemma {:induction false} ConnectionsAreIndependent(fd: int, table: Table, es: seq<NetEvent>, utf8: Utf8Test)
    ensures CommandsOf(fd, RunBridge(table, es, utf8)) == RunConnection(Buffer(table, fd), NewsFor(fd, es), utf8)
    decreases |es|
  {
    hide ParseAll;
    if es != [] {
      var e := es[0];
      var table' := TableAfter(table, e, utf8);
      CommandsOfTag(fd, e.fd, React(Buffer(table, e.fd), e.data, utf8).0, RunBridge(table', es[1..], utf8));
      ConnectionsAreIndependent(fd, table', es[1..], utf8);
      if e.fd == fd {
        assert NewsFor(fd, es)[1..] == NewsFor(fd, es[1..]);
      } else {
        assert NewsFor(fd, es) == NewsFor(fd, es[1..]);
        assert Buffer(table', fd) == Buffer(table, fd);
      }
    }
  }

  function News(pieces: seq<bytes>): seq<Option<bytes>> {
    seq(|pieces|, i requires 0 <= i < |pieces| => Some(pieces[i]))
  }

  /** While it stays open, a connection dispatches what its pieces give when they are fed to its buffer. */
  lemma {:induction false} ConnectionIsFed(b: bytes, pieces: seq<bytes>, utf8: Utf8Test)
    requires FeedAll(Open(b), pieces, utf8).conn.Open?
    ensures RunConnection(b, News(pieces), utf8) == FeedAll(Open(b), pieces, utf8).cmds
    decreases |pieces|
  {
    hide ParseAll;
    if pieces != [] {
      var o := Feed(Open(b), pieces[0], utf8);
      assert News(pieces)[1..] == News(pieces[1..]);
      if o.conn.Open? {
        ConnectionIsFed(o.conn.buffer, pieces[1..], utf8);
      } else {
        ClosedStays(pieces[1..], utf8);
      }
    }
  }

  lemma {:induction false} ClosedStays(pieces: seq<bytes>, utf8: Utf8Test)
    ensures FeedAll(Closed, pieces, utf8) == Outcome([], Closed)
    decreases |pieces|
  {
    if pieces != [] {
      ClosedStays(pieces[1..], utf8);
      ThenJoins([], [], Outcome([], Closed));
    }
  }

  /** A connection that ended, or was closed for what it sent, leaves nothing to one that gets its descriptor later. */
  lemma StartsAfresh(b: bytes, d: Option<bytes>, ds: seq<Option<bytes>>, utf8: Utf8Test)
    requires d.Some? ==> Feed(Open(b), d.value, utf8).conn.Closed?
    ensures RunConnection(b, [d] + ds, utf8)
         == (if d.Some? then Feed(Open(b), d.value, utf8).cmds else []) + RunConnection([], ds, utf8)
  {
    hide ParseAll;
    assert ([d] + ds)[1..] == ds;
  }

  // ---------------------------------------------------------------- the bridge object

  class VCamBridge {
    const utf8: Utf8Test
    var mapTable: Table
    var log: seq<Logged>  // the commands dispatched so far

    constructor (utf8: Utf8Test)
      ensures this.utf8 == utf8 && mapTable == map[] && log == []
    {
      this.utf8, mapTable, log := utf8, map[], [];
    }

    method Remove(fd: int)
      modifies this`mapTable
      ensures mapTable == old(mapTable) - {fd}
    {
      mapTable := mapTable - {fd};
    }

    /** Consumes the connection's buffer in place, command by command. */
    method Parse(fd: int)
      requires fd in mapTable
      modifies this`mapTable, this`log
      ensures var o := ParseAll(old(mapTable[fd]), utf8);
              && log == old(log) + Tag(fd, o.cmds)
              && mapTable == if o.conn.Open? then old(mapTable)[fd := o.conn.buffer] else old(mapTable) - {fd}
    {
      hide ReadHead, ParseAll;
      ghost var cmds: seq<Command> := [];
      ThenJoins([], [], ParseAll(mapTable[fd], utf8));
      assert log == log + Tag(fd, []);
      while true
        invariant fd in mapTable && mapTable == old(mapTable)[fd := mapTable[fd]]
        invariant log == old(log) + Tag(fd, cmds)
        invariant ParseAll(old(mapTable[fd]), utf8) == Then(cmds, ParseAll(mapTable[fd], utf8))
        decreases |mapTable[fd]|
      {
        assert cmds + [] == cmds;
        ParseStep(mapTable[fd], utf8);
        match ReadHead(mapTable[fd], utf8)
        case Incomplete => return;
        case Rejected =>
          Remove(fd);
          return;
        case Accepted(cmd, rest) =>
          var memory := Moved(mapTable[fd], |mapTable[fd]| - |rest|);
          mapTable := mapTable[fd := rest];
          var dispatched := if cmd.Beauty? then Beauty(memory[4..24]) else cmd;
          ThenJoins(cmds, [dispatched], ParseAll(rest, utf8));
          assert Tag(fd, cmds) + [Logged(fd, dispatched)] == Tag(fd, cmds + [dispatched]);
          cmds := cmds + [dispatched];
          log := log + [Logged(fd, dispatched)];
      }
    }

    /** The callback of listen. */
    method OnEvent(e: NetEvent)
      modifies this`mapTable, this`log
      ensures log == old(log) + RunBridge(old(mapTable), [e], utf8)
      ensures mapTable == TableAfter(old(mapTable), e, utf8)
    {
      hide ParseAll;
      assert [e][1..] == [];
      if e.data.None? {
        Remove(e.fd);
        assert RunBridge(old(mapTable), [e], utf8) == [];
        return;
      }
      if e.fd !in mapTable {
        mapTable := mapTable[e.fd := []];
      }
      mapTable := mapTable[e.fd := mapTable[e.fd] + e.data.value];
      Parse(e.fd);
    }
  }
}

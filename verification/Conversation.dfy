// What a client says, by content, and what the session makes of it: frames and answers written down with the
// specification's own numbers and names, without the session's dispatch.

module Conversations {
  import opened Bytes
  import opened Chunks
  import opened Video
  import opened Session
  import opened Interleaving
  import opened Transcript
  import opened AmfGrammar
  import Amf

  /** The second value of an order and what comes after it. */
  datatype Second = Second(node: Node, arguments: bytes)

  datatype Content =
    | Picture(frameType: nat, cts: nat, units: seq<bytes>, tail: bytes)           // NAL units of a video message
    | Setup(frameType: nat, cts: nat, head: bytes, record: bytes, config: Config) // a decoder configuration
    | NoVideo(payload: bytes)                                                     // a video message with neither
    | Order(msgType: byte, name: bytes, second: Option<Second>)                   // a command
    | Chatter(msgType: byte, payload: bytes)                                      // a command message without one
    | Garbled(msgType: byte, payload: bytes)                                      // one that cannot be decoded
    | Else(msgType: byte, payload: bytes)                                         // audio, control, and so on

  /** Message types 8 and 9 are audio and video, 18 and 20 data and commands in AMF0. */
  function TypeOf(c: Content): byte {
    match c
    case Picture(_, _, _, _) => 9
    case Setup(_, _, _, _, _) => 9
    case NoVideo(_) => 9
    case Order(t, _, _) => t
    case Chatter(t, _) => t
    case Garbled(t, _) => t
    case Else(t, _) => t
  }

  function PayloadOf(c: Content): bytes {
    match c
    case Picture(f, cts, units, tail) => [(f % 16 * 16 + 7) as byte, 1] + BE24(cts) + (Records(units) + tail)
    case Setup(f, cts, head, record, _) => [(f % 16 * 16 + 7) as byte, 0] + BE24(cts) + (head + record)
    case NoVideo(p) => p
    case Order(_, name, None) => Spell(Str(name))
    case Order(_, name, Some(s)) => Spell(Str(name)) + (Spell(s.node) + s.arguments)
    case Chatter(_, p) => p
    case Garbled(_, p) => p
    case Else(_, p) => p
  }

  datatype Dated = Dated(content: Content, streamId: uint32, time: uint32)

  function MessageOf(d: Dated): Message {
    Message(TypeOf(d.content), d.streamId, d.time, PayloadOf(d.content))
  }

  /** Some value is spelled at the front of `s`. */
  ghost predicate Spelled(s: bytes) {
    exists n, rest :: Stands(s, n, rest)
  }

  ghost predicate Stands(s: bytes, n: Node, rest: bytes) {
    WellFormed(n, rest) && s == Spell(n) + rest
  }

  ghost predicate IsConfig(record: bytes, c: Config) {
    exists spss, ppss, u, rest ::
      ConfigStands(record, spss, ppss, u, rest) && c == Config(LastOr(spss, []), LastOr(ppss, []))
  }

  ghost predicate Valid(c: Content) {
    match c
    case Picture(f, cts, units, tail) => f < 16 && cts < 0x100_0000 && Prefixable(units) && Video.Truncated(tail)
    case Setup(f, cts, head, record, config) =>
      f < 16 && cts < 0x100_0000 && |head| == 5 && record != [] && IsConfig(record, config)
    case NoVideo(p) =>
      || |p| < 5 || p[0] % 16 != 7 || p[1] > 1
      || (p[1] == 0 && (|p| < 11 || forall c :: !IsConfig(p[10..], c)))
    case Order(t, name, second) =>
      (t == 18 || t == 20) && |name| < 0x1_0000
      && (second.Some? ==> WellFormed(second.value.node, second.value.arguments))
    case Chatter(t, p) =>
      (t == 18 || t == 20) && (p == [] || exists n, rest :: Stands(p, n, rest) && !n.Str?)
    case Garbled(t, p) =>
      (t == 18 || t == 20) && p != []
      && (!Spelled(p) || exists name, rest :: Stands(p, Str(name), rest) && rest != [] && !Spelled(rest))
    case Else(t, _) => t != 9 && t != 18 && t != 20
  }

  // ---------------------------------------------------------------- what it comes to

  /** The frame a content carries, at its message's time. */
  function FrameOf(c: Content, time: uint32): Option<Frame> {
    match c
    case Picture(f, cts, units, _) =>
      if NonEmpty(units) == [] then None
      else Some(Frame(false, f == 1, [], [], Records(NonEmpty(units)), cts % 0x100_0000, time))
    case Setup(f, cts, _, _, config) => Some(Frame(true, f == 1, config.sps, config.pps, [], cts % 0x100_0000, time))
    case _ => None
  }

  /** The number an order carries, zero if it carries none. */
  function IdOf(second: Option<Second>): Amf.Double {
    if second.Some? && second.value.node.Num? then second.value.node.d else [0, 0, 0, 0, 0, 0, 0, 0]
  }

  function AnswerOf(c: Content): seq<Posting> {
    if c.Order? then Answers(c.name, IdOf(c.second)) else []
  }

  function Say(s: string): Node {
    Str(Ascii(s))
  }

  function Name(key: string, n: Node): Keyed {
    Keyed(Ascii(key), n)
  }

  const ZERO_DOUBLE: Amf.Double := [0, 0, 0, 0, 0, 0, 0, 0]
  const ONE_DOUBLE: Amf.Double := [0x3F, 0xF0, 0, 0, 0, 0, 0, 0]
  const THIRTYONE_DOUBLE: Amf.Double := [0x40, 0x3F, 0, 0, 0, 0, 0, 0]

  function ConnectReply(id: Amf.Double): seq<Node> {
    [Say("_result"), Num(id),
     Obj([Name("fmsVer", Say("FMS/3,5,3,824")), Name("capabilities", Num(THIRTYONE_DOUBLE)),
          Name("mode", Num(ONE_DOUBLE))]),
     Obj([Name("level", Say("status")), Name("code", Say("NetConnection.Connect.Success")),
          Name("description", Say("Connection succeeded.")), Name("data", Obj([Name("version", Say("3,5,3,824"))])),
          Name("clientid", Num(ONE_DOUBLE)), Name("objectEncoding", Num(ZERO_DOUBLE))])]
  }

  function PublishReply(): seq<Node> {
    [Say("onStatus"), Num(ZERO_DOUBLE), Void(5),
     Obj([Name("level", Say("status")), Name("code", Say("NetStream.Publish.Start")),
          Name("description", Say("Publishing."))])]
  }

  /** Commands go out as type 20, user control as type 4 on chunk stream 2; stream begin is event 0. */
  function Answers(name: bytes, id: Amf.Double): seq<Posting> {
    if name == Ascii("connect") then
      [Posting(3, Message(20, 0, 0, SpellNodes(ConnectReply(id)))), Posting(2, Message(4, 0, 0, [0, 0, 0, 0, 0, 0]))]
    else if name == Ascii("createStream") then
      [Posting(3, Message(20, 0, 0, SpellNodes([Say("_result"), Num(id), Void(5), Num(ONE_DOUBLE)])))]
    else if name == Ascii("publish") then
      [Posting(2, Message(4, 0, 0, [0, 0, 0, 0, 0, 1])), Posting(5, Message(20, 1, 0, SpellNodes(PublishReply())))]
    else if name in [Ascii("FCPublish"), Ascii("releaseStream"), Ascii("deleteStream")] && IsPositive(id) then
      [Posting(3, Message(20, 0, 0, SpellNodes([Say("_result"), Num(id), Void(5), Void(5)])))]
    else []
  }

  /** The bytes of positive doubles, infinity included, are in order the integers up to its pattern. */
  predicate IsPositive(id: Amf.Double) {
    0 < BigEndian(id) <= 0x7FF0_0000_0000_0000
  }

  /** A whole conversation by content; ten undecodable messages between two frames are forgiven. */
  function Told(cs: seq<Dated>, errors: nat): Talk {
    if cs == [] then Talk([], []) else
    var c, frame := cs[0].content, FrameOf(cs[0].content, cs[0].time);
    if c.Garbled? then if errors < 10 then Told(cs[1..], errors + 1) else Talk([], [])
    else if frame.Some? then Join(Talk([frame.value], []), Told(cs[1..], 0))
    else Join(Talk([], AnswerOf(c)), Told(cs[1..], errors))
  }

  function MessagesOf(cs: seq<Dated>): seq<Message> {
    if cs == [] then [] else [MessageOf(cs[0])] + MessagesOf(cs[1..])
  }

  // ---------------------------------------------------------------- letters and numbers

  lemma AsciiIsItself(s: string)
    ensures |Ascii(s)| == |s| && forall i :: 0 <= i < |s| && s[i] as int < 256 ==> Ascii(s)[i] as int == s[i] as int
  {
  }

  function Pow256(n: nat): nat {
    if n == 0 then 1 else 256 * Pow256(n - 1)
  }

  lemma {:induction false} BigEndianSplit(a: bytes, b: bytes)
    ensures BigEndian(a + b) == BigEndian(a) * Pow256(|b|) + BigEndian(b)
    ensures BigEndian(b) < Pow256(|b|)
    decreases |b|
  {
    if b == [] {
      assert a + b == a;
    } else {
      hide BigEndian;
      var c, x := b[..|b| - 1], b[|b| - 1];
      BigEndianSplit(a, c);
      BigEndianSnoc(b);
      BigEndianSnoc(a + b);
      assert (a + b)[..|a + b| - 1] == a + c;
      Shift(BigEndian(a), Pow256(|c|), BigEndian(c), x);
    }
  }

  lemma Shift(x: nat, p: nat, y: nat, last: nat)
    ensures (x * p + y) * 256 + last == x * (256 * p) + (y * 256 + last)
  {
  }

  lemma {:induction false} BigEndianZero(s: bytes)
    ensures BigEndian(s) == 0 <==> forall i :: 0 <= i < |s| ==> s[i] == 0
  {
    if s != [] {
      var c, last := s[..|s| - 1], s[|s| - 1];
      BigEndianZero(c);
      assert BigEndian(s) == BigEndian(c) * 0x100 + last;
      assert forall i :: 0 <= i < |c| ==> c[i] == s[i];
    }
  }

  /** The session's test on the bytes of a double is the comparison with zero. */
  lemma PositiveIsInOrder(d: Amf.Double)
    ensures Positive(d) <==> IsPositive(d)
  {
    hide BigEndian, Pow256, Positive;
    var a, b := d[..2], d[2..];
    assert d == a + b;
    BigEndianSplit(a, b);
    SixBytes();
    BigEndianZero(b);
    LeadingBytes(a);
    PositiveFields(d, b);
    Compare(BigEndian(a), BigEndian(b));
  }

  lemma SixBytes()
    ensures Pow256(6) == 0x1_0000_0000_0000
  {
    assert Pow256(1) == 256 && Pow256(2) == 65536 && Pow256(3) == 256 * 65536;
  }

  lemma LeadingBytes(a: bytes)
    requires |a| == 2
    ensures BigEndian(a) == a[0] as int * 256 + a[1]
  {
    hide BigEndian;
    ReadsBigEndian(a);
  }

  lemma PositiveFields(d: Amf.Double, b: bytes)
    requires b == d[2..]
    ensures var h, zero := d[0] as int * 256 + d[1], forall i :: 0 <= i < |b| ==> b[i] == 0;
            Positive(d) <==> (h > 0 || !zero) && (h < 0x7FF0 || (h == 0x7FF0 && zero))
  {
    DoubleBytes(d, b);
  }

  lemma Compare(h: nat, l: nat)
    requires l < 0x1_0000_0000_0000
    ensures 0 < h * 0x1_0000_0000_0000 + l <= 0x7FF0_0000_0000_0000
       <==> (h > 0 || l > 0) && (h < 0x7FF0 || (h == 0x7FF0 && l == 0))
  {
  }

  lemma DoubleBytes(d: Amf.Double, b: bytes)
    requires b == d[2..]
    ensures (forall i :: 0 <= i < 8 ==> d[i] == 0) <==> d == ZERO
    ensures (forall i :: 0 <= i < 6 ==> b[i] == 0) <==> d == [d[0], d[1], 0, 0, 0, 0, 0, 0]
  {
    assert forall i :: 2 <= i < 8 ==> d[i] == b[i - 2];
    if d == [d[0], d[1], 0, 0, 0, 0, 0, 0] {
      assert b == [0, 0, 0, 0, 0, 0];
    }
  }

  // ---------------------------------------------------------------- the answers

  function CanonicalAll(vs: seq<Amf.Value>): seq<Node> {
    if vs == [] then [] else [Canonical(vs[0])] + CanonicalAll(vs[1..])
  }

  lemma {:induction false} EncodeAllSpells(vs: seq<Amf.Value>)
    ensures Amf.EncodeAll(vs) == SpellNodes(CanonicalAll(vs))
  {
    if vs != [] {
      EncodeSpells(vs[0]);
      EncodeAllSpells(vs[1..]);
      assert CanonicalAll(vs)[1..] == CanonicalAll(vs[1..]);
    }
  }

  lemma {:induction false} CanonicalAllAt(vs: seq<Amf.Value>)
    ensures |CanonicalAll(vs)| == |vs| && forall i :: 0 <= i < |vs| ==> CanonicalAll(vs)[i] == Canonical(vs[i])
  {
    if vs != [] {
      CanonicalAllAt(vs[1..]);
    }
  }

  lemma FourSpelled(vs: seq<Amf.Value>)
    requires |vs| == 4
    ensures CanonicalAll(vs) == [Canonical(vs[0]), Canonical(vs[1]), Canonical(vs[2]), Canonical(vs[3])]
  {
    hide Canonical;
    CanonicalAllAt(vs);
  }

  lemma {:induction false} CanonicalPairsAt(fs: seq<Amf.Field>)
    ensures |CanonicalPairs(fs)| == |fs|
    ensures forall i :: 0 <= i < |fs| ==> CanonicalPairs(fs)[i] == Keyed(fs[i].key, Canonical(fs[i].value))
  {
    if fs != [] {
      CanonicalPairsAt(fs[1..]);
    }
  }

  lemma ServerPropertiesSpelled()
    ensures Canonical(ServerProperties())
         == Obj([Name("fmsVer", Say("FMS/3,5,3,824")), Name("capabilities", Num(THIRTYONE_DOUBLE)),
                 Name("mode", Num(ONE_DOUBLE))])
  {
    hide Ascii;
    CanonicalPairsAt(ServerProperties().fields);
  }

  lemma VersionSpelled()
    ensures Canonical(VersionData()) == Obj([Name("version", Say("3,5,3,824"))])
  {
    hide Ascii;
    CanonicalPairsAt(VersionData().fields);
  }

  lemma ConnectInformationSpelled()
    ensures Canonical(ConnectInformation())
         == Obj([Name("level", Say("status")), Name("code", Say("NetConnection.Connect.Success")),
                 Name("description", Say("Connection succeeded.")),
                 Name("data", Obj([Name("version", Say("3,5,3,824"))])),
                 Name("clientid", Num(ONE_DOUBLE)), Name("objectEncoding", Num(ZERO_DOUBLE))])
  {
    hide Ascii, VersionData;
    VersionSpelled();
    CanonicalPairsAt(ConnectInformation().fields);
    assert CanonicalPairs(ConnectInformation().fields)[3] == Name("data", Obj([Name("version", Say("3,5,3,824"))]));
  }

  lemma PublishInformationSpelled()
    ensures Canonical(PublishInformation())
         == Obj([Name("level", Say("status")), Name("code", Say("NetStream.Publish.Start")),
                 Name("description", Say("Publishing."))])
  {
    hide Ascii;
    CanonicalPairsAt(PublishInformation().fields);
  }

  lemma RepliesSpelled(id: Amf.Double)
    ensures CanonicalAll(ConnectResult(id)) == ConnectReply(id)
    ensures CanonicalAll(CreateStreamResult(id)) == [Say("_result"), Num(id), Void(5), Num(ONE_DOUBLE)]
    ensures CanonicalAll(PublishStart()) == PublishReply()
    ensures CanonicalAll(PlainResult(id)) == [Say("_result"), Num(id), Void(5), Void(5)]
  {
    hide Ascii, ServerProperties, ConnectInformation, PublishInformation, CanonicalAll, CanonicalPairs;
    FourSpelled(ConnectResult(id));
    FourSpelled(CreateStreamResult(id));
    FourSpelled(PublishStart());
    FourSpelled(PlainResult(id));
    ServerPropertiesSpelled();
    ConnectInformationSpelled();
    PublishInformationSpelled();
  }

  /** The session answers each command with exactly these messages. */
  lemma AnswersExactly(name: bytes, id: Amf.Double)
    ensures Answer(name, id) == Answers(name, id)
  {
    hide Ascii, ConnectResult, CreateStreamResult, PublishStart, PlainResult, ConnectReply, PublishReply;
    hide Positive, IsPositive;
    RepliesSpelled(id);
    EncodeAllSpells(ConnectResult(id));
    EncodeAllSpells(CreateStreamResult(id));
    EncodeAllSpells(PublishStart());
    EncodeAllSpells(PlainResult(id));
    PositiveIsInOrder(id);
    StreamBegins();
  }

  lemma StreamBegins()
    ensures StreamBegin(0) == Posting(2, Message(4, 0, 0, [0, 0, 0, 0, 0, 0]))
    ensures StreamBegin(STREAM_ID) == Posting(2, Message(4, 0, 0, [0, 0, 0, 0, 0, 1]))
  {
  }

  /** The greeting on the wire: acknowledgement window and peer bandwidth 2500000, dynamic, and chunks of 4096 bytes. */
  lemma GreetingOnTheWire()
    ensures EncodeAll(Greeting()) ==
            [2, 0, 0, 0, 0, 0, 4, 5, 0, 0, 0, 0, 0x00, 0x26, 0x25, 0xA0]
            + ([2, 0, 0, 0, 0, 0, 5, 6, 0, 0, 0, 0, 0x00, 0x26, 0x25, 0xA0, 2]
               + ([2, 0, 0, 0, 0, 0, 4, 1, 0, 0, 0, 0, 0x00, 0x00, 0x10, 0x00] + []))
  {
    var g := Greeting();
    EncodeThree(g[0], g[1], g[2], []);
    assert EncodeAll(g) + [] == EncodeAll(g);
    ControlOnTheWire(5, BE32(WINDOW));
    ControlOnTheWire(6, BE32(WINDOW) + [2]);
    ControlOnTheWire(1, BE32(OUT_CHUNK_SIZE));
  }

  lemma ControlOnTheWire(msgType: byte, payload: bytes)
    requires |payload| < 256
    ensures Encode(2, Message(msgType, 0, 0, payload)) == [2, 0, 0, 0, 0, 0, |payload|, msgType, 0, 0, 0, 0] + payload
  {
    assert payload[|payload|..] == [] && payload[..|payload|] == payload;
    assert Fragment(2, []) == [];
  }

  // ---------------------------------------------------------------- what the session makes of a message

  /** A turn of the session, by content. */
  function TurnOf(d: Dated): Turn {
    Turn(FrameOf(d.content, d.time), AnswerOf(d.content),
         d.content.Order? && d.content.name == Ascii("publish"), d.content.Garbled?)
  }

  lemma PictureIsHandled(d: Dated)
    requires d.content.Picture? && Valid(d.content)
    ensures HandleMessage(MessageOf(d)) == TurnOf(d)
  {
    hide ParseVideo, BE24, Records, NonEmpty, Video.Truncated;
    var c := d.content;
    assert PayloadOf(c) == VideoTag(c.frameType, 1, c.cts) + (Records(c.units) + c.tail);
    UnitsArePassedOn(MessageOf(d), c.frameType, c.cts, c.units, c.tail);
  }

  lemma SetupIsHandled(d: Dated)
    requires d.content.Setup? && Valid(d.content)
    ensures HandleMessage(MessageOf(d)) == TurnOf(d)
  {
    hide BE24, FromBE24, VideoTag, ParseConfig, ConfigStands, LastOr, Nalus;
    var c, p := d.content, PayloadOf(d.content);
    assert p == VideoTag(c.frameType, 0, c.cts) + (c.head + c.record) by {
      TagIs(c.frameType, 0, c.cts);
    }
    TagFields(c.frameType, 0, c.cts, c.head + c.record);
    assert p[10..] == p[5..][5..] == c.record;
    ConfigExactly(c.record, c.config);
  }

  lemma TagIs(frameType: nat, packetType: byte, cts: nat)
    requires frameType < 16
    ensures VideoTag(frameType, packetType, cts) == [(frameType % 16 * 16 + 7) as byte, packetType] + BE24(cts)
  {
  }

  lemma NoVideoIsHandled(d: Dated)
    requires d.content.NoVideo? && Valid(d.content)
    ensures HandleMessage(MessageOf(d)) == TurnOf(d)
  {
    hide FromBE24, ParseConfig, ConfigStands, LastOr, Nalus;
    var p := d.content.payload;
    if |p| >= 11 {
      HasConfig(p[10..]);
    }
  }

  lemma HasConfig(s: bytes)
    ensures ParseConfig(s).Some? <==> exists c :: IsConfig(s, c)
  {
    hide ParseConfig, ConfigStands, LastOr;
    if ParseConfig(s).Some? {
      ConfigExactly(s, ParseConfig(s).value);
      assert IsConfig(s, ParseConfig(s).value);
    }
    if exists c :: IsConfig(s, c) {
      var c :| IsConfig(s, c);
      ConfigExactly(s, c);
    }
  }

  /** A value at the front of some bytes, or none. */
  lemma Reads(s: bytes)
    ensures Amf.Decode(s).Some? <==> Spelled(s)
    ensures forall n, rest :: Stands(s, n, rest) ==> Amf.Decode(s) == Some(Amf.Parsed(Meaning(n), rest))
  {
    hide Amf.Decode, Spell, WellFormed, Meaning, Spelling;
    if Amf.Decode(s).Some? {
      var n := DecodedIsSpelled(s);
      SpellingStands(s, n);
    }
    forall n, rest | Stands(s, n, rest) ensures Amf.Decode(s) == Some(Amf.Parsed(Meaning(n), rest)) {
      SpelledIsDecoded(n, rest);
    }
  }

  lemma SpellingStands(s: bytes, n: Node)
    requires Amf.Decode(s).Some? && Spelling(n, s, Amf.Decode(s).value.value, Amf.Decode(s).value.rest)
    ensures Stands(s, n, Amf.Decode(s).value.rest)
  {
    hide Amf.Decode, Spell, WellFormed, Meaning;
  }

  lemma MeansString(n: Node)
    ensures Meaning(n).String? <==> n.Str?
    ensures Meaning(n).Number? <==> n.Num?
    ensures n.Str? ==> Meaning(n) == Amf.String(n.s)
    ensures n.Num? ==> Meaning(n) == Amf.Number(n.d)
  {
  }

  lemma OrderIsParsed(c: Content)
    requires c.Order? && Valid(c)
    ensures ParseRequest(PayloadOf(c)) == Some(Request(c.name, IdOf(c.second)))
  {
    hide Amf.Decode;
    var p, name := PayloadOf(c), Str(c.name);
    if c.second.None? {
      assert p + [] == p;
      SpelledIsDecoded(name, []);
    } else {
      var s := c.second.value;
      var more := Spell(s.node) + s.arguments;
      SpelledIsDecoded(name, more);
      hide Spell, WellFormed, Meaning;
      SpelledIsDecoded(s.node, s.arguments);
      MeansString(s.node);
      SpellingIsNotEmpty(s.node);
      MeansString(name);
    }
  }

  lemma SpellingIsNotEmpty(n: Node)
    ensures Spell(n) != []
  {
  }

  lemma OrderIsHandled(d: Dated)
    requires d.content.Order? && Valid(d.content)
    ensures HandleMessage(MessageOf(d)) == TurnOf(d)
  {
    hide ParseRequest, Answer, Answers, IdOf, PayloadOf, Ascii, ParseVideo;
    var c := d.content;
    OrderIsParsed(c);
    AnswersExactly(c.name, IdOf(c.second));
  }

  lemma ChatterIsHandled(d: Dated)
    requires d.content.Chatter? && Valid(d.content)
    ensures HandleMessage(MessageOf(d)) == TurnOf(d)
  {
    hide Amf.Decode, ParseVideo, Stands, Meaning;
    var p := d.content.payload;
    if p != [] {
      var n, rest :| Stands(p, n, rest) && !n.Str?;
      Reads(p);
      MeansString(n);
    }
  }

  lemma GarbledIsHandled(d: Dated)
    requires d.content.Garbled? && Valid(d.content)
    ensures HandleMessage(MessageOf(d)) == TurnOf(d)
  {
    hide Amf.Decode, ParseVideo, Stands, Meaning, Spelled;
    var p := d.content.payload;
    Reads(p);
    if Spelled(p) {
      var name, rest :| Stands(p, Str(name), rest) && rest != [] && !Spelled(rest);
      Reads(rest);
      MeansString(Str(name));
    }
  }

  /** Every message does what its content says, and nothing else. */
  lemma ContentIsHandled(d: Dated)
    requires Valid(d.content)
    ensures HandleMessage(MessageOf(d)) == TurnOf(d)
  {
    match d.content {
      case Picture(_, _, _, _) => PictureIsHandled(d);
      case Setup(_, _, _, _, _) => SetupIsHandled(d);
      case NoVideo(_) => NoVideoIsHandled(d);
      case Order(_, _, _) => OrderIsHandled(d);
      case Chatter(_, _) => ChatterIsHandled(d);
      case Garbled(_, _) => GarbledIsHandled(d);
      case Else(_, _) =>
    }
  }

  ghost predicate AllValid(cs: seq<Dated>) {
    forall d :: d in cs ==> Valid(d.content)
  }

  lemma {:induction false} HeardIsTold(cs: seq<Dated>, errors: nat)
    requires AllValid(cs)
    ensures Heard(MessagesOf(cs), errors) == Told(cs, errors)
    decreases |cs|
  {
    hide HandleMessage, Valid, FrameOf, AnswerOf, MessageOf;
    if cs != [] {
      assert cs[0] in cs;
      ContentIsHandled(cs[0]);
      assert MessagesOf(cs)[1..] == MessagesOf(cs[1..]);
      HeardIsTold(cs[1..], 0);
      HeardIsTold(cs[1..], errors);
      HeardIsTold(cs[1..], errors + 1);
    }
  }

  /**
   For every run of the reference sender whose messages have these contents, however it interleaves, compresses and
   cuts them: exactly the frames of its pictures and configurations come out, in order, and exactly the answers to its
   orders are sent.
   */
  lemma ContentsAreTold(snd: Sender, r: Reader, es: seq<Event>, cs: seq<Dated>)
    requires Agree(snd, r) && Conforms(snd, es) && AllValid(cs) && Delivered(snd, es) == MessagesOf(cs)
    ensures Converse(r, Wire(snd, es), 0) == Told(cs, 0)
  {
    hide Converse, Wire, Delivered, Heard, Told, Agree, Conforms, AllValid, MessagesOf;
    SenderIsHeard(snd, r, es);
    HeardIsTold(cs, 0);
  }

  /** And every message has such a content. */
  lemma EveryMessageHasContent(m: Message) returns (d: Dated)
    ensures MessageOf(d) == m && Valid(d.content)
  {
    var c: Content;
    if m.msgType == 9 {
      c := VideoContent(m.payload);
    } else if m.msgType == 18 || m.msgType == 20 {
      c := CommandContent(m.msgType, m.payload);
    } else {
      c := Else(m.msgType, m.payload);
    }
    d := Dated(c, m.streamId, m.timestamp);
  }

  lemma VideoContent(p: bytes) returns (c: Content)
    ensures Valid(c) && PayloadOf(c) == p && TypeOf(c) == 9
  {
    hide Records, ConfigStands, LastOr, Video.Truncated, BE24, FromBE24, ParseConfig;
    if |p| < 5 || p[0] % 16 != 7 || p[1] > 1 {
      c := NoVideo(p);
    } else {
      var f, cts := p[0] / 16, FromBE24(p[2..5]);
      BE24Inverse(p[2..5]);
      assert p[0] == (f % 16 * 16 + 7) as byte;
      assert p == [p[0], p[1]] + p[2..5] + p[5..];
      if p[1] == 1 {
        var units, tail := SplitRecords(p[5..]);
        c := Picture(f, cts, units, tail);
      } else if |p| < 11 || forall x :: !IsConfig(p[10..], x) {
        c := NoVideo(p);
      } else {
        var config :| IsConfig(p[10..], config);
        c := Setup(f, cts, p[5..10], p[10..], config);
        assert p[5..] == p[5..10] + p[10..];
      }
    }
  }

  lemma CommandContent(t: byte, p: bytes) returns (c: Content)
    requires t == 18 || t == 20
    ensures Valid(c) && PayloadOf(c) == p && TypeOf(c) == t
  {
    hide Spell, WellFormed;
    if p == [] {
      c := Chatter(t, p);
    } else if !Spelled(p) {
      c := Garbled(t, p);
    } else {
      var n, rest :| Stands(p, n, rest);
      if !n.Str? {
        c := Chatter(t, p);
      } else if rest == [] {
        c := Order(t, n.s, None);
        ShortName(n, rest);
        assert Spell(n) + [] == Spell(n);
      } else if !Spelled(rest) {
        assert Stands(p, Str(n.s), rest);
        c := Garbled(t, p);
      } else {
        var second, arguments :| Stands(rest, second, arguments);
        ShortName(n, rest);
        c := Order(t, n.s, Some(Second(second, arguments)));
      }
    }
  }

  lemma ShortName(n: Node, rest: bytes)
    requires n.Str? && WellFormed(n, rest)
    ensures |n.s| < 0x1_0000 && n == Str(n.s)
  {
  }
}

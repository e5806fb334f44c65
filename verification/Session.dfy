// RTMPServerSession as functions: the greeting, the answers to AMF0 commands, and the message loop; and the
// theorem that what the session says reaches a peer through both layers.

module Session {
  import opened Bytes
  import opened Chunks
  import opened Transcript
  import opened Interleaving
  import opened Video
  import Amf

  const WINDOW_ACK_SIZE: byte := 0x05
  const SET_PEER_BANDWIDTH: byte := 0x06
  const USER_CONTROL: byte := 0x04
  const VIDEO: byte := 0x09
  const DATA_AMF0: byte := 0x12
  const COMMAND_AMF0: byte := 0x14

  const STREAM_ID: uint32 := 1
  const WINDOW: uint32 := 2_500_000

  // The doubles the session writes, as IEEE 754 bytes.
  const ZERO: Amf.Double := [0, 0, 0, 0, 0, 0, 0, 0]
  const ONE: Amf.Double := [0x3F, 0xF0, 0, 0, 0, 0, 0, 0]
  const THIRTY_ONE: Amf.Double := [0x40, 0x3F, 0, 0, 0, 0, 0, 0]

  function Ascii(s: string): (b: bytes)
    ensures |b| == |s|
  {
    seq(|s|, i requires 0 <= i < |s| => s[i] as int % 256)
  }

  function Text(s: string): Amf.Value {
    Amf.String(Ascii(s))
  }

  function Control(msgType: byte, payload: bytes): Posting {
    Posting(2, Message(msgType, 0, 0, payload))
  }

  /** What the constructor sends. */
  function Greeting(): seq<Posting> {
    [Control(WINDOW_ACK_SIZE, BE32(WINDOW)),
     Control(SET_PEER_BANDWIDTH, BE32(WINDOW) + [2]),
     Control(SET_CHUNK_SIZE, BE32(OUT_CHUNK_SIZE))]
  }

  // ---------------------------------------------------------------- answers

  function Command(csId: int, streamId: uint32, values: seq<Amf.Value>): Posting {
    Posting(csId, Message(COMMAND_AMF0, streamId, 0, Amf.EncodeAll(values)))
  }

  function Pair(key: string, v: Amf.Value): Amf.Field {
    Amf.Field(Ascii(key), v)
  }

  function ServerProperties(): Amf.Value {
    Amf.Object([
      Pair("fmsVer", Text("FMS/3,5,3,824")),
      Pair("capabilities", Amf.Number(THIRTY_ONE)),
      Pair("mode", Amf.Number(ONE))])
  }

  function VersionData(): Amf.Value {
    Amf.Object([Pair("version", Text("3,5,3,824"))])
  }

  function ConnectInformation(): Amf.Value {
    Amf.Object([
      Pair("level", Text("status")),
      Pair("code", Text("NetConnection.Connect.Success")),
      Pair("description", Text("Connection succeeded.")),
      Pair("data", VersionData()),
      Pair("clientid", Amf.Number(ONE)),
      Pair("objectEncoding", Amf.Number(ZERO))])
  }

  function PublishInformation(): Amf.Value {
    Amf.Object([
      Pair("level", Text("status")),
      Pair("code", Text("NetStream.Publish.Start")),
      Pair("description", Text("Publishing."))])
  }

  function ConnectResult(tx: Amf.Double): seq<Amf.Value> {
    [Text("_result"), Amf.Number(tx), ServerProperties(), ConnectInformation()]
  }

  function CreateStreamResult(tx: Amf.Double): seq<Amf.Value> {
    [Text("_result"), Amf.Number(tx), Amf.Null, Amf.Number(ONE)]
  }

  function PlainResult(tx: Amf.Double): seq<Amf.Value> {
    [Text("_result"), Amf.Number(tx), Amf.Null, Amf.Null]
  }

  function PublishStart(): seq<Amf.Value> {
    [Text("onStatus"), Amf.Number(ZERO), Amf.Null, PublishInformation()]
  }

  function StreamBegin(streamId: uint32): Posting {
    Control(USER_CONTROL, BE16(0) + BE32(streamId))
  }

  /** `d > 0` on doubles: positive sign, not zero, not a NaN. */
  predicate Positive(d: Amf.Double) {
    && d[0] < 0x80
    && d != ZERO
    && (d[0] < 0x7F || d[1] < 0xF0 || d == [0x7F, 0xF0, 0, 0, 0, 0, 0, 0])
  }

  /** The session's answer to a command it could decode. */
  function Answer(cmd: bytes, tx: Amf.Double): seq<Posting> {
    if cmd == Ascii("connect") then [Command(3, 0, ConnectResult(tx)), StreamBegin(0)]
    else if cmd == Ascii("createStream") then [Command(3, 0, CreateStreamResult(tx))]
    else if cmd == Ascii("publish") then [StreamBegin(STREAM_ID), Command(5, STREAM_ID, PublishStart())]
    else if cmd == Ascii("FCPublish") || cmd == Ascii("releaseStream") || cmd == Ascii("deleteStream") then
      if Positive(tx) then [Command(3, 0, PlainResult(tx))] else []
    else []
  }

  datatype Request = Request(cmd: bytes, tx: Amf.Double) | Ignored

  /** None: decoding raised an exception. The transaction id is 0 when it is missing or not a number. */
  function ParseRequest(payload: bytes): Option<Request> {
    if payload == [] then Some(Ignored) else
    match Amf.Decode(payload)
    case None => None
    case Some(c) =>
      if !c.value.String? then Some(Ignored)
      else if c.rest == [] then Some(Request(c.value.str, ZERO)) else
      match Amf.Decode(c.rest)
      case None => None
      case Some(t) => Some(Request(c.value.str, if t.value.Number? then t.value.number else ZERO))
  }

  function Respond(payload: bytes): Option<seq<Posting>> {
    match ParseRequest(payload)
    case None => None
    case Some(Ignored) => Some([])
    case Some(Request(cmd, tx)) => Some(Answer(cmd, tx))
  }

  predicate Publishes(payload: bytes) {
    ParseRequest(payload).Some? && ParseRequest(payload).value.Request?
    && ParseRequest(payload).value.cmd == Ascii("publish")
  }

  // ---------------------------------------------------------------- the message loop

  datatype Turn = Turn(frame: Option<Frame>, replies: seq<Posting>, publishing: bool, failed: bool)

  /** What one message makes the session do. */
  function HandleMessage(m: Message): (t: Turn)
    ensures t.failed || t.frame.Some? ==> t.replies == [] && !t.publishing
    ensures t.failed ==> t.frame.None?
  {
    if m.msgType == COMMAND_AMF0 || m.msgType == DATA_AMF0 then
      match Respond(m.payload)
      case None => Turn(None, [], false, true)
      case Some(ps) => Turn(None, ps, Publishes(m.payload), false)
    else if m.msgType == VIDEO then Turn(ParseVideo(m), [], false, false)
    else Turn(None, [], false, false)
  }

  /** The call that handles it returns or fails. */
  predicate Ends(m: Message) {
    HandleMessage(m).failed || HandleMessage(m).frame.Some?
  }

  /**
   What one call did: the frame it returned, or none and whether a message could not be decoded; what was sent; and
   where the reader is.
   */
  datatype Served = Served(
    frame: Option<Frame>, failed: bool, replies: seq<Posting>, publishing: bool, reader: Reader, rest: bytes)

  /** Messages are handled until one carries a frame or raises an exception, or the bytes run out. */
  function Serve(r: Reader, s: bytes): (d: Served)
    ensures d.frame.Some? || d.failed ==> |d.rest| < |s|
    ensures d.failed ==> d.frame.None?
    decreases |s|
  {
    match Receive(r, s)
    case None => Served(None, false, [], false, r, s)
    case Some(d) =>
      var t := HandleMessage(d.msg);
      if Ends(d.msg) then Served(t.frame, t.failed, t.replies, t.publishing, d.reader, d.rest)
      else
        Continued(t.replies, t.publishing, Serve(d.reader, d.rest))
  }

  lemma ServeStep(r: Reader, s: bytes)
    ensures match Receive(r, s)
            case None => Serve(r, s) == Served(None, false, [], false, r, s)
            case Some(d) =>
              var t := HandleMessage(d.msg);
              if Ends(d.msg) then
                Serve(r, s) == Served(t.frame, t.failed, t.replies, t.publishing, d.reader, d.rest)
              else
                Serve(r, s) == Continued(t.replies, t.publishing, Serve(d.reader, d.rest))
  {
    hide Receive, HandleMessage, Ends;
  }

  /** A served call in which `said` was sent, and a publish seen or not, before the part described by `d`. */
  function Continued(said: seq<Posting>, told: bool, d: Served): Served {
    d.(replies := said + d.replies, publishing := told || d.publishing)
  }

  lemma ContinuedJoins(said: seq<Posting>, more: seq<Posting>, told: bool, also: bool, d: Served)
    ensures Continued([], false, d) == d
    ensures Continued(said, told, Continued(more, also, d)) == Continued(said + more, told || also, d)
  {
    assert [] + d.replies == d.replies;
    assert said + (more + d.replies) == said + more + d.replies;
  }

  // ---------------------------------------------------------------- what the session sends reaches the peer

  /** A value the session may send: it survives AMF0 and is small. */
  ghost predicate Small(v: Amf.Value, size: nat) {
    Amf.Fits(v) && Amf.ArrayFree(v) && |Amf.Encode(v)| < size
  }

  ghost predicate SmallField(f: Amf.Field) {
    0 < |f.key| < 100 && Small(f.value, 200)
  }

  lemma {:induction false} ObjectIsSmall(fs: seq<Amf.Field>)
    requires forall f :: f in fs ==> SmallField(f)
    ensures Small(Amf.Object(fs), 5 + 302 * |fs|)
  {
    if fs != [] {
      assert SmallField(fs[0]);
      ObjectIsSmall(fs[1..]);
    }
  }

  lemma SmallPair(key: string, v: Amf.Value)
    requires 0 < |key| < 100
    requires v.Number? || (v.String? && |v.str| < 100)
    ensures SmallField(Pair(key, v))
  {
  }

  lemma ServerPropertiesAreSmall()
    ensures Small(ServerProperties(), 2000)
  {
    hide SmallField;
    SmallPair("fmsVer", Text("FMS/3,5,3,824"));
    SmallPair("capabilities", Amf.Number(THIRTY_ONE));
    SmallPair("mode", Amf.Number(ONE));
    ObjectIsSmall(ServerProperties().fields);
  }

  lemma VersionDataIsSmall()
    ensures SmallField(Pair("data", VersionData()))
  {
    var v := Pair("version", Text("3,5,3,824"));
    SmallPair("version", Text("3,5,3,824"));
    ObjectIsSmall([v]);
    assert [v][1..] == [];
    assert Amf.EncodeFields([v]) == Amf.EncodeShort(v.key) + Amf.Encode(v.value) + Amf.EncodeFields([v][1..]);
    assert |Amf.EncodeFields([])| == 3;
  }

  lemma ConnectInformationIsSmall()
    ensures Small(ConnectInformation(), 2000)
  {
    hide SmallField, VersionData;
    SmallPair("level", Text("status"));
    SmallPair("code", Text("NetConnection.Connect.Success"));
    SmallPair("description", Text("Connection succeeded."));
    VersionDataIsSmall();
    SmallPair("clientid", Amf.Number(ONE));
    SmallPair("objectEncoding", Amf.Number(ZERO));
    ObjectIsSmall(ConnectInformation().fields);
  }

  lemma PublishInformationIsSmall()
    ensures Small(PublishInformation(), 2000)
  {
    hide SmallField;
    SmallPair("level", Text("status"));
    SmallPair("code", Text("NetStream.Publish.Start"));
    SmallPair("description", Text("Publishing."));
    ObjectIsSmall(PublishInformation().fields);
  }

  lemma {:induction false} EncodeAllIsSmall(vs: seq<Amf.Value>)
    requires forall v :: v in vs ==> Small(v, 2000)
    ensures |Amf.EncodeAll(vs)| <= 2000 * |vs|
    ensures Amf.DecodeAll(Amf.EncodeAll(vs)) == Some(vs)
  {
    hide Amf.DecodeAll;
    Amf.EncodeAllThenDecodeAll(vs);
    if vs != [] {
      assert vs[0] in vs;
      EncodeAllIsSmall(vs[1..]);
    }
  }

  ghost predicate Replies(values: seq<Amf.Value>) {
    |values| == 4 && forall v :: v in values ==> Small(v, 2000)
  }

  lemma AnswersAreReplies(tx: Amf.Double)
    ensures Replies(ConnectResult(tx)) && Replies(CreateStreamResult(tx)) && Replies(PlainResult(tx))
    ensures Replies(PublishStart())
  {
    hide ServerProperties, ConnectInformation, PublishInformation;
    ServerPropertiesAreSmall();
    ConnectInformationIsSmall();
    PublishInformationIsSmall();
  }

  lemma CommandIsSendable(csId: int, streamId: uint32, values: seq<Amf.Value>)
    requires 2 <= csId < 64 && Replies(values)
    ensures Sendable(Command(csId, streamId, values)) && !SetsChunkSize(Command(csId, streamId, values).msg)
  {
    hide Amf.DecodeAll, Amf.EncodeAll;
    EncodeAllIsSmall(values);
  }

  lemma AnswersAreSendable(cmd: bytes, tx: Amf.Double)
    ensures forall p :: p in Answer(cmd, tx) ==> Sendable(p) && !SetsChunkSize(p.msg)
  {
    hide ConnectResult, CreateStreamResult, PlainResult, PublishStart, Sendable, SetsChunkSize, Command, Replies;
    AnswersAreReplies(tx);
    CommandIsSendable(3, 0, ConnectResult(tx));
    CommandIsSendable(3, 0, CreateStreamResult(tx));
    CommandIsSendable(3, 0, PlainResult(tx));
    CommandIsSendable(5, STREAM_ID, PublishStart());
    StreamBeginIsSendable(0);
    StreamBeginIsSendable(STREAM_ID);
  }

  lemma StreamBeginIsSendable(streamId: uint32)
    ensures Sendable(StreamBegin(streamId)) && !SetsChunkSize(StreamBegin(streamId).msg)
  {
  }

  lemma EncodeThree(a: Posting, b: Posting, c: Posting, t: bytes)
    ensures EncodeAll([a, b, c]) + t
         == Encode(a.csId, a.msg) + (Encode(b.csId, b.msg) + (Encode(c.csId, c.msg) + t))
  {
    hide Encode;
    var x, y, z := Encode(a.csId, a.msg), Encode(b.csId, b.msg), Encode(c.csId, c.msg);
    assert [a, b, c][1..] == [b, c] && [b, c][1..] == [c] && [c][1..] == [];
    assert EncodeAll([c]) == z + [];
    assert EncodeAll([b, c]) == y + (z + []);
    assert x + (y + (z + [])) + t == x + (y + (z + t));
  }

  /** The greeting switches a fresh peer, which reads chunks of 128 bytes, to the session's chunk size. */
  lemma GreetingDrains(t: bytes) returns (r: Reader)
    ensures Drain(NEW_READER, EncodeAll(Greeting()) + t)
         == Prepend([Greeting()[0].msg, Greeting()[1].msg], Drain(r, t))
    ensures r.chunkSize == OUT_CHUNK_SIZE
  {
    hide Encode, EncodeAll, Drain, Receive, BE32, FromBE32;
    var g := Greeting();
    var a, b, c := g[0].msg, g[1].msg, g[2].msg;
    BE32RoundTrip(OUT_CHUNK_SIZE);
    assert c.payload[..4] == c.payload;
    var s2 := Encode(2, c) + t;
    var s1 := Encode(2, b) + s2;
    EncodeThree(g[0], g[1], g[2], t);
    var r1 := EncodeDrains(NEW_READER, 2, a, s1);
    var r2 := EncodeDrains(r1, 2, b, s2);
    r := EncodeDrains(r2, 2, c, t);
    PrependJoins([a], [b], Drain(r, t));
    PrependJoins([], [], Drain(r, t));
  }

  lemma {:induction false} EncodeAllSplit(ps: seq<Posting>, qs: seq<Posting>)
    ensures EncodeAll(ps + qs) == EncodeAll(ps) + EncodeAll(qs)
    decreases |ps|
  {
    if ps == [] {
      assert ps + qs == qs;
    } else {
      assert (ps + qs)[1..] == ps[1..] + qs;
      EncodeAllSplit(ps[1..], qs);
    }
  }

  /**
   A fresh peer that reads the greeting and then any list of sent messages gets the window and bandwidth messages
   and exactly the sent ones, in order, with Set Chunk Size messages absorbed and no bytes left over.
   */
  lemma TranscriptIsReceived(ps: seq<Posting>)
    requires forall p :: p in ps ==> Sendable(p)
    ensures var d := Drain(NEW_READER, EncodeAll(Greeting() + ps));
            d.out == [Greeting()[0].msg, Greeting()[1].msg] + VisibleAll(Messages(ps)) && d.rest == []
  {
    hide EncodeAll, Drain, Messages, VisibleAll, Sendable;
    EncodeAllSplit(Greeting(), ps);
    var r := GreetingDrains(EncodeAll(ps));
    var r' := PostingsDrain(r, ps, []);
    assert EncodeAll(ps) + [] == EncodeAll(ps);
    DrainNothing(r');
    PrependJoins([Greeting()[0].msg, Greeting()[1].msg], VisibleAll(Messages(ps)), Drain(r', []));
    var out := [Greeting()[0].msg, Greeting()[1].msg] + VisibleAll(Messages(ps));
    assert out + [] == out;
  }

  lemma DrainNothing(r: Reader)
    ensures Drain(r, []) == Stepped(r, [], [])
  {
  }

  lemma {:induction false} NoneAbsorbed(ps: seq<Posting>)
    requires forall p :: p in ps ==> !SetsChunkSize(p.msg)
    ensures VisibleAll(Messages(ps)) == Messages(ps)
    decreases |ps|
  {
    if ps != [] {
      VisibleCons(ps);
      NoneAbsorbed(ps[1..]);
    }
  }

  /** Whatever a peer asks, every message of the answer reaches it, unchanged and in order. */
  lemma EveryAnswerReachesPeer(request: bytes)
    requires Respond(request).Some?
    ensures var ps := Respond(request).value;
            var d := Drain(NEW_READER, EncodeAll(Greeting() + ps));
            d.out == [Greeting()[0].msg, Greeting()[1].msg] + Messages(ps) && d.rest == []
  {
    hide Drain, EncodeAll, Answer, Sendable, SetsChunkSize, ParseRequest, Greeting, Messages;
    var ps := Respond(request).value;
    match ParseRequest(request)
    case Some(Ignored) => AnswerReachesPeer([]);
    case Some(Request(cmd, tx)) =>
      AnswersAreSendable(cmd, tx);
      AnswerReachesPeer(ps);
  }

  lemma AnswerReachesPeer(ps: seq<Posting>)
    requires forall p :: p in ps ==> Sendable(p) && !SetsChunkSize(p.msg)
    ensures var d := Drain(NEW_READER, EncodeAll(Greeting() + ps));
            d.out == [Greeting()[0].msg, Greeting()[1].msg] + Messages(ps) && d.rest == []
  {
    TranscriptIsReceived(ps);
    NoneAbsorbed(ps);
  }

  /** The peer's view of an answered request: the third message it gets, AMF-decoded. */
  ghost function PeerSees(request: bytes): Option<seq<Amf.Value>>
    requires Respond(request).Some?
  {
    var d := Drain(NEW_READER, EncodeAll(Greeting() + Respond(request).value));
    if |d.out| < 3 || d.out[2].msgType != COMMAND_AMF0 then None else Amf.DecodeAll(d.out[2].payload)
  }

  function RequestBytes(name: string, tx: Amf.Double, arguments: bytes): bytes {
    Amf.Encode(Text(name)) + (Amf.Encode(Amf.Number(tx)) + arguments)
  }

  lemma RequestIsParsed(name: string, tx: Amf.Double, arguments: bytes)
    requires |name| < 0x1_0000
    ensures ParseRequest(RequestBytes(name, tx, arguments)) == Some(Request(Ascii(name), tx))
  {
    hide Amf.Decode;
    Amf.EncodeThenDecode(Text(name), Amf.Encode(Amf.Number(tx)) + arguments);
    Amf.EncodeThenDecode(Amf.Number(tx), arguments);
    assert RequestBytes(name, tx, arguments) != [];
    assert Amf.Encode(Amf.Number(tx)) + arguments != [];
  }

  lemma FirstCommandIsSeen(request: bytes, values: seq<Amf.Value>, more: seq<Posting>)
    requires Respond(request) == Some([Command(3, 0, values)] + more)
    requires forall p :: p in Respond(request).value ==> Sendable(p)
    requires Replies(values)
    ensures PeerSees(request) == Some(values)
  {
    hide Respond;
    var ps := Respond(request).value;
    TranscriptIsReceived(ps);
    EncodeAllIsSmall(values);
    VisibleCons(ps);
    assert VisibleAll(Messages(ps))[0] == ps[0].msg;
  }

  /**
   For every transaction id, a `connect` is answered so that a fresh peer, reading through the chunk layer, decodes
   `_result`, the same id and the two information objects; section 7.2.1.1 of the RTMP specification.
   */
  lemma ConnectReplyReachesPeer(tx: Amf.Double, arguments: bytes)
    ensures var request := RequestBytes("connect", tx, arguments);
            Respond(request).Some? && PeerSees(request) == Some(ConnectResult(tx))
  {
    var request := RequestBytes("connect", tx, arguments);
    RequestIsParsed("connect", tx, arguments);
    AnswersAreSendable(Ascii("connect"), tx);
    AnswersAreReplies(tx);
    hide ConnectResult, CreateStreamResult, PlainResult, PublishStart, StreamBegin, Command;
    hide RequestBytes, PeerSees, Replies, Sendable;
    assert [Command(3, 0, ConnectResult(tx))] + [StreamBegin(0)] == [Command(3, 0, ConnectResult(tx)), StreamBegin(0)];
    FirstCommandIsSeen(request, ConnectResult(tx), [StreamBegin(0)]);
  }

  /** And `createStream` by `_result`, the same id, null and stream id 1; section 7.2.1.3. */
  lemma CreateStreamReplyReachesPeer(tx: Amf.Double, arguments: bytes)
    ensures var request := RequestBytes("createStream", tx, arguments);
            && Respond(request).Some?
            && PeerSees(request) == Some([Text("_result"), Amf.Number(tx), Amf.Null, Amf.Number(ONE)])
  {
    var request := RequestBytes("createStream", tx, arguments);
    RequestIsParsed("createStream", tx, arguments);
    AnswersAreSendable(Ascii("createStream"), tx);
    AnswersAreReplies(tx);
    assert [Command(3, 0, CreateStreamResult(tx))] + [] == [Command(3, 0, CreateStreamResult(tx))];
    assert |Ascii("createStream")| != |Ascii("connect")|;
    FirstCommandIsSeen(request, CreateStreamResult(tx), []);
  }

  // ---------------------------------------------------------------- what a call hands out

  /** The first message that ends a call, or the number of messages. */
  function FirstEnd(ms: seq<Message>): (k: nat)
    ensures k <= |ms|
    ensures forall i :: 0 <= i < k ==> !Ends(ms[i])
    ensures k < |ms| ==> Ends(ms[k])
  {
    if ms == [] || Ends(ms[0]) then 0 else FirstEnd(ms[1..]) + 1
  }

  /** The answers to a list of messages, in order. */
  function RepliesTo(ms: seq<Message>): seq<Posting> {
    if ms == [] then [] else HandleMessage(ms[0]).replies + RepliesTo(ms[1..])
  }

  predicate Publishing(ms: seq<Message>) {
    ms != [] && (HandleMessage(ms[0]).publishing || Publishing(ms[1..]))
  }

  /**
   On any bytes, a call answers the messages before the first one that carries a frame or cannot be decoded, returns
   that one's frame, and leaves the messages behind it to the next call.
   */
  lemma {:induction false} ServesUpToFirstFrame(r: Reader, s: bytes)
    ensures var ms, d := Drain(r, s).out, Serve(r, s);
            var k := FirstEnd(ms);
            && d.replies == RepliesTo(ms[..k]) && d.publishing == Publishing(ms[..k])
            && d.frame == (if k < |ms| then HandleMessage(ms[k]).frame else None)
            && d.failed == (k < |ms| && HandleMessage(ms[k]).failed)
            && Drain(d.reader, d.rest).out == ms[if k < |ms| then k + 1 else k..]
    decreases |s|
  {
    hide Receive, Drain, HandleMessage, Ends, Serve, FirstEnd, RepliesTo, Publishing;
    var ms := Drain(r, s).out;
    ReceiveIsDrain(r, s);
    ServeStep(r, s);
    if Receive(r, s).None? {
      NoMessages(ms);
    } else {
      var d := Receive(r, s).value;
      var rest := Drain(d.reader, d.rest).out;
      assert ms == [d.msg] + rest;
      EndsQuietly(d.msg);
      UpToEnd(d.msg, rest);
      if !Ends(d.msg) {
        ServesUpToFirstFrame(d.reader, d.rest);
      }
    }
  }

  lemma NoMessages(ms: seq<Message>)
    requires ms == []
    ensures FirstEnd(ms) == 0 && RepliesTo(ms[..0]) == [] && !Publishing(ms[..0])
  {
  }

  lemma UpToEnd(m: Message, rest: seq<Message>)
    ensures var ms := [m] + rest;
            var k := FirstEnd(ms);
            if Ends(m) then
              k == 0 && ms[k] == m && ms[k + 1..] == rest && RepliesTo(ms[..k]) == [] && !Publishing(ms[..k])
            else k == FirstEnd(rest) + 1
                 && RepliesTo(ms[..k]) == HandleMessage(m).replies + RepliesTo(rest[..k - 1])
                 && Publishing(ms[..k]) == (HandleMessage(m).publishing || Publishing(rest[..k - 1]))
                 && (k < |ms| ==> ms[k] == rest[k - 1] && ms[k + 1..] == rest[k..])
                 && (k == |ms| ==> ms[k..] == rest[k - 1..])
  {
    hide HandleMessage, Ends;
    var ms := [m] + rest;
    var k := FirstEnd(ms);
    assert ms[1..] == rest;
    if !Ends(m) {
      assert ms[..k][0] == m && ms[..k][1..] == rest[..k - 1];
    }
  }

  lemma EndsQuietly(m: Message)
    ensures Ends(m) ==> HandleMessage(m).replies == [] && !HandleMessage(m).publishing
  {
  }

  /**
   For every run of the reference sender: the frame of the first message that carries one, and the answers to those
   before it, up to the first command that cannot be decoded.
   */
  lemma ServesSender(snd: Sender, r: Reader, es: seq<Event>, t: bytes)
    requires Agree(snd, r) && Conforms(snd, es)
    ensures var ms, d := Delivered(snd, es), Serve(r, Wire(snd, es) + t);
            var k := FirstEnd(ms);
            k < |ms| ==>
              d.frame == HandleMessage(ms[k]).frame && d.failed == HandleMessage(ms[k]).failed
              && d.replies == RepliesTo(ms[..k]) && d.publishing == Publishing(ms[..k])
  {
    hide Drain, Delivered, Wire, HandleMessage, Ends, Serve, Agree, Conforms;
    var ms := Delivered(snd, es);
    var r' := InterleavingIsHarmless(snd, r, es, t);
    ServesUpToFirstFrame(r, Wire(snd, es) + t);
    var more := Drain(r', t).out;
    assert Drain(r, Wire(snd, es) + t).out == ms + more;
    FirstEndStays(ms, more);
    assert FirstEnd(ms) < |ms| ==> (ms + more)[..FirstEnd(ms)] == ms[..FirstEnd(ms)];
  }

  lemma {:induction false} FirstEndStays(ms: seq<Message>, more: seq<Message>)
    ensures FirstEnd(ms) < |ms| ==> FirstEnd(ms + more) == FirstEnd(ms)
  {
    hide Ends;
    if ms != [] {
      FirstEndStays(ms[1..], more);
      assert (ms + more)[1..] == ms[1..] + more;
    }
  }

  // ---------------------------------------------------------------- whole conversations

  const MAX_RETRIES := 10

  /** The frames handed out and the messages sent in a conversation. */
  datatype Talk = Talk(frames: seq<Frame>, replies: seq<Posting>)

  function Join(a: Talk, b: Talk): Talk {
    Talk(a.frames + b.frames, a.replies + b.replies)
  }

  /**
   The calls made for a connection until its bytes run out. A call that failed on a message is repeated, at most ten
   times without a frame in between.
   */
  function Converse(r: Reader, s: bytes, errors: nat): Talk
    decreases |s|
  {
    var d := Serve(r, s);
    if d.frame.Some? then Join(Talk([d.frame.value], d.replies), Converse(d.reader, d.rest, 0))
    else if d.failed && errors < MAX_RETRIES then Join(Talk([], d.replies), Converse(d.reader, d.rest, errors + 1))
    else Talk([], d.replies)
  }

  /** The same from the messages alone. */
  function Heard(ms: seq<Message>, errors: nat): Talk {
    if ms == [] then Talk([], []) else
    var t := HandleMessage(ms[0]);
    if t.failed then if errors < MAX_RETRIES then Heard(ms[1..], errors + 1) else Talk([], [])
    else if t.frame.Some? then Join(Talk([t.frame.value], []), Heard(ms[1..], 0))
    else Join(Talk([], t.replies), Heard(ms[1..], errors))
  }

  lemma JoinAgain(x: seq<Posting>, a: Talk, b: Talk)
    ensures Join(Talk([], x), Join(a, b)) == Join(Talk(a.frames, x + a.replies), b)
    ensures Join(Talk([], []), b) == b
  {
    assert [] + b.frames == b.frames && [] + b.replies == b.replies;
    assert [] + (a.frames + b.frames) == a.frames + b.frames;
    assert x + (a.replies + b.replies) == x + a.replies + b.replies;
  }

  /** What a conversation comes to is decided by its messages, not by how calls and bytes divide them. */
  lemma {:induction false} ConversationIsHeard(r: Reader, s: bytes, errors: nat)
    ensures Converse(r, s, errors) == Heard(Drain(r, s).out, errors)
    decreases |s|
  {
    hide Drain, HandleMessage, Ends, Serve;
    var ms, d := Drain(r, s).out, Serve(r, s);
    var k := FirstEnd(ms);
    ServesUpToFirstFrame(r, s);
    HeardUpToEnd(ms, errors);
    if k < |ms| {
      FrameOrFailure(ms[k]);
      ConversationIsHeard(d.reader, d.rest, if d.failed then errors + 1 else 0);
    } else {
      assert ms[..k] == ms;
    }
  }

  lemma FrameOrFailure(m: Message)
    ensures Ends(m) <==> (HandleMessage(m).failed || HandleMessage(m).frame.Some?)
    ensures HandleMessage(m).failed ==> HandleMessage(m).frame.None?
  {
    hide HandleMessage;
  }

  /** What is heard from the first message on that ends a call. */
  function AfterEnd(ms: seq<Message>, errors: nat): Talk {
    var k := FirstEnd(ms);
    if k == |ms| then Talk([], [])
    else if HandleMessage(ms[k]).frame.Some? then
      Join(Talk([HandleMessage(ms[k]).frame.value], []), Heard(ms[k + 1..], 0))
    else if errors < MAX_RETRIES then Heard(ms[k + 1..], errors + 1)
    else Talk([], [])
  }

  lemma {:induction false} HeardUpToEnd(ms: seq<Message>, errors: nat)
    ensures var k := FirstEnd(ms);
            Heard(ms, errors) == Join(Talk([], RepliesTo(ms[..k])), AfterEnd(ms, errors))
  {
    hide HandleMessage, Ends, FirstEnd, RepliesTo, Heard, Join;
    if ms == [] {
      NoMessages(ms);
      NothingHeard(ms, errors);
    } else {
      var m, rest := ms[0], ms[1..];
      assert ms == [m] + rest;
      FrameOrFailure(m);
      UpToEnd(m, rest);
      HeardFirst(m, rest, errors);
      JoinAgain([], Talk([], []), Heard(ms, errors));
      if !Ends(m) {
        HeardUpToEnd(rest, errors);
        JoinAgain(HandleMessage(m).replies, Talk([], RepliesTo(rest[..FirstEnd(rest)])), AfterEnd(rest, errors));
      }
    }
  }

  lemma NothingHeard(ms: seq<Message>, errors: nat)
    requires ms == []
    ensures Heard(ms, errors) == Join(Talk([], []), Talk([], []))
  {
  }

  lemma HeardFirst(m: Message, rest: seq<Message>, errors: nat)
    ensures Heard([m] + rest, errors) ==
            var t := HandleMessage(m);
            if t.failed then if errors < MAX_RETRIES then Heard(rest, errors + 1) else Talk([], [])
            else if t.frame.Some? then Join(Talk([t.frame.value], []), Heard(rest, 0))
            else Join(Talk([], t.replies), Heard(rest, errors))
  {
    hide HandleMessage;
    assert ([m] + rest)[1..] == rest;
  }

  lemma {:induction false} RepliesAreSendable(ms: seq<Message>)
    ensures forall p :: p in RepliesTo(ms) ==> Sendable(p) && !SetsChunkSize(p.msg)
  {
    hide HandleMessage, Sendable, SetsChunkSize;
    if ms != [] {
      TurnIsSendable(ms[0]);
      RepliesAreSendable(ms[1..]);
    }
  }

  lemma TurnIsSendable(m: Message)
    ensures forall p :: p in HandleMessage(m).replies ==> Sendable(p) && !SetsChunkSize(p.msg)
  {
    hide Answer, Sendable, SetsChunkSize, ParseRequest, ParseVideo;
    match ParseRequest(m.payload)
    case None =>
    case Some(Ignored) =>
    case Some(Request(cmd, tx)) => AnswersAreSendable(cmd, tx);
  }

  lemma {:induction false} HeardIsSendable(ms: seq<Message>, errors: nat)
    ensures forall p :: p in Heard(ms, errors).replies ==> Sendable(p) && !SetsChunkSize(p.msg)
    decreases |ms|
  {
    hide HandleMessage, Sendable, SetsChunkSize;
    if ms != [] {
      TurnIsSendable(ms[0]);
      HeardIsSendable(ms[1..], 0);
      HeardIsSendable(ms[1..], errors);
      HeardIsSendable(ms[1..], errors + 1);
    }
  }

  /** Everything one call sends can be sent, on any bytes. */
  lemma ServedIsSendable(r: Reader, s: bytes)
    ensures forall p :: p in Serve(r, s).replies ==> Sendable(p) && !SetsChunkSize(p.msg)
  {
    hide Drain, Serve, HandleMessage, Ends, Sendable, SetsChunkSize;
    ServesUpToFirstFrame(r, s);
    RepliesAreSendable(Drain(r, s).out[..FirstEnd(Drain(r, s).out)]);
  }

  /** Whatever bytes arrive, everything the session sends in the conversation reaches the peer, unchanged, in order. */
  lemma ConversationReachesPeer(r: Reader, s: bytes)
    ensures var ps := Converse(r, s, 0).replies;
            var d := Drain(NEW_READER, EncodeAll(Greeting() + ps));
            d.out == [Greeting()[0].msg, Greeting()[1].msg] + Messages(ps) && d.rest == []
  {
    hide Drain, EncodeAll, Greeting, Messages, Converse, Heard, Sendable, SetsChunkSize;
    ConversationIsHeard(r, s, 0);
    HeardIsSendable(Drain(r, s).out, 0);
    AnswerReachesPeer(Converse(r, s, 0).replies);
  }

  /**
   For every run of the reference sender, however it interleaves, compresses and cuts its messages: the frames handed
   out are those of its messages, in order, and each command is answered.
   */
  lemma SenderIsHeard(snd: Sender, r: Reader, es: seq<Event>)
    requires Agree(snd, r) && Conforms(snd, es)
    ensures Converse(r, Wire(snd, es), 0) == Heard(Delivered(snd, es), 0)
  {
    hide Drain, Converse, Heard, Wire, Delivered, Agree, Conforms;
    var r' := InterleavingIsHarmless(snd, r, es, []);
    assert Wire(snd, es) + [] == Wire(snd, es);
    DrainNothing(r');
    assert Delivered(snd, es) + [] == Delivered(snd, es);
    ConversationIsHeard(r, Wire(snd, es), 0);
  }
}

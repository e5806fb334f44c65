// A reference sender for the RTMP chunk format and the theorem that the reader undoes it.
//
// The sender knows only whole messages with absolute timestamps. It may interleave the chunks of different
// chunk streams in any order, compress headers against the previous message of the same chunk stream, give up a
// message by beginning another one on its chunk stream, and change its chunk size with a Set Chunk Size message at any
// time (sections 5.3.1 and 5.4.1 of the Adobe RTMP specification 1.0). It is written with the specification's numbers
// and takes none from the reader.

module Interleaving {
  import opened Bytes
  import opened Chunks

  /** The last message begun on a chunk stream, the time field of its header, and how much has been sent. */
  datatype Outgoing = Outgoing(msg: Message, field: uint32, sent: nat)

  datatype Sender = Sender(chunkSize: uint32, streams: map<nat, Outgoing>)

  datatype Event =
    | Begin(id: nat, fmt: nat, msg: Message)  // the first chunk of a message
    | Continue(id: nat)                       // one more chunk of the unfinished message, header type 3

  predicate Finished(o: Outgoing) {
    o.sent >= |o.msg.payload|
  }

  /** Which header types may introduce `m` after `last` on the same chunk stream. */
  predicate Compressible(fmt: nat, last: Message, m: Message) {
    || fmt == 0
    || (fmt == 1 && m.streamId == last.streamId)
    || (fmt == 2 && m.streamId == last.streamId && m.msgType == last.msgType && |m.payload| == |last.payload|)
  }

  /** Section 5.4.1: a message of type 1 sets the chunk size to the low 31 bits of its payload's first four bytes. */
  function Resizes(m: Message): (n: Option<uint32>) {
    if m.msgType == 1 && |m.payload| >= 4 then Some(BigEndian(m.payload[..4]) % 0x8000_0000) else None
  }

  /** Every other message is handed on. */
  function HandedOn(m: Message): seq<Message> {
    if Resizes(m).Some? then [] else [m]
  }

  function ResizedBy(m: Message, size: uint32): uint32 {
    if Resizes(m).Some? then Resizes(m).value else size
  }

  predicate Enabled(snd: Sender, e: Event) {
    match e
    case Begin(id, fmt, m) =>
      && 2 <= id <= 65599
      && |m.payload| < 0x100_0000
      && (if id !in snd.streams then fmt == 0
          else Compressible(fmt, snd.streams[id].msg, m))
    case Continue(id) =>
      && 2 <= id <= 65599
      && id in snd.streams && !Finished(snd.streams[id])
  }

  /** The current chunk of an outgoing message. */
  function Body(size: uint32, o: Outgoing): bytes
    requires o.sent <= |o.msg.payload|
  {
    o.msg.payload[o.sent..o.sent + Min(|o.msg.payload| - o.sent, size)]
  }

  /** The absolute time in a type 0 header, the difference modulo 2^32 in types 1 and 2. */
  function TimeField(snd: Sender, e: Event): uint32
    requires e.Begin? && Enabled(snd, e)
  {
    if e.fmt == 0 then e.msg.timestamp
    else (e.msg.timestamp - snd.streams[e.id].msg.timestamp) % 0x1_0000_0000
  }

  function Current(snd: Sender, e: Event): (o: Outgoing)
    requires Enabled(snd, e)
    ensures o.sent <= |o.msg.payload|
  {
    match e
    case Begin(id, fmt, m) => Outgoing(m, TimeField(snd, e), 0)
    case Continue(id) => snd.streams[id]
  }

  function After(snd: Sender, e: Event): Sender
    requires Enabled(snd, e)
  {
    var o := Current(snd, e);
    var o' := o.(sent := o.sent + |Body(snd.chunkSize, o)|);
    Sender(if Finished(o') then ResizedBy(o.msg, snd.chunkSize) else snd.chunkSize, snd.streams[e.id := o'])
  }

  /** The messages the receiver should hand on at this event: one when it carries the last chunk. */
  function Completed(snd: Sender, e: Event): seq<Message>
    requires Enabled(snd, e)
  {
    if Finished(After(snd, e).streams[e.id]) then HandedOn(Current(snd, e).msg) else []
  }

  function BasicBytes(fmt: nat, id: nat): bytes
    requires fmt < 4 && 2 <= id <= 65599
  {
    if id < 64 then [fmt * 64 + id]
    else if id < 320 then [fmt * 64, id - 64]
    else [fmt * 64 + 1, (id - 64) % 256, (id - 64) / 256]
  }

  /** Section 5.3.1.3: an extended timestamp is present in every chunk of the message, type 3 included. */
  function Extension(field: uint32): bytes {
    if field >= 0xFF_FFFF then BE32(field) else []
  }

  function HeaderBytes(fmt: nat, field: uint32, m: Message): bytes {
    BE24(Min(field, 0xFF_FFFF))
    + (if fmt <= 1 then BE24(|m.payload|) + [m.msgType] else [])
    + (if fmt == 0 then LE32(m.streamId) else [])
    + Extension(field)
  }

  function EventBytes(snd: Sender, e: Event): bytes
    requires Enabled(snd, e)
  {
    var o := Current(snd, e);
    match e
    case Begin(id, fmt, m) => BasicBytes(fmt, id) + (HeaderBytes(fmt, o.field, m) + Body(snd.chunkSize, o))
    case Continue(id) => BasicBytes(3, id) + (Extension(o.field) + Body(snd.chunkSize, o))
  }

  /** The one form this reader does not implement: a message with an extended timestamp cut into several chunks. */
  predicate Supported(snd: Sender, e: Event)
    requires Enabled(snd, e)
  {
    e.Continue? ==> snd.streams[e.id].field < 0xFF_FFFF
  }

  // ---------------------------------------------------------------- sender and reader in step

  ghost predicate Tracks(o: Outgoing, cs: ChunkStream) {
    && o.sent <= |o.msg.payload| < 0x100_0000
    && cs.timestamp == o.msg.timestamp
    && cs.length == |o.msg.payload|
    && cs.msgType == o.msg.msgType
    && cs.streamId == o.msg.streamId
    && cs.partialPayload == (if Finished(o) then [] else o.msg.payload[..o.sent])
    && cs.received == |cs.partialPayload|
  }

  ghost predicate Agree(snd: Sender, r: Reader) {
    && r.chunkSize == snd.chunkSize
    && forall id :: id in snd.streams ==> id in r.streams && Tracks(snd.streams[id], r.streams[id])
  }

  /** The reader means the same by a Set Chunk Size message. */
  lemma ResizesAlike(m: Message, size: uint32)
    ensures Visible(m) == HandedOn(m) && SizeAfter(m, size) == ResizedBy(m, size)
    ensures SetsChunkSize(m) <==> Resizes(m).Some?
  {
    if |m.payload| >= 4 {
      ReadsBigEndian(m.payload[..4]);
    }
  }

  lemma BasicRoundTrip(fmt: nat, id: nat, t: bytes)
    requires fmt < 4 && 2 <= id <= 65599
    ensures ParseBasic(BasicBytes(fmt, id) + t) == Some(Basic(fmt, id, t))
  {
    var b := BasicBytes(fmt, id);
    assert (b + t)[|b|..] == t;
  }

  lemma ExtensionRoundTrip(field: uint32, t: bytes)
    ensures ParseExtension(Min(field, 0xFF_FFFF), Extension(field) + t) == Some(Timed(field, t))
  {
    if field >= 0xFF_FFFF {
      BE32RoundTrip(field);
      assert (BE32(field) + t)[..4] == BE32(field);
      assert (BE32(field) + t)[4..] == t;
    } else {
      assert Extension(field) + t == t;
    }
  }

  /** What the header tells the reader, given the state its chunk stream is in. */
  function Announced(fmt: nat, cs: ChunkStream, field: uint32, m: Message): ChunkStream
    requires |m.payload| < 0x100_0000
  {
    if fmt == 0 then
      Restart(cs.(timestamp := field, delta := 0, length := |m.payload|, msgType := m.msgType, streamId := m.streamId))
    else if fmt == 1 then
      Restart(cs.(timestamp := (cs.timestamp + field) % 0x1_0000_0000, delta := field,
                  length := |m.payload|, msgType := m.msgType))
    else
      Restart(cs.(timestamp := (cs.timestamp + field) % 0x1_0000_0000, delta := field))
  }

  lemma FullHeaderFields(cs: ChunkStream, time: bytes, len: bytes, msgType: byte, id: bytes, u: bytes)
    requires |time| == |len| == 3 && |id| == 4
    ensures ParseHeader(0, cs, time + (len + [msgType]) + id + u) ==
            match ParseExtension(FromBE24(time), u)
            case None => None
            case Some(x) => Some(Headed(Restart(cs.(timestamp := x.time, delta := 0, length := FromBE24(len),
                                                    msgType := msgType, streamId := FromLE32(id))), x.rest))
  {
    var s := time + (len + [msgType]) + id + u;
    assert s[..3] == time;
    assert s[3..6] == len;
    assert s[7..11] == id;
    assert s[11..] == u;
  }

  lemma LengthHeaderFields(cs: ChunkStream, time: bytes, len: bytes, msgType: byte, u: bytes)
    requires |time| == |len| == 3
    ensures ParseHeader(1, cs, time + (len + [msgType]) + u) ==
            match ParseExtension(FromBE24(time), u)
            case None => None
            case Some(x) =>
              Some(Headed(Restart(cs.(timestamp := (cs.timestamp + x.time) % 0x1_0000_0000, delta := x.time,
                                      length := FromBE24(len), msgType := msgType)), x.rest))
  {
    var s := time + (len + [msgType]) + u;
    assert s[..3] == time;
    assert s[3..6] == len;
    assert s[7..] == u;
  }

  lemma TimeHeaderFields(cs: ChunkStream, time: bytes, u: bytes)
    requires |time| == 3
    ensures ParseHeader(2, cs, time + u) ==
            match ParseExtension(FromBE24(time), u)
            case None => None
            case Some(x) =>
              Some(Headed(Restart(cs.(timestamp := (cs.timestamp + x.time) % 0x1_0000_0000, delta := x.time)), x.rest))
  {
    var s := time + u;
    assert s[..3] == time;
    assert s[3..] == u;
  }

  lemma HeaderFields(fmt: nat, cs: ChunkStream, field: uint32, m: Message, time: bytes, len: bytes, id: bytes,
                     ext: bytes, t: bytes)
    requires fmt < 3 && |m.payload| < 0x100_0000
    requires |time| == |len| == 3 && |id| == 4
    requires FromBE24(time) == Min(field, 0xFF_FFFF) && FromBE24(len) == |m.payload| && FromLE32(id) == m.streamId
    requires ParseExtension(FromBE24(time), ext + t) == Some(Timed(field, t))
    ensures ParseHeader(fmt, cs, time + (if fmt <= 1 then len + [m.msgType] else [])
                                 + (if fmt == 0 then id else []) + ext + t)
         == Some(Headed(Announced(fmt, cs, field, m), t))
  {
    hide FromBE24, FromLE32, ParseHeader, ParseExtension;
    if fmt == 0 {
      assert time + (len + [m.msgType]) + id + ext + t == time + (len + [m.msgType]) + id + (ext + t);
      FullHeaderFields(cs, time, len, m.msgType, id, ext + t);
    } else if fmt == 1 {
      assert time + (len + [m.msgType]) + [] + ext + t == time + (len + [m.msgType]) + (ext + t);
      LengthHeaderFields(cs, time, len, m.msgType, ext + t);
    } else {
      assert time + [] + [] + ext + t == time + (ext + t);
      TimeHeaderFields(cs, time, ext + t);
    }
  }

  lemma HeaderRoundTrip(fmt: nat, cs: ChunkStream, field: uint32, m: Message, t: bytes)
    requires fmt < 3 && |m.payload| < 0x100_0000
    ensures ParseHeader(fmt, cs, HeaderBytes(fmt, field, m) + t) == Some(Headed(Announced(fmt, cs, field, m), t))
  {
    hide BE24, FromBE24, LE32, FromLE32, BE32, FromBE32, ParseHeader;
    BE24RoundTrip(Min(field, 0xFF_FFFF));
    BE24RoundTrip(|m.payload|);
    LE32RoundTrip(m.streamId);
    ExtensionRoundTrip(field, t);
    HeaderFields(fmt, cs, field, m, BE24(Min(field, 0xFF_FFFF)), BE24(|m.payload|), LE32(m.streamId),
                 Extension(field), t);
  }

  /** A chunk stream whose header is known and which holds the first `o.sent` payload bytes. */
  ghost predicate Holds(o: Outgoing, cs: ChunkStream) {
    && o.sent <= |o.msg.payload| < 0x100_0000
    && cs.timestamp == o.msg.timestamp
    && cs.length == |o.msg.payload|
    && cs.msgType == o.msg.msgType
    && cs.streamId == o.msg.streamId
    && cs.partialPayload == o.msg.payload[..o.sent]
    && cs.received == o.sent
  }

  lemma HeaderHolds(snd: Sender, r: Reader, e: Event)
    requires Agree(snd, r) && Enabled(snd, e) && e.Begin?
    ensures Holds(Current(snd, e), Announced(e.fmt, r.Stream(e.id), TimeField(snd, e), e.msg))
  {
    if e.fmt != 0 {
      assert Tracks(snd.streams[e.id], r.streams[e.id]);
    }
  }

  lemma AppendHolds(o: Outgoing, size: uint32, cs: ChunkStream)
    requires Holds(o, cs)
    ensures ToRead(size, cs) == |Body(size, o)|
    ensures Holds(o.(sent := o.sent + |Body(size, o)|), Append(cs, Body(size, o)))
  {
    assert o.msg.payload[..o.sent] + Body(size, o) == o.msg.payload[..o.sent + |Body(size, o)|];
  }

  /** Depositing the sender's chunk keeps the two in step and returns the message exactly at its last chunk. */
  lemma DepositAgrees(snd: Sender, r: Reader, e: Event, cs: ChunkStream)
    requires Agree(snd, r) && Enabled(snd, e) && Holds(Current(snd, e), cs)
    ensures var (r', out) := Deposit(r, e.id, cs, Body(snd.chunkSize, Current(snd, e)));
            Agree(After(snd, e), r') && out == Completed(snd, e)
  {
    var o := Current(snd, e);
    ResizesAlike(o.msg, r.chunkSize);
    AppendHolds(o, snd.chunkSize, cs);
    var o' := After(snd, e).streams[e.id];
    var cs' := Append(cs, Body(snd.chunkSize, o));
    assert Holds(o', cs');
    if Finished(o') {
      assert o'.sent == |o.msg.payload| && o.msg.payload[..o'.sent] == o.msg.payload;
      assert Assembled(cs') == o.msg;
      assert Tracks(o', Restart(cs'));
    } else {
      assert Tracks(o', cs');
    }
  }

  /**
   One chunk: whatever follows it, the reader consumes exactly the sender's bytes, stays in step with the sender
   and returns what the sender completed.
   */
  lemma EventStep(snd: Sender, r: Reader, e: Event, t: bytes)
    requires Agree(snd, r) && Enabled(snd, e) && Supported(snd, e)
    ensures var o := Step(r, EventBytes(snd, e) + t);
            && o.Some? && o.value.rest == t
            && o.value.out == Completed(snd, e)
            && Agree(After(snd, e), o.value.reader)
  {
    var o := Current(snd, e);
    var body := Body(snd.chunkSize, o);
    var cs := HeadOf(snd, r, e, t);
    AppendHolds(o, snd.chunkSize, cs);
    DepositAgrees(snd, r, e, cs);
    assert (body + t)[..|body|] == body && (body + t)[|body|..] == t;
  }

  /** The headers of a supported chunk, parsed: the reader is left with the chunk's payload bytes in front. */
  lemma HeadOf(snd: Sender, r: Reader, e: Event, t: bytes) returns (cs: ChunkStream)
    requires Agree(snd, r) && Enabled(snd, e) && Supported(snd, e)
    ensures Holds(Current(snd, e), cs)
    ensures var o := ParseBasic(EventBytes(snd, e) + t);
            && o.Some? && o.value.csId == e.id
            && ParseHeader(o.value.fmt, r.Stream(e.id), o.value.rest)
            == Some(Headed(cs, Body(snd.chunkSize, Current(snd, e)) + t))
  {
    var o := Current(snd, e);
    var body := Body(snd.chunkSize, o);
    cs := r.Stream(e.id);
    match e {
      case Begin(id, fmt, m) =>
        var head := HeaderBytes(fmt, o.field, m);
        assert EventBytes(snd, e) + t == BasicBytes(fmt, id) + (head + (body + t));
        BasicRoundTrip(fmt, id, head + (body + t));
        HeaderRoundTrip(fmt, cs, o.field, m, body + t);
        HeaderHolds(snd, r, e);
        cs := Announced(fmt, cs, o.field, m);
      case Continue(id) =>
        assert EventBytes(snd, e) + t == BasicBytes(3, id) + (body + t);
        BasicRoundTrip(3, id, body + t);
        assert Tracks(o, cs);
    }
  }

  /** Before its last byte has arrived a chunk yields nothing at all. */
  lemma PartOfChunkWaits(snd: Sender, r: Reader, e: Event, part: bytes, t: bytes)
    requires Agree(snd, r) && Enabled(snd, e) && Supported(snd, e)
    requires part + t == EventBytes(snd, e) && t != []
    ensures Step(r, part) == None && Receive(r, part) == None
  {
    hide Step, EventBytes;
    assert part + t + [] == part + t;
    EventStep(snd, r, e, []);
    if Step(r, part).Some? {
      StepIsStable(r, part, t);
      assert false;
    }
  }

  /** The unsupported form leaves the reader four bytes behind the sender, whatever the bytes are. */
  lemma ExtendedContinuationDesynchronises(snd: Sender, r: Reader, e: Event, t: bytes)
    requires Agree(snd, r) && Enabled(snd, e) && !Supported(snd, e)
    ensures var o := Step(r, EventBytes(snd, e) + t);
            o.Some? && |o.value.rest| == |t| + 4
  {
    var o := Current(snd, e);
    var body := Body(snd.chunkSize, o);
    assert Tracks(o, r.Stream(e.id));
    var s := Extension(o.field) + body + t;
    assert EventBytes(snd, e) + t == BasicBytes(3, e.id) + s;
    BasicRoundTrip(3, e.id, s);
    assert ToRead(r.chunkSize, r.Stream(e.id)) == |body|;
  }

  /** The chunk and the sender stay together exactly for the supported events. */
  lemma InStepExactlyWhenSupported(snd: Sender, r: Reader, e: Event, t: bytes)
    requires Agree(snd, r) && Enabled(snd, e)
    ensures var o := Step(r, EventBytes(snd, e) + t); (o.Some? && o.value.rest == t) <==> Supported(snd, e)
  {
    if Supported(snd, e) {
      EventStep(snd, r, e, t);
    } else {
      ExtendedContinuationDesynchronises(snd, r, e, t);
    }
  }

  // ---------------------------------------------------------------- type 3 chunks that begin a message

  /**
   Section 5.3.1.2.4: a type 3 chunk may begin a message like the previous one of its chunk stream. The time field of
   the previous header then counts as the difference, also when it was the absolute time of a type 0 header.
   */
  function Repeated(last: Outgoing, payload: bytes): Message {
    last.msg.(timestamp := (last.msg.timestamp + last.field) % 0x1_0000_0000, payload := payload)
  }

  /** The message the reader makes of it instead: it leaves the time alone. */
  function Undated(last: Outgoing, payload: bytes): Message {
    last.msg.(payload := payload)
  }

  predicate Repeatable(snd: Sender, id: nat, payload: bytes) {
    && 2 <= id <= 65599
    && id in snd.streams && Finished(snd.streams[id]) && |payload| == |snd.streams[id].msg.payload|
  }

  /** The first chunk of the repeated kind of message, and the sender after it if it takes `m` to be under way. */
  function RepeatBytes(snd: Sender, id: nat, payload: bytes): bytes
    requires Repeatable(snd, id, payload)
  {
    var last := snd.streams[id];
    BasicBytes(3, id) + (Extension(last.field) + Body(snd.chunkSize, Outgoing(Repeated(last, payload), last.field, 0)))
  }

  function AfterRepeat(snd: Sender, id: nat, m: Message): Sender
    requires id in snd.streams
  {
    var o := Outgoing(m, snd.streams[id].field, Min(|m.payload|, snd.chunkSize));
    Sender(if Finished(o) then ResizedBy(m, snd.chunkSize) else snd.chunkSize, snd.streams[id := o])
  }

  /** The reader takes the chunk for the beginning of the undated message and goes on from there, in step. */
  lemma RepeatStep(snd: Sender, r: Reader, id: nat, payload: bytes, t: bytes)
    requires Agree(snd, r) && Repeatable(snd, id, payload) && snd.streams[id].field < 0xFF_FFFF
    ensures var o := Step(r, RepeatBytes(snd, id, payload) + t);
            var m := Undated(snd.streams[id], payload);
            && o.Some? && o.value.rest == t
            && Agree(AfterRepeat(snd, id, m), o.value.reader)
            && o.value.out == if |payload| <= snd.chunkSize then HandedOn(m) else []
  {
    var last := snd.streams[id];
    var m := Undated(last, payload);
    var o := Outgoing(m, last.field, 0);
    var cs := r.streams[id];
    assert Tracks(last, cs);
    assert m.payload[..0] == [];
    AppendHolds(o, snd.chunkSize, cs);
    var body := Body(snd.chunkSize, o);
    RepeatHead(snd, id, payload, t);
    assert (body + t)[..|body|] == body && (body + t)[|body|..] == t;
    RepeatDeposit(snd, r, id, o, cs);
  }

  lemma RepeatHead(snd: Sender, id: nat, payload: bytes, t: bytes)
    requires Repeatable(snd, id, payload) && snd.streams[id].field < 0xFF_FFFF
    ensures var body := Body(snd.chunkSize, Outgoing(Undated(snd.streams[id], payload), snd.streams[id].field, 0));
            ParseBasic(RepeatBytes(snd, id, payload) + t) == Some(Basic(3, id, body + t))
  {
    var last := snd.streams[id];
    var body := Body(snd.chunkSize, Outgoing(Undated(last, payload), last.field, 0));
    assert RepeatBytes(snd, id, payload) + t == BasicBytes(3, id) + (body + t);
    BasicRoundTrip(3, id, body + t);
  }

  lemma RepeatDeposit(snd: Sender, r: Reader, id: nat, o: Outgoing, cs: ChunkStream)
    requires Agree(snd, r) && id in snd.streams && Holds(o, cs) && o.sent == 0 && o.field == snd.streams[id].field
    ensures var (r', out) := Deposit(r, id, cs, Body(snd.chunkSize, o));
            && Agree(AfterRepeat(snd, id, o.msg), r')
            && out == if |o.msg.payload| <= snd.chunkSize then HandedOn(o.msg) else []
  {
    ResizesAlike(o.msg, r.chunkSize);
    AppendHolds(o, snd.chunkSize, cs);
    var o' := o.(sent := Min(|o.msg.payload|, snd.chunkSize));
    var cs' := Append(cs, Body(snd.chunkSize, o));
    assert Holds(o', cs');
    if Finished(o') {
      assert o.msg.payload[..o'.sent] == o.msg.payload;
      assert Assembled(cs') == o.msg;
      assert Tracks(o', Restart(cs'));
    } else {
      assert Tracks(o', cs');
    }
  }

  /**
   A type 3 chunk that begins a message is dated as the specification wants, and leaves the reader in step, exactly
   when the previous header's time field was zero. For a one-chunk message that is what is handed on; an absorbed
   Set Chunk Size message has no date to get wrong.
   */
  lemma RepeatedHeaderDatesRightExactly(snd: Sender, r: Reader, id: nat, payload: bytes, t: bytes)
    requires Agree(snd, r) && Repeatable(snd, id, payload)
    ensures var o := Step(r, RepeatBytes(snd, id, payload) + t);
            var last := snd.streams[id];
            var m := Repeated(last, payload);
            && o.Some? && (o.value.rest == t <==> last.field < 0xFF_FFFF)
            && (o.value.rest == t && o.value.reader.Stream(id).timestamp == m.timestamp <==> last.field == 0)
            && (|payload| <= snd.chunkSize ==>
                  (o.value.rest == t && o.value.out == HandedOn(m)
                   <==> last.field == 0 || (Resizes(m).Some? && last.field < 0xFF_FFFF)))
  {
    hide Step, RepeatBytes, Agree, Resizes, ResizedBy, HandedOn, Repeated, Undated;
    var last := snd.streams[id];
    if last.field < 0xFF_FFFF {
      RepeatStep(snd, r, id, payload, t);
      SameDate(last, payload);
      var r' := Step(r, RepeatBytes(snd, id, payload) + t).value.reader;
      AgreeOnDate(AfterRepeat(snd, id, Undated(last, payload)), r', id);
    } else {
      RepeatDesynchronises(snd, r, id, payload, t);
    }
  }

  lemma AgreeOnDate(snd: Sender, r: Reader, id: nat)
    requires Agree(snd, r) && id in snd.streams
    ensures r.Stream(id).timestamp == snd.streams[id].msg.timestamp
  {
    assert Tracks(snd.streams[id], r.streams[id]);
  }

  lemma SameDate(last: Outgoing, payload: bytes)
    ensures var m, n := Repeated(last, payload), Undated(last, payload);
            && n.timestamp == last.msg.timestamp
            && (n.timestamp == m.timestamp <==> last.field == 0)
            && (HandedOn(n) == HandedOn(m) <==> last.field == 0 || Resizes(m).Some?)
  {
  }

  lemma RepeatDesynchronises(snd: Sender, r: Reader, id: nat, payload: bytes, t: bytes)
    requires Agree(snd, r) && Repeatable(snd, id, payload) && snd.streams[id].field >= 0xFF_FFFF
    ensures var o := Step(r, RepeatBytes(snd, id, payload) + t);
            o.Some? && |o.value.rest| == |t| + 4
  {
    var last := snd.streams[id];
    var body := Body(snd.chunkSize, Outgoing(Repeated(last, payload), last.field, 0));
    assert Tracks(last, r.streams[id]);
    var s := Extension(last.field) + body + t;
    assert RepeatBytes(snd, id, payload) + t == BasicBytes(3, id) + s;
    BasicRoundTrip(3, id, s);
    assert ToRead(r.chunkSize, r.Stream(id)) == |body|;
  }

  // ---------------------------------------------------------------- whole runs

  predicate Conforms(snd: Sender, es: seq<Event>)
    decreases |es|
  {
    es == [] || (Enabled(snd, es[0]) && Supported(snd, es[0]) && Conforms(After(snd, es[0]), es[1..]))
  }

  function Wire(snd: Sender, es: seq<Event>): bytes
    requires Conforms(snd, es)
    decreases |es|
  {
    if es == [] then [] else EventBytes(snd, es[0]) + Wire(After(snd, es[0]), es[1..])
  }

  /** The messages of a run in the order of their last chunks, without the absorbed Set Chunk Size messages. */
  function Delivered(snd: Sender, es: seq<Event>): seq<Message>
    requires Conforms(snd, es)
    decreases |es|
  {
    if es == [] then [] else Completed(snd, es[0]) + Delivered(After(snd, es[0]), es[1..])
  }

  function AfterAll(snd: Sender, es: seq<Event>): Sender
    requires Conforms(snd, es)
    decreases |es|
  {
    if es == [] then snd else AfterAll(After(snd, es[0]), es[1..])
  }

  /**
   Interleaving is harmless: over any run of the sender, the reader returns every message intact, with its absolute
   timestamp, in the order of the last chunks, and then goes on with whatever follows, still in step.
   */
  lemma {:induction false} InterleavingIsHarmless(snd: Sender, r: Reader, es: seq<Event>, t: bytes) returns (r': Reader)
    requires Agree(snd, r) && Conforms(snd, es)
    ensures Drain(r, Wire(snd, es) + t) == Prepend(Delivered(snd, es), Drain(r', t))
    ensures Agree(AfterAll(snd, es), r')
    decreases |es|
  {
    if es == [] {
      r' := r;
      assert Wire(snd, es) + t == t;
    } else {
      hide EventBytes, Completed, After, Agree, Supported, Enabled, Step;
      var snd', es' := After(snd, es[0]), es[1..];
      WireCons(snd, es, t);
      EventStep(snd, r, es[0], Wire(snd', es') + t);
      var n := Step(r, Wire(snd, es) + t).value;
      r' := InterleavingIsHarmless(snd', n.reader, es', t);
      PrependJoins(Completed(snd, es[0]), Delivered(snd', es'), Drain(r', t));
    }
  }

  lemma WireCons(snd: Sender, es: seq<Event>, t: bytes)
    requires es != [] && Conforms(snd, es)
    ensures Wire(snd, es) + t == EventBytes(snd, es[0]) + (Wire(After(snd, es[0]), es[1..]) + t)
  {
    var a, b := EventBytes(snd, es[0]), Wire(After(snd, es[0]), es[1..]);
    assert a + b + t == a + (b + t);
  }

  // ---------------------------------------------------------------- changing the chunk size

  /**
   A sender that names its new chunk size, any below 2^31: the reader absorbs the message and cuts what follows, as the
   sender does, at that size.
   */
  lemma SetChunkSizeIsObeyed(snd: Sender, r: Reader, id: nat, n: nat, t: bytes)
    requires Agree(snd, r) && 2 <= id <= 65599 && n < 0x8000_0000 && snd.chunkSize >= 4
    ensures var e := Begin(id, 0, Message(1, 0, 0, BE32(n)));
            && Conforms(snd, [e]) && After(snd, e).chunkSize == n
            && var o := Step(r, EventBytes(snd, e) + t);
               && o.Some? && o.value.out == [] && o.value.rest == t
               && o.value.reader.chunkSize == n && Agree(After(snd, e), o.value.reader)
  {
    hide BE32, EventBytes, Step, Agree, Enabled, Supported, After, Completed;
    var e := Begin(id, 0, Message(1, 0, 0, BE32(n)));
    ResizeEvent(snd, id, n);
    EventStep(snd, r, e, t);
    AgreeOnSize(After(snd, e), Step(r, EventBytes(snd, e) + t).value.reader);
  }

  lemma ResizeEvent(snd: Sender, id: nat, n: nat)
    requires 2 <= id <= 65599 && n < 0x8000_0000 && snd.chunkSize >= 4
    ensures var e := Begin(id, 0, Message(1, 0, 0, BE32(n)));
            Conforms(snd, [e]) && Completed(snd, e) == [] && After(snd, e).chunkSize == n
  {
    hide BE32, Resizes;
    NamesSize(n);
  }

  lemma NamesSize(n: nat)
    requires n < 0x8000_0000
    ensures |BE32(n)| == 4 && Resizes(Message(1, 0, 0, BE32(n))) == Some(n)
  {
    hide BE32, BigEndian, Resizes;
    WritesInOrder(n);
    SizeIn(BE32(n), n);
  }

  lemma SizeIn(payload: bytes, n: nat)
    requires |payload| == 4 && BigEndian(payload) == n < 0x8000_0000
    ensures Resizes(Message(1, 0, 0, payload)) == Some(n)
  {
    hide BigEndian;
    assert payload[..4] == payload;
  }

  lemma AgreeOnSize(snd: Sender, r: Reader)
    requires Agree(snd, r)
    ensures r.chunkSize == snd.chunkSize
  {
  }

  /** For instance, byte by byte: after Set Chunk Size any message of up to `n` bytes comes back from a single chunk. */
  lemma ResizedMessageIsWhole(n: nat, m: Message, t: bytes)
    requires n < 0x8000_0000 && |m.payload| <= n && |m.payload| < 0x100_0000 && Resizes(m).None?
    requires m.timestamp < 0xFF_FFFF
    ensures var first: bytes := [2, 0, 0, 0, 0, 0, 4, 1, 0, 0, 0, 0] + BE32(n);
            var o := Receive(NEW_READER, first + (WholeBytes(m) + t));
            o.Some? && o.value.msg == m && o.value.rest == t
  {
    hide Step, BE32, BE24, LE32, EventBytes, Agree, After, Resizes, Conforms;
    var resize, e := Begin(2, 0, Message(1, 0, 0, BE32(n))), Begin(4, 0, m);
    var first: bytes := [2, 0, 0, 0, 0, 0, 4, 1, 0, 0, 0, 0] + BE32(n);
    NewPairAgrees();
    ResizeBytes(n);
    SetChunkSizeIsObeyed(NEW_SENDER, NEW_READER, 2, n, WholeBytes(m) + t);
    var snd := After(NEW_SENDER, resize);
    var r := Step(NEW_READER, first + (WholeBytes(m) + t)).value.reader;
    WholeEvent(snd, m);
    EventStep(snd, r, e, t);
    assert Completed(snd, e) == [m];
  }

  lemma NewPairAgrees()
    ensures Agree(NEW_SENDER, NEW_READER)
  {
  }

  lemma ResizeBytes(n: nat)
    ensures EventBytes(NEW_SENDER, Begin(2, 0, Message(1, 0, 0, BE32(n))))
         == [2, 0, 0, 0, 0, 0, 4, 1, 0, 0, 0, 0] + BE32(n)
  {
    hide BE32;
    assert BE32(n)[0..4] == BE32(n);
  }

  /** A message in one chunk of chunk stream 4. */
  function WholeBytes(m: Message): bytes {
    [4] + BE24(m.timestamp) + BE24(|m.payload|) + [m.msgType] + LE32(m.streamId) + m.payload
  }

  lemma WholeEvent(snd: Sender, m: Message)
    requires |m.payload| <= snd.chunkSize && |m.payload| < 0x100_0000 && m.timestamp < 0xFF_FFFF
    ensures var e := Begin(4, 0, m);
            && Enabled(snd, e) && Supported(snd, e) && EventBytes(snd, e) == WholeBytes(m)
            && Completed(snd, e) == HandedOn(m)
  {
    hide BE24, LE32, HandedOn;
    assert m.payload[0..|m.payload|] == m.payload;
    assert [4] + (BE24(m.timestamp) + (BE24(|m.payload|) + [m.msgType]) + LE32(m.streamId) + [] + m.payload)
        == WholeBytes(m);
  }

  // ---------------------------------------------------------------- forms the sender does not use

  /** Chunk stream ids from 64 on may also be written in three bytes, the low one first. */
  lemma ThreeByteIds(fmt: nat, low: byte, high: byte, t: bytes)
    requires fmt < 4
    ensures ParseBasic([fmt * 64 + 1, low, high] + t) == Some(Basic(fmt, low as int + 256 * high as int + 64, t))
  {
    var b: bytes := [fmt * 64 + 1, low, high];
    assert (b + t)[3..] == t;
  }

  lemma WholeChunk(r: Reader, s: bytes, fmt: nat, id: nat, u: bytes, cs: ChunkStream, body: bytes, t: bytes)
    requires ParseBasic(s) == Some(Basic(fmt, id, u))
    requires ParseHeader(fmt, r.Stream(id), u) == Some(Headed(cs, body + t))
    requires cs.received == 0 && cs.partialPayload == [] && |body| == cs.length <= r.chunkSize && cs.msgType != 1
    ensures Step(r, s).Some? && Step(r, s).value.rest == t
    ensures Step(r, s).value.out == [Message(cs.msgType, cs.streamId, cs.timestamp, body)]
  {
    hide ParseBasic, ParseHeader;
    assert (body + t)[..|body|] == body && (body + t)[|body|..] == t && [] + body == body;
  }

  /** On a chunk stream not seen before, what a header leaves out is zero. */
  lemma UnseenStreamsAreZero(r: Reader, id: nat, time: nat, msgType: byte, payload: bytes, t: bytes)
    requires 2 <= id < 64 && id !in r.streams && time < 0xFF_FFFF && |payload| <= r.chunkSize && |payload| < 0x100_0000
    requires msgType != 1
    ensures var s := [64 + id] + (BE24(time) + (BE24(|payload|) + [msgType]) + (payload + t));
            && Step(r, s).Some? && Step(r, s).value.rest == t
            && Step(r, s).value.out == [Message(msgType, 0, time, payload)]
    ensures var s := [128 + id] + (BE24(time) + t);
            Step(r, s).Some? && Step(r, s).value.out == [Message(0, 0, time, [])] && Step(r, s).value.rest == t
    ensures var s: bytes := [192 + id] + t;
            Step(r, s).Some? && Step(r, s).value.out == [Message(0, 0, 0, [])] && Step(r, s).value.rest == t
  {
    hide BE24, FromBE24, ParseHeader, ParseBasic, Step;
    var zero := ChunkStream(0, 0, 0, 0, 0, [], 0);
    assert r.Stream(id) == zero;
    BE24RoundTrip(time);
    BE24RoundTrip(|payload|);
    var u := BE24(time) + (BE24(|payload|) + [msgType]) + (payload + t);
    LengthHeaderFields(zero, BE24(time), BE24(|payload|), msgType, payload + t);
    TimeHeaderFields(zero, BE24(time), t);
    NoHeaderFields(zero, t);
    BasicRoundTrip(1, id, u);
    BasicRoundTrip(2, id, BE24(time) + t);
    BasicRoundTrip(3, id, t);
    assert [] + t == t;
    WholeChunk(r, [64 + id] + u, 1, id, u, ChunkStream(time, time, |payload|, msgType, 0, [], 0), payload, t);
    WholeChunk(r, [128 + id] + (BE24(time) + t), 2, id, BE24(time) + t, ChunkStream(time, time, 0, 0, 0, [], 0), [], t);
    WholeChunk(r, [192 + id] + t, 3, id, t, zero, [], t);
  }

  lemma NoHeaderFields(cs: ChunkStream, u: bytes)
    ensures ParseHeader(3, cs, u) == Some(Headed(cs, u))
  {
  }

  // ---------------------------------------------------------------- the unsupported forms, reached

  /** A sender that has sent nothing. */
  const NEW_SENDER := Sender(128, map[])

  /** Two hundred bytes at a time above 24 bits: after its second chunk a fresh reader is four bytes behind. */
  lemma ExtendedTimeIsReached(payload: bytes, t: bytes)
    requires |payload| == 200
    ensures var m := Message(9, 1, 0x100_0000, payload);
            var first, second := Begin(4, 0, m), Continue(4);
            && Conforms(NEW_SENDER, [first]) && Enabled(After(NEW_SENDER, first), second)
            && var more := EventBytes(After(NEW_SENDER, first), second) + t;
               var o := Step(NEW_READER, EventBytes(NEW_SENDER, first) + more);
               && o.Some? && o.value.rest == more
               && Step(o.value.reader, more).Some? && |Step(o.value.reader, more).value.rest| == |t| + 4
  {
    hide BE24, BE32, LE32, Step;
    var m := Message(9, 1, 0x100_0000, payload);
    var first, second := Begin(4, 0, m), Continue(4);
    var snd := After(NEW_SENDER, first);
    var more := EventBytes(snd, second) + t;
    EventStep(NEW_SENDER, NEW_READER, first, more);
    var r := Step(NEW_READER, EventBytes(NEW_SENDER, first) + more).value.reader;
    ExtendedContinuationDesynchronises(snd, r, second, t);
  }

  /** A type 3 chunk after a type 0 header at time 1000: the specification dates it 2000, the reader 1000. */
  lemma RepeatedTimeIsReached(x: byte, y: byte, t: bytes)
    ensures var m := Message(9, 1, 1000, [x]);
            var first := Begin(4, 0, m);
            && Conforms(NEW_SENDER, [first]) && Repeatable(After(NEW_SENDER, first), 4, [y])
            && Repeated(After(NEW_SENDER, first).streams[4], [y]).timestamp == 2000
            && var more := RepeatBytes(After(NEW_SENDER, first), 4, [y]) + t;
               var o := Step(NEW_READER, EventBytes(NEW_SENDER, first) + more);
               && o.Some? && o.value.out == [m] && o.value.rest == more
               && Step(o.value.reader, more).Some? && Step(o.value.reader, more).value.rest == t
               && Step(o.value.reader, more).value.out == [Message(9, 1, 1000, [y])]
  {
    hide BE24, BE32, LE32, Step;
    var m := Message(9, 1, 1000, [x]);
    var first := Begin(4, 0, m);
    var snd := After(NEW_SENDER, first);
    var more := RepeatBytes(snd, 4, [y]) + t;
    EventStep(NEW_SENDER, NEW_READER, first, more);
    RepeatStep(snd, Step(NEW_READER, EventBytes(NEW_SENDER, first) + more).value.reader, 4, [y], t);
  }
}

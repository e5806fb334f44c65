// The RTMP chunk layer as functions: what one chunk does to the reader's state, what a reader makes
// of a byte stream, and what a message looks like once it is cut into chunks.

module Chunks {
  import opened Bytes

  const SET_CHUNK_SIZE: byte := 1
  const WORD := 0x1_0000_0000
  const EXTENDED := 0xFF_FFFF
  const DEFAULT_IN_CHUNK_SIZE: uint32 := 128
  const OUT_CHUNK_SIZE: uint32 := 4096

  datatype Message = Message(msgType: byte, streamId: uint32, timestamp: uint32, payload: bytes)

  /** A message that the reader absorbs instead of returning it. */
  predicate SetsChunkSize(m: Message) {
    m.msgType == SET_CHUNK_SIZE && |m.payload| >= 4
  }

  function NewChunkSize(m: Message): uint32
    requires SetsChunkSize(m)
  {
    FromBE32(m.payload[..4]) % 0x8000_0000
  }

  function Visible(m: Message): seq<Message> {
    if SetsChunkSize(m) then [] else [m]
  }

  function VisibleAll(ms: seq<Message>): seq<Message> {
    if ms == [] then [] else Visible(ms[0]) + VisibleAll(ms[1..])
  }

  function SizeAfter(m: Message, size: uint32): uint32 {
    if SetsChunkSize(m) then NewChunkSize(m) else size
  }

  function Min(a: nat, b: nat): nat {
    if a < b then a else b
  }

  // ---------------------------------------------------------------- reading

  /** The decompression state of one chunk stream. */
  datatype ChunkStream = ChunkStream(
    timestamp: uint32, delta: uint32, length: uint32, msgType: byte, streamId: uint32,
    partialPayload: bytes, received: uint32)

  const FRESH := ChunkStream(0, 0, 0, 0, 0, [], 0)

  datatype Reader = Reader(chunkSize: uint32, streams: map<nat, ChunkStream>) {
    /** Indexing the source's map creates a zeroed entry when there is none. */
    function Stream(id: nat): ChunkStream {
      if id in streams then streams[id] else FRESH
    }
  }

  const NEW_READER := Reader(DEFAULT_IN_CHUNK_SIZE, map[])

  datatype Basic = Basic(fmt: nat, csId: nat, rest: bytes)

  /** One, two or three bytes; the three-byte form has its low byte first. None: not enough bytes. */
  function ParseBasic(s: bytes): (o: Option<Basic>)
    ensures o.Some? ==> |o.value.rest| < |s| && o.value.fmt < 4
  {
    if |s| < 1 then None
    else if s[0] % 64 == 0 then
      if |s| < 2 then None else Some(Basic(s[0] / 64, s[1] as int + 64, s[2..]))
    else if s[0] % 64 == 1 then
      if |s| < 3 then None else
      var low: int, high: int := s[1], s[2];
      Some(Basic(s[0] / 64, high * 256 + low + 64, s[3..]))
    else Some(Basic(s[0] / 64, s[0] % 64, s[1..]))
  }

  datatype Timed = Timed(time: uint32, rest: bytes)

  /** A three-byte time that reads 0xFFFFFF is replaced by four further bytes. */
  function ParseExtension(field: uint32, s: bytes): (o: Option<Timed>)
    ensures o.Some? ==> |o.value.rest| <= |s|
  {
    if field != EXTENDED then Some(Timed(field, s))
    else if |s| < 4 then None
    else Some(Timed(FromBE32(s[..4]), s[4..]))
  }

  datatype Headed = Headed(cs: ChunkStream, rest: bytes)

  function Restart(cs: ChunkStream): ChunkStream {
    cs.(partialPayload := [], received := 0)
  }

  function ParseHeader(fmt: nat, cs: ChunkStream, s: bytes): (o: Option<Headed>)
    ensures o.Some? ==> |o.value.rest| <= |s|
  {
    if fmt == 0 then
      if |s| < 11 then None else
      match ParseExtension(FromBE24(s[..3]), s[11..])
      case None => None
      case Some(t) =>
        Some(Headed(Restart(cs.(timestamp := t.time, delta := 0, length := FromBE24(s[3..6]), msgType := s[6],
                                streamId := FromLE32(s[7..11]))), t.rest))
    else if fmt == 1 then
      if |s| < 7 then None else
      match ParseExtension(FromBE24(s[..3]), s[7..])
      case None => None
      case Some(t) =>
        Some(Headed(Restart(cs.(timestamp := (cs.timestamp + t.time) % WORD, delta := t.time,
                                length := FromBE24(s[3..6]), msgType := s[6])), t.rest))
    else if fmt == 2 then
      if |s| < 3 then None else
      match ParseExtension(FromBE24(s[..3]), s[3..])
      case None => None
      case Some(t) =>
        Some(Headed(Restart(cs.(timestamp := (cs.timestamp + t.time) % WORD, delta := t.time)), t.rest))
    else Some(Headed(cs, s))
  }

  /** The reader's 32-bit unsigned subtraction. */
  function Remaining(cs: ChunkStream): uint32 {
    (cs.length - cs.received) % WORD
  }

  function ToRead(size: uint32, cs: ChunkStream): uint32 {
    Min(Remaining(cs), size)
  }

  function Append(cs: ChunkStream, data: bytes): ChunkStream {
    cs.(partialPayload := cs.partialPayload + data, received := (cs.received + |data|) % WORD)
  }

  function Assembled(cs: ChunkStream): Message {
    Message(cs.msgType, cs.streamId, cs.timestamp, cs.partialPayload)
  }

  datatype Stepped = Stepped(reader: Reader, out: seq<Message>, rest: bytes)

  /** The effect of a chunk on `id` whose header left `cs` and whose payload bytes are `data`. */
  function Deposit(r: Reader, id: nat, cs: ChunkStream, data: bytes): (Reader, seq<Message>) {
    var cs' := Append(cs, data);
    if cs'.received >= cs'.length then
      var m := Assembled(cs');
      (Reader(SizeAfter(m, r.chunkSize), r.streams[id := Restart(cs')]), Visible(m))
    else
      (r.(streams := r.streams[id := cs']), [])
  }

  /** One whole chunk from the front of `s`; None when `s` ends before the chunk does. */
  function Step(r: Reader, s: bytes): (o: Option<Stepped>)
    ensures o.Some? ==> |o.value.rest| < |s|
  {
    match ParseBasic(s)
    case None => None
    case Some(b) =>
      match ParseHeader(b.fmt, r.Stream(b.csId), b.rest)
      case None => None
      case Some(h) =>
        var n := ToRead(r.chunkSize, h.cs);
        if |h.rest| < n then None else
        var (r', out) := Deposit(r, b.csId, h.cs, h.rest[..n]);
        Some(Stepped(r', out, h.rest[n..]))
  }

  /** Reading until the bytes run out inside a chunk: the messages returned and what is left over. */
  function Drain(r: Reader, s: bytes): Stepped
    decreases |s|
  {
    match Step(r, s)
    case None => Stepped(r, [], s)
    case Some(n) => Prepend(n.out, Drain(n.reader, n.rest))
  }

  function Prepend(ms: seq<Message>, d: Stepped): Stepped {
    d.(out := ms + d.out)
  }

  lemma PrependJoins(x: seq<Message>, y: seq<Message>, d: Stepped)
    ensures Prepend([], d) == d
    ensures Prepend(x, Prepend(y, d)) == Prepend(x + y, d)
  {
    assert [] + d.out == d.out;
    assert x + (y + d.out) == (x + y) + d.out;
  }

  datatype Received = Received(msg: Message, reader: Reader, rest: bytes)

  /** One call of readMessage: chunks are consumed until one of them returns a message. */
  function Receive(r: Reader, s: bytes): (o: Option<Received>)
    ensures o.Some? ==> |o.value.rest| < |s|
    decreases |s|
  {
    match Step(r, s)
    case None => None
    case Some(n) =>
      if n.out != [] then Some(Received(n.out[0], n.reader, n.rest)) else Receive(n.reader, n.rest)
  }

  /** Calling readMessage again and again is draining the stream. */
  lemma {:induction false} ReceiveIsDrain(r: Reader, s: bytes)
    ensures match Receive(r, s)
            case None => Drain(r, s).out == []
            case Some(n) => Drain(r, s) == Prepend([n.msg], Drain(n.reader, n.rest))
    decreases |s|
  {
    match Step(r, s)
    case None =>
    case Some(n) =>
      if n.out == [] {
        ReceiveIsDrain(n.reader, n.rest);
      } else {
        assert n.out == [n.out[0]];
      }
  }

  // ---------------------------------------------------------------- the reader's invariant

  /** No chunk stream has received its whole message and kept it, so `Remaining` never wraps. */
  ghost predicate StreamOk(cs: ChunkStream) {
    && cs.received == |cs.partialPayload|
    && (cs.received == 0 || cs.received < cs.length)
  }

  ghost predicate ReaderOk(r: Reader) {
    forall id :: id in r.streams ==> StreamOk(r.streams[id])
  }

  lemma HeaderKeepsInvariant(fmt: nat, cs: ChunkStream, s: bytes)
    requires StreamOk(cs)
    ensures ParseHeader(fmt, cs, s).Some? ==>
              var h := ParseHeader(fmt, cs, s).value.cs; StreamOk(h) && Remaining(h) == h.length - h.received
  {
  }

  lemma DepositKeepsInvariant(r: Reader, id: nat, cs: ChunkStream, data: bytes)
    requires ReaderOk(r) && StreamOk(cs) && |data| <= cs.length - cs.received
    ensures var (r', out) := Deposit(r, id, cs, data);
            ReaderOk(r') && |out| <= 1 && forall m :: m in out ==> |m.payload| == cs.length
  {
    assert StreamOk(Restart(cs));
  }

  /**
   Every chunk keeps the invariant, on any bytes whatsoever and whatever the chunk size is, even 0; under it
   the 32-bit subtraction is exact, and a chunk consumes at least its first byte.
   */
  lemma StepKeepsInvariant(r: Reader, s: bytes)
    requires ReaderOk(r)
    ensures match Step(r, s)
            case None => true
            case Some(n) => ReaderOk(n.reader) && |n.rest| < |s| && |n.out| <= 1
  {
    match ParseBasic(s)
    case None =>
    case Some(b) =>
      assert StreamOk(r.Stream(b.csId));
      HeaderKeepsInvariant(b.fmt, r.Stream(b.csId), b.rest);
      match ParseHeader(b.fmt, r.Stream(b.csId), b.rest)
      case None =>
      case Some(h) =>
        var n := ToRead(r.chunkSize, h.cs);
        if n <= |h.rest| {
          DepositKeepsInvariant(r, b.csId, h.cs, h.rest[..n]);
        }
  }

  /** At every point of every run the reader keeps the invariant. */
  lemma {:induction false} RunKeepsInvariant(r: Reader, s: bytes)
    requires ReaderOk(r)
    ensures ReaderOk(Drain(r, s).reader)
    ensures |Drain(r, s).rest| + |Drain(r, s).out| <= |s|
    decreases |s|
  {
    StepKeepsInvariant(r, s);
    match Step(r, s)
    case None =>
    case Some(n) => RunKeepsInvariant(n.reader, n.rest);
  }

  // ---------------------------------------------------------------- reading does not look ahead

  lemma BasicIsStable(s: bytes, t: bytes)
    requires ParseBasic(s).Some?
    ensures ParseBasic(s + t) == Some(ParseBasic(s).value.(rest := ParseBasic(s).value.rest + t))
  {
    var n := |s| - |ParseBasic(s).value.rest|;
    assert 1 <= n <= 3 && forall i :: 0 <= i < n ==> (s + t)[i] == s[i];
    assert (s + t)[n..] == s[n..] + t;
  }

  lemma ExtensionIsStable(field: uint32, s: bytes, t: bytes)
    requires ParseExtension(field, s).Some?
    ensures ParseExtension(field, s + t)
         == Some(ParseExtension(field, s).value.(rest := ParseExtension(field, s).value.rest + t))
  {
    hide FromBE32;
    if |s| >= 4 {
      assert (s + t)[..4] == s[..4] && (s + t)[4..] == s[4..] + t;
    }
  }

  lemma HeaderIsStable(fmt: nat, cs: ChunkStream, s: bytes, t: bytes)
    requires ParseHeader(fmt, cs, s).Some?
    ensures ParseHeader(fmt, cs, s + t)
         == Some(ParseHeader(fmt, cs, s).value.(rest := ParseHeader(fmt, cs, s).value.rest + t))
  {
    hide FromBE24, FromLE32, ParseExtension;
    var e := s + t;
    if fmt < 3 {
      assert e[..3] == s[..3];
      if fmt == 0 {
        assert e[3..6] == s[3..6] && e[7..11] == s[7..11] && e[11..] == s[11..] + t;
        ExtensionIsStable(FromBE24(s[..3]), s[11..], t);
      } else if fmt == 1 {
        assert e[3..6] == s[3..6] && e[7..] == s[7..] + t;
        ExtensionIsStable(FromBE24(s[..3]), s[7..], t);
      } else {
        assert e[3..] == s[3..] + t;
        ExtensionIsStable(FromBE24(s[..3]), s[3..], t);
      }
    }
  }

  /** A chunk that was read is read the same way whatever follows it. */
  lemma StepIsStable(r: Reader, s: bytes, t: bytes)
    requires Step(r, s).Some?
    ensures Step(r, s + t) == Some(Step(r, s).value.(rest := Step(r, s).value.rest + t))
  {
    hide ParseBasic, ParseHeader, Deposit, ToRead;
    BasicIsStable(s, t);
    var b := ParseBasic(s).value;
    HeaderIsStable(b.fmt, r.Stream(b.csId), b.rest, t);
    var h := ParseHeader(b.fmt, r.Stream(b.csId), b.rest).value;
    var n := ToRead(r.chunkSize, h.cs);
    assert (h.rest + t)[..n] == h.rest[..n] && (h.rest + t)[n..] == h.rest[n..] + t;
  }

  // ---------------------------------------------------------------- writing

  /** The chunks after the first one. `csId & 0x3F` is the Euclidean remainder, also for negative ids. */
  function Fragment(csId: int, data: bytes): bytes
    decreases |data|
  {
    if data == [] then [] else
    var n := Min(|data|, OUT_CHUNK_SIZE);
    [(192 + csId % 64) as byte] + data[..n] + Fragment(csId, data[n..])
  }

  function FullHeader(csId: int, m: Message): bytes {
    [(csId % 64) as byte] + BE24(m.timestamp) + BE24(|m.payload|) + [m.msgType] + LE32(m.streamId)
  }

  /** What sendMessage puts on the wire. */
  function Encode(csId: int, m: Message): bytes {
    var n := Min(|m.payload|, OUT_CHUNK_SIZE);
    FullHeader(csId, m) + m.payload[..n] + Fragment(csId, m.payload[n..])
  }

  datatype Posting = Posting(csId: int, msg: Message)

  function EncodeAll(ps: seq<Posting>): bytes {
    if ps == [] then [] else Encode(ps[0].csId, ps[0].msg) + EncodeAll(ps[1..])
  }

  function Messages(ps: seq<Posting>): seq<Message> {
    if ps == [] then [] else [ps[0].msg] + Messages(ps[1..])
  }
}

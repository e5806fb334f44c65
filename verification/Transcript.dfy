// What sendMessage writes, read back: exactly which messages survive, and whole transcripts.

module Transcript {
  import opened Bytes
  import opened Chunks
  import opened Interleaving

  /** The sender truncates times and lengths to 24 bits and has no extended timestamps. */
  predicate Faithful(m: Message) {
    m.timestamp < 0xFF_FFFF && |m.payload| < 0x100_0000
  }

  /** Reader and writer cut the message alike: same chunk size, or one chunk for both. */
  predicate SameCut(size: uint32, m: Message) {
    size == OUT_CHUNK_SIZE || |m.payload| <= Min(size, OUT_CHUNK_SIZE)
  }

  // ---------------------------------------------------------------- one message

  /** Reading `s` yields `m`, unless it is absorbed, and goes on in `r'` with exactly `t`. */
  ghost predicate ReadsAs(r: Reader, s: bytes, m: Message, r': Reader, t: bytes) {
    && Drain(r, s) == Prepend(Visible(m), Drain(r', t))
    && Receive(r, s) == if SetsChunkSize(m) then Receive(r', t) else Some(Received(m, r', t))
  }

  /** The rest of a message that is under way, written as type 3 chunks. */
  lemma {:induction false} FragmentDrains(snd: Sender, r: Reader, id: nat, t: bytes) returns (r': Reader)
    requires 2 <= id < 64 && Agree(snd, r) && id in snd.streams
    requires snd.streams[id].field < 0xFF_FFFF && !Finished(snd.streams[id]) && snd.chunkSize == OUT_CHUNK_SIZE
    ensures var o := snd.streams[id];
            && o.sent <= |o.msg.payload|
            && ReadsAs(r, Fragment(id, o.msg.payload[o.sent..]) + t, o.msg, r', t)
            && r'.chunkSize == SizeAfter(o.msg, snd.chunkSize)
    decreases |snd.streams[id].msg.payload| - snd.streams[id].sent
  {
    hide Step, Fragment, EventBytes, Agree;
    var o := snd.streams[id];
    ResizesAlike(o.msg, snd.chunkSize);
    UnderWay(snd, r, id);
    var e := Continue(id);
    var snd' := After(snd, e);
    var o' := snd'.streams[id];
    var more := Fragment(id, o.msg.payload[o'.sent..]) + t;
    FragmentIsContinue(snd, id, t);
    EventStep(snd, r, e, more);
    var next := Step(r, EventBytes(snd, e) + more).value;
    if Finished(o') {
      r' := next.reader;
      NothingMore(id, o.msg.payload[o'.sent..], t);
    } else {
      r' := FragmentDrains(snd', next.reader, id, t);
      PrependJoins([], [], Drain(next.reader, more));
    }
  }

  lemma UnderWay(snd: Sender, r: Reader, id: nat)
    requires Agree(snd, r) && id in snd.streams
    ensures snd.streams[id].sent <= |snd.streams[id].msg.payload| && r.chunkSize == snd.chunkSize
  {
    assert Tracks(snd.streams[id], r.streams[id]);
  }

  lemma NothingMore(id: int, data: bytes, t: bytes)
    requires data == []
    ensures Fragment(id, data) + t == t
  {
  }

  lemma FragmentIsContinue(snd: Sender, id: nat, t: bytes)
    requires 2 <= id < 64 && id in snd.streams && snd.chunkSize == OUT_CHUNK_SIZE
    requires snd.streams[id].field < 0xFF_FFFF && !Finished(snd.streams[id])
    ensures var o, o' := snd.streams[id], After(snd, Continue(id)).streams[id];
            Fragment(id, o.msg.payload[o.sent..]) + t
            == EventBytes(snd, Continue(id)) + (Fragment(id, o.msg.payload[o'.sent..]) + t)
  {
    var o := snd.streams[id];
    var data := o.msg.payload[o.sent..];
    var n := Min(|data|, OUT_CHUNK_SIZE);
    var head: bytes, body, tail := [192 + id], data[..n], Fragment(id, data[n..]);
    assert body == Body(snd.chunkSize, o);
    assert EventBytes(snd, Continue(id)) == head + body;
    assert data[n..] == o.msg.payload[o.sent + n..];
    assert head + body + tail + t == (head + body) + (tail + t);
  }

  lemma FullHeaderIsBegin(id: nat, m: Message)
    requires 2 <= id < 64 && Faithful(m)
    ensures FullHeader(id, m) == BasicBytes(0, id) + HeaderBytes(0, m.timestamp, m)
  {
  }

  /** One sendMessage, read by a reader in any state: the message comes out and exactly its bytes are consumed. */
  lemma EncodeDrains(r: Reader, id: nat, m: Message, t: bytes) returns (r': Reader)
    requires 2 <= id < 64 && Faithful(m) && SameCut(r.chunkSize, m)
    ensures ReadsAs(r, Encode(id, m) + t, m, r', t)
    ensures r'.chunkSize == SizeAfter(m, r.chunkSize)
  {
    hide Step, Fragment, EventBytes, Encode;
    ResizesAlike(m, r.chunkSize);
    var snd := Sender(r.chunkSize, map[]);
    var e := Begin(id, 0, m);
    var n := Min(|m.payload|, OUT_CHUNK_SIZE);
    var tail := Fragment(id, m.payload[n..]);
    EncodeIsBegin(snd, id, m, t);
    EventStep(snd, r, e, tail + t);
    var next := Step(r, Encode(id, m) + t).value;
    if n == |m.payload| {
      r' := next.reader;
      NothingMore(id, m.payload[n..], t);
    } else {
      r' := FragmentDrains(After(snd, e), next.reader, id, t);
      PrependJoins([], [], Drain(next.reader, tail + t));
    }
  }

  lemma EncodeIsBegin(snd: Sender, id: nat, m: Message, t: bytes)
    requires 2 <= id < 64 && Faithful(m) && SameCut(snd.chunkSize, m) && snd.streams == map[]
    ensures var tail := Fragment(id, m.payload[Min(|m.payload|, OUT_CHUNK_SIZE)..]);
            Encode(id, m) + t == EventBytes(snd, Begin(id, 0, m)) + (tail + t)
  {
    var n := Min(|m.payload|, OUT_CHUNK_SIZE);
    var head, body, tail := FullHeader(id, m), m.payload[..n], Fragment(id, m.payload[n..]);
    FullHeaderIsBegin(id, m);
    assert body == Body(snd.chunkSize, Current(snd, Begin(id, 0, m)));
    assert EventBytes(snd, Begin(id, 0, m)) == head + body;
    assert head + body + tail + t == (head + body) + (tail + t);
  }

  // ---------------------------------------------------------------- which messages survive

  /** One readMessage on the message's bytes gives it back and leaves exactly what followed. */
  ghost predicate Returns(r: Reader, id: int, m: Message, t: bytes) {
    var o := Receive(r, Encode(id, m) + t);
    o.Some? && o.value.msg == m && o.value.rest == t
  }

  /** The message the truncated header fields describe. */
  function Truncated(m: Message): Message {
    m.(timestamp := m.timestamp % 0x100_0000, payload := m.payload[..|m.payload| % 0x100_0000])
  }

  lemma TruncatedHeader(id: int, m: Message)
    ensures FullHeader(id, Truncated(m)) == FullHeader(id, m)
  {
    hide BE24, LE32;
    BE24Truncates(m.timestamp);
    BE24Truncates(|m.payload|);
  }

  lemma {:induction false} FragmentPrefix(id: int, data: bytes, k: nat)
    requires k <= |data|
    ensures Fragment(id, data[..k]) <= Fragment(id, data)
    decreases |data|
  {
    if k > 0 {
      var n := Min(|data|, OUT_CHUNK_SIZE);
      if k <= n {
        assert data[..k][Min(k, OUT_CHUNK_SIZE)..] == [];
        assert data[..n][..k] == data[..k];
      } else {
        FragmentPrefix(id, data[n..], k - n);
        assert data[..k][..n] == data[..n];
        assert data[..k][n..] == data[n..][..k - n];
      }
    }
  }

  /** The bytes of a message behind its header fields. */
  function Behind(id: int, payload: bytes): bytes {
    var n := Min(|payload|, OUT_CHUNK_SIZE);
    payload[..n] + Fragment(id, payload[n..])
  }

  lemma EncodeParts(id: int, m: Message)
    ensures Encode(id, m) == FullHeader(id, m) + Behind(id, m.payload)
  {
    hide FullHeader, Fragment;
    var n := Min(|m.payload|, OUT_CHUNK_SIZE);
    var h, first, rest := FullHeader(id, m), m.payload[..n], Fragment(id, m.payload[n..]);
    assert h + first + rest == h + (first + rest);
  }

  lemma BehindPrefix(id: int, p: bytes, k: nat)
    requires k <= |p|
    ensures Behind(id, p[..k]) <= Behind(id, p)
  {
    hide Fragment;
    var n := Min(|p|, OUT_CHUNK_SIZE);
    if k <= n {
      assert p[..k][..k] == p[..k] && p[..k][k..] == [];
      NothingMore(id, p[..k][k..], []);
      assert p[..k] + [] == p[..k] && p[..k] <= p[..n];
    } else {
      FragmentPrefix(id, p[n..], k - n);
      assert p[..k][..n] == p[..n] && p[..k][n..] == p[n..][..k - n];
      PrefixJoins(p[..n], Fragment(id, p[n..][..k - n]), Fragment(id, p[n..]));
    }
  }

  lemma PrefixJoins(a: bytes, b: bytes, c: bytes)
    requires b <= c
    ensures a + b <= a + c
  {
  }

  lemma TruncatedPrefix(id: int, m: Message)
    ensures Encode(id, Truncated(m)) <= Encode(id, m)
  {
    hide FullHeader, Behind, Encode;
    TruncatedHeader(id, m);
    EncodeParts(id, m);
    EncodeParts(id, Truncated(m));
    BehindPrefix(id, m.payload, |m.payload| % 0x100_0000);
    PrefixJoins(FullHeader(id, m), Behind(id, Truncated(m).payload), Behind(id, m.payload));
  }

  lemma PrefixReads(r: Reader, id: nat, m: Message, s: bytes)
    requires 2 <= id < 64 && Faithful(m) && SameCut(r.chunkSize, m) && !SetsChunkSize(m)
    requires Encode(id, m) <= s
    ensures Receive(r, s).Some? && Receive(r, s).value.msg == m
  {
    hide Encode, Receive, Drain;
    var e := Encode(id, m);
    var _ := EncodeDrains(r, id, m, s[|e|..]);
    assert s == e + s[|e|..];
  }

  lemma TruncatedIsFaithful(m: Message)
    requires m.timestamp % 0x100_0000 != 0xFF_FFFF
    ensures Faithful(Truncated(m))
    ensures !SetsChunkSize(m) ==> !SetsChunkSize(Truncated(m))
    ensures Faithful(m) <==> Truncated(m) == m
  {
    if Faithful(m) {
      assert m.payload[..|m.payload|] == m.payload;
    }
  }

  /** The reader always sees the truncated message, provided its 24-bit time is not the extension marker. */
  lemma TruncatedIsReceived(r: Reader, id: nat, m: Message, t: bytes)
    requires 2 <= id < 64 && r.chunkSize == OUT_CHUNK_SIZE && !SetsChunkSize(m)
    requires m.timestamp % 0x100_0000 != 0xFF_FFFF
    ensures var o := Receive(r, Encode(id, m) + t); o.Some? && o.value.msg == Truncated(m)
  {
    TruncatedIsFaithful(m);
    TruncatedPrefix(id, m);
    PrefixReads(r, id, Truncated(m), Encode(id, m) + t);
  }

  // A time whose 24 low bits are the extension marker makes the reader take four payload bytes for the time.

  lemma EncodeBehind(id: nat, m: Message, t: bytes)
    requires id < 64
    ensures Encode(id, m) + t
         == [id as byte] + (BE24(m.timestamp) + (BE24(|m.payload|) + [m.msgType]) + LE32(m.streamId)
                            + (Behind(id, m.payload) + t))
  {
    hide BE24, LE32, Fragment;
    var n := Min(|m.payload|, OUT_CHUNK_SIZE);
    var time, len, sid := BE24(m.timestamp), BE24(|m.payload|), LE32(m.streamId);
    var first, more := m.payload[..n], Fragment(id, m.payload[n..]);
    assert [id as byte] + time + len + [m.msgType] + sid + first + more + t
        == [id as byte] + (time + (len + [m.msgType]) + sid + (first + more + t));
  }

  /** The reader after such a header: its message has the announced length, and four bytes fewer are left. */
  lemma MarkedHeader(r: Reader, id: nat, m: Message, t: bytes) returns (cs: ChunkStream)
    requires 2 <= id < 64 && m.timestamp % 0x100_0000 == 0xFF_FFFF && |Behind(id, m.payload) + t| >= 4
    ensures cs.length == |m.payload| % 0x100_0000 && cs.received == 0 && cs.partialPayload == []
    ensures cs.msgType == m.msgType
    ensures ParseBasic(Encode(id, m) + t).Some?
    ensures var b := ParseBasic(Encode(id, m) + t).value;
            && b.csId == id
            && ParseHeader(b.fmt, r.Stream(id), b.rest) == Some(Headed(cs, (Behind(id, m.payload) + t)[4..]))
  {
    hide BE24, FromBE24, LE32, FromLE32, FromBE32, Behind, Encode;
    var time, len, sid, u := BE24(m.timestamp), BE24(|m.payload|), LE32(m.streamId), Behind(id, m.payload) + t;
    EncodeBehind(id, m, t);
    BE24RoundTrip(m.timestamp);
    BE24RoundTrip(|m.payload|);
    BasicRoundTrip(0, id, time + (len + [m.msgType]) + sid + u);
    FullHeaderFields(r.Stream(id), time, len, m.msgType, sid, u);
    cs := Restart(r.Stream(id).(timestamp := FromBE32(u[..4]), delta := 0, length := FromBE24(len),
                                msgType := m.msgType, streamId := FromLE32(sid)));
  }

  lemma MarkedTooShort(r: Reader, id: nat, m: Message)
    requires 2 <= id < 64 && m.timestamp % 0x100_0000 == 0xFF_FFFF && |Behind(id, m.payload)| < 4
    ensures Step(r, Encode(id, m)) == None
  {
    hide BE24, FromBE24, LE32, FromLE32, Behind, Encode;
    var time, len, sid, u := BE24(m.timestamp), BE24(|m.payload|), LE32(m.streamId), Behind(id, m.payload);
    EncodeBehind(id, m, []);
    assert u + [] == u && Encode(id, m) + [] == Encode(id, m);
    BE24RoundTrip(m.timestamp);
    BasicRoundTrip(0, id, time + (len + [m.msgType]) + sid + u);
    FullHeaderFields(r.Stream(id), time, len, m.msgType, sid, u);
  }

  /** A single chunk whose 24-bit time is the extension marker is never delivered from its own bytes. */
  lemma MarkerTimeStarves(r: Reader, id: nat, m: Message)
    requires 2 <= id < 64 && |m.payload| <= OUT_CHUNK_SIZE
    requires r.chunkSize == OUT_CHUNK_SIZE
    requires m.timestamp % 0x100_0000 == 0xFF_FFFF
    ensures Receive(r, Encode(id, m)) == None
  {
    hide Encode, ParseBasic, ParseHeader, Fragment;
    assert |Behind(id, m.payload)| == |m.payload| by {
      FragmentLength(id, []);
      assert m.payload[|m.payload|..] == [];
    }
    if |m.payload| < 4 {
      MarkedTooShort(r, id, m);
    } else {
      var cs := MarkedHeader(r, id, m, []);
      assert Encode(id, m) + [] == Encode(id, m);
      assert ToRead(r.chunkSize, cs) == |m.payload|;
    }
  }

  lemma FaithfulReturns(r: Reader, id: nat, m: Message, t: bytes)
    requires 2 <= id < 64 && r.chunkSize == OUT_CHUNK_SIZE && !SetsChunkSize(m) && Faithful(m)
    ensures Returns(r, id, m, t)
  {
    var _ := EncodeDrains(r, id, m, t);
  }

  /** Each single message, but for those of several chunks at a marker time, whose payload can be taken for headers. */
  lemma SurvivesExactlyWhenFaithful(r: Reader, id: nat, m: Message)
    requires 2 <= id < 64 && r.chunkSize == OUT_CHUNK_SIZE && !SetsChunkSize(m)
    requires |m.payload| <= OUT_CHUNK_SIZE || m.timestamp % 0x100_0000 != 0xFF_FFFF
    ensures (forall t :: Returns(r, id, m, t)) <==> Faithful(m)
  {
    hide Encode, Receive;
    if Faithful(m) {
      forall t ensures Returns(r, id, m, t) {
        FaithfulReturns(r, id, m, t);
      }
    } else if m.timestamp % 0x100_0000 == 0xFF_FFFF {
      MarkerTimeStarves(r, id, m);
      assert Encode(id, m) + [] == Encode(id, m);
      assert !Returns(r, id, m, []);
    } else {
      TruncatedIsFaithful(m);
      TruncatedIsReceived(r, id, m, []);
      assert !Returns(r, id, m, []);
    }
  }

  /** How many bytes the chunks after the first take: the data, and one header byte for each chunk. */
  function FragmentSize(n: nat): nat {
    if n == 0 then 0 else var k := Min(n, OUT_CHUNK_SIZE); 1 + k + FragmentSize(n - k)
  }

  lemma {:induction false} FragmentLength(id: int, data: bytes)
    ensures |Fragment(id, data)| == FragmentSize(|data|)
    decreases |data|
  {
    if data != [] {
      FragmentLength(id, data[Min(|data|, OUT_CHUNK_SIZE)..]);
    }
  }

  /** All bytes are `x`. */
  predicate Uniform(s: bytes, x: byte) {
    forall i :: 0 <= i < |s| ==> s[i] == x
  }

  lemma {:induction false} FragmentUniform(id: nat, data: bytes)
    requires id < 64 && Uniform(data, (192 + id) as byte)
    ensures Uniform(Fragment(id, data), (192 + id) as byte)
    decreases |data|
  {
    if data != [] {
      FragmentUniform(id, data[Min(|data|, OUT_CHUNK_SIZE)..]);
    }
  }

  /** A type 3 chunk of a message under way, byte by byte. */
  lemma NextPart(r: Reader, id: nat, s: bytes)
    requires 2 <= id < 64 && s != [] && s[0] == 192 + id && id in r.streams
    ensures var n := ToRead(r.chunkSize, r.streams[id]);
            Step(r, s) ==
            if |s| <= n then None else
            var (r', out) := Deposit(r, id, r.streams[id], s[1..1 + n]); Some(Stepped(r', out, s[1 + n..]))
  {
    hide Deposit, ToRead;
    var n := ToRead(r.chunkSize, r.streams[id]);
    assert ParseBasic(s) == Some(Basic(3, id, s[1..]));
    if |s| > n {
      assert s[1..][..n] == s[1..1 + n] && s[1..][n..] == s[1 + n..];
    }
  }

  /** It completes the message, or adds its data. */
  lemma PartDeposits(r: Reader, id: nat, data: bytes)
    requires id in r.streams
    requires var cs := r.streams[id];
             cs.received == |cs.partialPayload| < cs.length && |data| <= cs.length - cs.received
    ensures var cs := r.streams[id];
            var (r', out) := Deposit(r, id, cs, data);
            if cs.received + |data| < cs.length then
              out == [] && r' == r.(streams := r.streams[id := Append(cs, data)])
              && Append(cs, data).received == |Append(cs, data).partialPayload| == cs.received + |data|
            else |out| <= 1 && (cs.msgType != SET_CHUNK_SIZE ==> |out| == 1 && |out[0].payload| == cs.length)
  {
  }

  /** Where every byte is a type 3 header of the same chunk stream, only its message can come out, and not early. */
  lemma {:induction false} UniformReads(r: Reader, id: nat, s: bytes)
    requires 2 <= id < 64 && r.chunkSize == OUT_CHUNK_SIZE && Uniform(s, (192 + id) as byte) && id in r.streams
    requires var cs := r.streams[id];
             cs.received == |cs.partialPayload| < cs.length && cs.msgType != SET_CHUNK_SIZE
    ensures var o := Receive(r, s);
            var cs := r.streams[id];
            o.Some? ==> |s| >= FragmentSize(cs.length - cs.received) && |o.value.msg.payload| == cs.length
    decreases |s|
  {
    hide Step, Deposit;
    if s == [] {
      NothingSteps(r);
    } else {
      var cs := r.streams[id];
      var n := ToRead(r.chunkSize, cs);
      NextPart(r, id, s);
      if |s| > n {
        PartDeposits(r, id, s[1..1 + n]);
        if cs.received + n < cs.length {
          UniformReads(Step(r, s).value.reader, id, s[1 + n..]);
        }
      }
    }
  }

  lemma NothingSteps(r: Reader)
    ensures Step(r, []) == None
  {
  }

  /** A payload of bytes like the headers of its own continuation chunks, sent at a marker time, does not come back. */
  lemma MarkedUniformIsLost(r: Reader, id: nat, m: Message)
    requires 2 <= id < 64 && r.chunkSize == OUT_CHUNK_SIZE && m.msgType != SET_CHUNK_SIZE
    requires m.timestamp % 0x100_0000 == 0xFF_FFFF
    requires |m.payload| > OUT_CHUNK_SIZE && Uniform(m.payload, (192 + id) as byte)
    ensures !Returns(r, id, m, [])
  {
    hide Encode, ParseBasic, ParseHeader, Fragment, Deposit, Behind, Uniform, SetsChunkSize;
    var n := |m.payload|;
    var u := Behind(id, m.payload);
    UniformBehind(id, m.payload);
    assert Encode(id, m) + [] == Encode(id, m) && u + [] == u;
    var cs := MarkedHeader(r, id, m, []);
    var k := ToRead(r.chunkSize, cs);
    if k <= |u| - 4 {
      SliceAfterFour(u, k, (192 + id) as byte);
      FirstPart(r, id, cs, u[4..4 + k]);
      var next := Step(r, Encode(id, m)).value;
      if k < cs.length {
        UniformReads(next.reader, id, u[4 + k..]);
      }
    }
  }

  lemma SliceAfterFour(u: bytes, k: nat, x: byte)
    requires 4 + k <= |u| && Uniform(u, x)
    ensures u[4..][..k] == u[4..4 + k] && u[4..][k..] == u[4 + k..] && Uniform(u[4 + k..], x)
  {
  }

  lemma UniformBehind(id: nat, payload: bytes)
    requires id < 64 && |payload| > OUT_CHUNK_SIZE && Uniform(payload, (192 + id) as byte)
    ensures var u := Behind(id, payload);
            Uniform(u, (192 + id) as byte)
            && |u| == OUT_CHUNK_SIZE + FragmentSize(|payload| - OUT_CHUNK_SIZE) && |u| > 4
  {
    hide Fragment;
    FragmentUniform(id, payload[OUT_CHUNK_SIZE..]);
    FragmentLength(id, payload[OUT_CHUNK_SIZE..]);
  }

  /** The first chunk of a message that is not a Set Chunk Size: it comes out whole, or its beginning is kept. */
  lemma FirstPart(r: Reader, id: nat, cs: ChunkStream, data: bytes)
    requires cs.received == 0 && cs.partialPayload == [] && cs.msgType != SET_CHUNK_SIZE && |data| <= cs.length
    ensures var (r', out) := Deposit(r, id, cs, data);
            && r'.chunkSize == r.chunkSize && id in r'.streams
            && if |data| == cs.length then |out| == 1 && |out[0].payload| == cs.length else
               out == [] && r'.streams[id] == cs.(partialPayload := data, received := |data|)
  {
    assert [] + data == data;
  }

  /**
   All messages of a kind, time and length come back from sendMessage, whatever their payload and whatever follows,
   exactly when the time is below the marker and the length below 2^24.
   */
  lemma AllSurviveExactly(r: Reader, id: nat, msgType: byte, streamId: uint32, time: uint32, n: nat)
    requires 2 <= id < 64 && r.chunkSize == OUT_CHUNK_SIZE
    requires msgType == SET_CHUNK_SIZE ==> n < 4
    ensures (forall payload: bytes, t: bytes :: |payload| == n ==>
               Returns(r, id, Message(msgType, streamId, time, payload), t))
       <==> time < 0xFF_FFFF && n < 0x100_0000
  {
    hide Returns;
    if time < 0xFF_FFFF && n < 0x100_0000 {
      forall payload: bytes, t: bytes | |payload| == n
        ensures Returns(r, id, Message(msgType, streamId, time, payload), t)
      {
        FaithfulReturns(r, id, Message(msgType, streamId, time, payload), t);
      }
    } else {
      var payload: bytes := seq(n, _ => 192 + id);
      UnfaithfulIsLost(r, id, Message(msgType, streamId, time, payload));
    }
  }

  lemma UnfaithfulIsLost(r: Reader, id: nat, m: Message)
    requires 2 <= id < 64 && r.chunkSize == OUT_CHUNK_SIZE && !SetsChunkSize(m) && !Faithful(m)
    requires Uniform(m.payload, (192 + id) as byte)
    ensures exists t :: !Returns(r, id, m, t)
  {
    hide Returns;
    if m.timestamp % 0x100_0000 == 0xFF_FFFF && |m.payload| > OUT_CHUNK_SIZE {
      MarkedUniformIsLost(r, id, m);
    } else {
      SurvivesExactlyWhenFaithful(r, id, m);
    }
  }

  // ---------------------------------------------------------------- whole transcripts

  predicate Sendable(p: Posting) {
    && 2 <= p.csId < 64
    && Faithful(p.msg)
    && (SetsChunkSize(p.msg) ==> NewChunkSize(p.msg) == OUT_CHUNK_SIZE)
  }

  lemma {:induction false} PostingsDrain(r: Reader, ps: seq<Posting>, t: bytes) returns (r': Reader)
    requires r.chunkSize == OUT_CHUNK_SIZE && forall p :: p in ps ==> Sendable(p)
    ensures Drain(r, EncodeAll(ps) + t) == Prepend(VisibleAll(Messages(ps)), Drain(r', t))
    ensures r'.chunkSize == OUT_CHUNK_SIZE
    decreases |ps|
  {
    if ps == [] {
      r' := r;
      assert EncodeAll(ps) + t == t;
    } else {
      assert Sendable(ps[0]);
      EncodeAllCons(ps, t);
      var r1 := EncodeDrains(r, ps[0].csId, ps[0].msg, EncodeAll(ps[1..]) + t);
      r' := PostingsDrain(r1, ps[1..], t);
      VisibleCons(ps);
      PrependJoins(Visible(ps[0].msg), VisibleAll(Messages(ps[1..])), Drain(r', t));
    }
  }

  lemma EncodeAllCons(ps: seq<Posting>, t: bytes)
    requires ps != []
    ensures EncodeAll(ps) + t == Encode(ps[0].csId, ps[0].msg) + (EncodeAll(ps[1..]) + t)
  {
    var head, rest := Encode(ps[0].csId, ps[0].msg), EncodeAll(ps[1..]);
    assert head + rest + t == head + (rest + t);
  }

  lemma VisibleCons(ps: seq<Posting>)
    requires ps != []
    ensures VisibleAll(Messages(ps)) == Visible(ps[0].msg) + VisibleAll(Messages(ps[1..]))
  {
    assert Messages(ps)[1..] == Messages(ps[1..]);
  }
}

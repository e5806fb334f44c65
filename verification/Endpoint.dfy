// RTMPEndpoint: the chunk reader and writer over a socket, proved against the functions of module Chunks.

module Endpoints {
  import opened Bytes
  import opened Chunks
  import opened DataLayers

  class RTMPEndpoint {
    const layer: DataLayer
    const outChunkSize: uint32 := OUT_CHUNK_SIZE
    var inChunkSize: uint32
    var csState: map<nat, ChunkStream>

    constructor (layer: DataLayer)
      ensures this.layer == layer && State() == NEW_READER
    {
      this.layer := layer;
      inChunkSize := DEFAULT_IN_CHUNK_SIZE;
      csState := map[];
    }

    ghost function State(): Reader
      reads this
    {
      Reader(inChunkSize, csState)
    }

    method ReadBasicHeader() returns (ok: bool, fmt: nat, csId: nat)
      modifies layer`incoming
      ensures match ParseBasic(old(layer.Readable()))
              case None => !ok
              case Some(b) => ok && fmt == b.fmt && csId == b.csId && layer.Readable() == b.rest
    {
      fmt, csId := 0, 0;
      var b;
      ok, b := layer.ReadExact(1);
      if !ok { return; }
      fmt := b[0] / 64;
      csId := b[0] % 64;
      if csId == 0 {
        ok, b := layer.ReadExact(1);
        if !ok { return; }
        csId := b[0] as int + 64;
      } else if csId == 1 {
        var b1, b2;
        ok, b1 := layer.ReadExact(1);
        if !ok { return; }
        ok, b2 := layer.ReadExact(1);
        if !ok { return; }
        csId := b2[0] as int * 256 + b1[0] as int + 64;
      }
    }

    method Read3BytesBE() returns (ok: bool, v: uint32)
      modifies layer`incoming
      ensures var s := old(layer.Readable());
              (ok <==> |s| >= 3) && (ok ==> v == FromBE24(s[..3]) && layer.Readable() == s[3..])
    {
      v := 0;
      var b;
      ok, b := layer.ReadExact(3);
      if ok { v := FromBE24(b); }
    }

    method ReadExtended(field: uint32) returns (ok: bool, v: uint32)
      modifies layer`incoming
      ensures match ParseExtension(field, old(layer.Readable()))
              case None => !ok
              case Some(t) => ok && v == t.time && layer.Readable() == t.rest
    {
      ok, v := true, field;
      if field == EXTENDED {
        var b;
        ok, b := layer.ReadExact(4);
        if ok { v := FromBE32(b); }
      }
    }

    method ReadChunkHeader(fmt: nat, cs: ChunkStream) returns (ok: bool, cs': ChunkStream)
      modifies layer`incoming
      ensures match ParseHeader(fmt, cs, old(layer.Readable()))
              case None => !ok
              case Some(h) => ok && cs' == h.cs && layer.Readable() == h.rest
    {
      cs', ok := cs, true;
      ghost var s := layer.Readable();
      if fmt == 0 {
        var ts, length, b, id;
        ok, ts := Read3BytesBE();
        if !ok { return; }
        ok, length := Read3BytesBE();
        if !ok { return; }
        assert s[3..][..3] == s[3..6] && s[3..][3..] == s[6..];
        ok, b := layer.ReadExact(1);
        if !ok { return; }
        assert s[6..][1..] == s[7..];
        ok, id := layer.ReadExact(4);
        if !ok { return; }
        assert s[7..][..4] == s[7..11] && s[7..][4..] == s[11..];
        ok, ts := ReadExtended(ts);
        cs' := Restart(cs.(timestamp := ts, delta := 0, length := length, msgType := b[0], streamId := FromLE32(id)));
      } else if fmt == 1 {
        var d, length, b;
        ok, d := Read3BytesBE();
        if !ok { return; }
        ok, length := Read3BytesBE();
        if !ok { return; }
        assert s[3..][..3] == s[3..6] && s[3..][3..] == s[6..];
        ok, b := layer.ReadExact(1);
        if !ok { return; }
        assert s[6..][1..] == s[7..];
        ok, d := ReadExtended(d);
        cs' := Restart(cs.(timestamp := (cs.timestamp + d) % WORD, delta := d, length := length, msgType := b[0]));
      } else if fmt == 2 {
        var d;
        ok, d := Read3BytesBE();
        if !ok { return; }
        ok, d := ReadExtended(d);
        cs' := Restart(cs.(timestamp := (cs.timestamp + d) % WORD, delta := d));
      }
    }

    /** The end of the read loop's body: a message that is complete is returned, unless it sets the chunk size. */
    method StoreChunk(csId: nat, cs: ChunkStream, data: bytes) returns (out: Option<Message>)
      modifies this`inChunkSize, this`csState
      ensures (State(), if out.Some? then [out.value] else []) == Deposit(old(State()), csId, cs, data)
    {
      out := None;
      var cs' := cs.(partialPayload := cs.partialPayload + data, received := (cs.received + |data|) % WORD);
      if cs'.received >= cs'.length {
        var msg := Message(cs'.msgType, cs'.streamId, cs'.timestamp, cs'.partialPayload);
        csState := csState[csId := cs'.(partialPayload := [], received := 0)];
        if msg.msgType == SET_CHUNK_SIZE && |msg.payload| >= 4 {
          inChunkSize := FromBE32(msg.payload[..4]) % 0x8000_0000;
        } else {
          out := Some(msg);
        }
      } else {
        csState := csState[csId := cs'];
      }
    }

    /** One turn of the read loop: a whole chunk, and the message it completes, if it is not absorbed. */
    method ReadChunk() returns (ok: bool, out: Option<Message>)
      modifies this`inChunkSize, this`csState, layer`incoming
      ensures match Step(old(State()), old(layer.Readable()))
              case None => !ok
              case Some(n) => ok && State() == n.reader && layer.Readable() == n.rest
                              && n.out == if out.Some? then [out.value] else []
    {
      out := None;
      var fmt, csId, cs, data;
      ok, fmt, csId := ReadBasicHeader();
      if !ok { return; }
      cs := if csId in csState then csState[csId] else FRESH;
      assert cs == old(State()).Stream(csId);
      ok, cs := ReadChunkHeader(fmt, cs);
      if !ok { return; }

      var remaining := (cs.length - cs.received) % WORD;
      var toRead := if remaining < inChunkSize then remaining else inChunkSize;
      assert toRead == ToRead(old(State()).chunkSize, cs);
      ok, data := layer.ReadExact(toRead);
      if !ok { return; }
      out := StoreChunk(csId, cs, data);
    }

    /** Fails exactly when the socket ends before a message is complete; otherwise it is Chunks.Receive. */
    method ReadMessage() returns (ok: bool, msg: Message)
      modifies this`inChunkSize, this`csState, layer`incoming
      ensures match Receive(old(State()), old(layer.Readable()))
              case None => !ok
              case Some(d) => ok && msg == d.msg && State() == d.reader && layer.Readable() == d.rest
    {
      msg := Message(0, 0, 0, []);
      while true
        invariant Receive(State(), layer.Readable()) == Receive(old(State()), old(layer.Readable()))
        decreases |layer.Readable()|
      {
        var out;
        ok, out := ReadChunk();
        if !ok { return; }
        if out.Some? {
          msg := out.value;
          return;
        }
      }
    }

    method WriteChunk(hdr: bytes, data: bytes) returns (ok: bool)
      modifies layer`outgoing, layer`sent
      ensures var wire := old(layer.sent) + (hdr + data);
              if ok then layer.sent == wire else old(layer.sent) <= layer.sent < wire
      ensures old(layer.Healthy()) ==> ok && layer.Healthy()
    {
      assert old(layer.sent) + (hdr + data) == old(layer.sent) + hdr + data;
      ok := layer.WriteExact(hdr);
      if ok {
        ok := layer.WriteExact(data);
      }
    }

    /** On success the wire has grown by exactly Chunks.Encode; on failure by a proper prefix of it. */
    method SendMessage(msgType: byte, streamId: uint32, timestamp: uint32, payload: bytes, csId: int) returns (ok: bool)
      modifies layer`outgoing, layer`sent
      ensures var wire := old(layer.sent) + Encode(csId, Message(msgType, streamId, timestamp, payload));
              if ok then layer.sent == wire else old(layer.sent) <= layer.sent < wire
      ensures old(layer.Healthy()) ==> ok && layer.Healthy()
    {
      hide Encode, Fragment, FullHeader, Unsent;
      var m := Message(msgType, streamId, timestamp, payload);
      UnsentEnds(csId, m);
      ghost var wire := layer.sent + Encode(csId, m);
      var p, rem, first := 0, |payload|, true;
      while first || rem > 0
        invariant 0 <= p <= |payload| && p + rem == |payload| && (first ==> p == 0)
        invariant old(layer.sent) <= layer.sent
        invariant layer.sent + Unsent(csId, m, p, first) == wire
        invariant old(layer.Healthy()) ==> layer.Healthy()
        decreases first, rem
      {
        var toWrite := if rem < outChunkSize then rem else outChunkSize;
        var data := payload[p..p + toWrite];
        var hdr: bytes;
        if first {
          hdr := FullHeader(csId, m);
        } else {
          hdr := [192 + csId % 64];
        }
        ghost var before := layer.sent;
        NextChunk(csId, m, p, first, hdr, data, before, wire);
        first := false;
        ok := WriteChunk(hdr, data);
        if !ok {
          CutShort(layer.sent, before + (hdr + data), wire);
          return;
        }
        p := p + toWrite;
        rem := rem - toWrite;
      }
      ok := true;
    }

    /** What is still to be written when `p` payload bytes are out. */
    static ghost function Unsent(csId: int, m: Message, p: nat, first: bool): bytes
      requires p <= |m.payload|
    {
      if first then Encode(csId, m) else Fragment(csId, m.payload[p..])
    }

    static lemma UnsentEnds(csId: int, m: Message)
      ensures Unsent(csId, m, 0, true) == Encode(csId, m) && Unsent(csId, m, |m.payload|, false) == []
    {
    }

    static lemma CutShort(s: bytes, part: bytes, wire: bytes)
      requires s < part <= wire
      ensures s < wire
    {
    }

    static lemma NextChunk(csId: int, m: Message, p: nat, first: bool, hdr: bytes, data: bytes,
                           sent: bytes, wire: bytes)
      requires p <= |m.payload| && (if first then p == 0 else p < |m.payload|)
      requires hdr == if first then FullHeader(csId, m) else [(192 + csId % 64) as byte]
      requires data == m.payload[p..p + Min(|m.payload| - p, OUT_CHUNK_SIZE)]
      requires sent + Unsent(csId, m, p, first) == wire
      ensures sent + (hdr + data) <= wire
      ensures sent + (hdr + data) + Unsent(csId, m, p + |data|, false) == wire
    {
      hide FullHeader, Fragment, Encode, Unsent;
      UnsentCons(csId, m, p, first, hdr, data);
      JoinTail(sent, hdr + data, Unsent(csId, m, p + |data|, false), wire);
    }

    static lemma UnsentCons(csId: int, m: Message, p: nat, first: bool, hdr: bytes, data: bytes)
      requires p <= |m.payload| && (if first then p == 0 else p < |m.payload|)
      requires hdr == if first then FullHeader(csId, m) else [(192 + csId % 64) as byte]
      requires data == m.payload[p..p + Min(|m.payload| - p, OUT_CHUNK_SIZE)]
      ensures Unsent(csId, m, p, first) == hdr + data + Unsent(csId, m, p + |data|, false)
    {
      hide FullHeader;
      assert m.payload[p..][..|data|] == data && m.payload[p..][|data|..] == m.payload[p + |data|..];
    }

    static lemma JoinTail(sent: bytes, chunk: bytes, tail: bytes, wire: bytes)
      requires sent + (chunk + tail) == wire
      ensures sent + chunk <= wire && sent + chunk + tail == wire
    {
      assert sent + chunk + tail == sent + (chunk + tail);
    }

    method SendControl(msgType: byte, payload: bytes) returns (ok: bool)
      modifies layer`outgoing, layer`sent
      ensures var wire := old(layer.sent) + Encode(2, Message(msgType, 0, 0, payload));
              if ok then layer.sent == wire else old(layer.sent) <= layer.sent < wire
      ensures old(layer.Healthy()) ==> ok && layer.Healthy()
    {
      ok := SendMessage(msgType, 0, 0, payload, 2);
    }
  }
}

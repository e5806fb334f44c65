// RTMPServerSession: the object that answers commands and hands out frames, proved against module Session.

module ServerSessions {
  import opened Bytes
  import opened Chunks
  import opened DataLayers
  import opened Endpoints
  import opened Video
  import opened Session
  import Amf
  import AmfCodec

  class RTMPServerSession {
    const endpoint: RTMPEndpoint
    var publishing: bool
    var greeted: bool  // false: the constructor raised an exception

    constructor (endpoint: RTMPEndpoint)
      modifies endpoint.layer`outgoing, endpoint.layer`sent
      ensures this.endpoint == endpoint && !publishing
      ensures greeted ==> endpoint.layer.sent == old(endpoint.layer.sent) + EncodeAll(Greeting())
      ensures old(endpoint.layer.Healthy()) ==> greeted && endpoint.layer.Healthy()
    {
      this.endpoint := endpoint;
      publishing := false;
      greeted := false;
      new;
      var ok := endpoint.SendControl(WINDOW_ACK_SIZE, BE32(WINDOW));
      if ok {
        ok := endpoint.SendControl(SET_PEER_BANDWIDTH, BE32(WINDOW) + [2]);
        if ok {
          ok := endpoint.SendControl(SET_CHUNK_SIZE, BE32(OUT_CHUNK_SIZE));
          if ok {
            greeted := true;
            ThreePostings(old(endpoint.layer.sent), Greeting());
          }
        }
      }
    }

    /** Writes postings one after the other. */
    method Post(ps: seq<Posting>) returns (ok: bool)
      modifies endpoint.layer`outgoing, endpoint.layer`sent
      ensures ok ==> endpoint.layer.sent == old(endpoint.layer.sent) + EncodeAll(ps)
      ensures old(endpoint.layer.Healthy()) ==> ok && endpoint.layer.Healthy()
    {
      hide Encode;
      var i := 0;
      while i < |ps|
        invariant i <= |ps|
        invariant endpoint.layer.sent + EncodeAll(ps[i..]) == old(endpoint.layer.sent) + EncodeAll(ps)
        invariant old(endpoint.layer.Healthy()) ==> endpoint.layer.Healthy()
      {
        ghost var before := endpoint.layer.sent;
        var m := ps[i].msg;
        ok := endpoint.SendMessage(m.msgType, m.streamId, m.timestamp, m.payload, ps[i].csId);
        if !ok { return; }
        assert ps[i..][1..] == ps[i + 1..];
        assert before + (Encode(ps[i].csId, m) + EncodeAll(ps[i + 1..]))
            == endpoint.layer.sent + EncodeAll(ps[i + 1..]);
        i := i + 1;
      }
      ok := true;
    }

    /** The command's values, written value by value through the AMF0 encoder. */
    method BuildCommand(csId: int, streamId: uint32, values: seq<Amf.Value>) returns (p: Posting)
      ensures p == Command(csId, streamId, values)
    {
      hide Amf.Encode, Amf.EncodeAll;
      var enc := new AmfCodec.AMFEncoder();
      var i := 0;
      while i < |values|
        invariant i <= |values|
        invariant enc.buf + Amf.EncodeAll(values[i..]) == Amf.EncodeAll(values)
      {
        ghost var before := enc.buf;
        EncodeFrom(values, i);
        enc.EncodeValue(values[i]);
        assert before + (Amf.Encode(values[i]) + Amf.EncodeAll(values[i + 1..]))
            == enc.buf + Amf.EncodeAll(values[i + 1..]);
        i := i + 1;
      }
      EncodeFrom(values, i);
      p := Posting(csId, Message(COMMAND_AMF0, streamId, 0, enc.buf));
    }

    static lemma EncodeFrom(values: seq<Amf.Value>, i: nat)
      requires i <= |values|
      ensures Amf.EncodeAll(values[i..])
           == if i == |values| then [] else Amf.Encode(values[i]) + Amf.EncodeAll(values[i + 1..])
    {
      if i < |values| {
        assert values[i..][1..] == values[i + 1..];
      }
    }

    method DecodeRequest(payload: bytes) returns (ok: bool, r: Request)
      ensures ParseRequest(payload) == if ok then Some(r) else None
    {
      hide Amf.Decode;
      ok, r := true, Ignored;
      if payload == [] { return; }
      var dec := new AmfCodec.AMFDecoder(payload);
      var cmdVal, txVal;
      ok, cmdVal := dec.ReadValue();
      if !ok || !cmdVal.String? { return; }
      var tx := ZERO;
      var empty := dec.Empty();
      if !empty {
        ok, txVal := dec.ReadValue();
        if !ok { return; }
        if txVal.Number? { tx := txVal.number; }
      }
      r := Request(cmdVal.str, tx);
    }

    /** Answers one command message; fails when decoding or sending does. */
    method HandleAMF(payload: bytes) returns (ok: bool)
      modifies this`publishing, endpoint.layer`outgoing, endpoint.layer`sent
      ensures ok ==> Respond(payload).Some?
                     && endpoint.layer.sent == old(endpoint.layer.sent) + EncodeAll(Respond(payload).value)
                     && publishing == (old(publishing) || Publishes(payload))
      ensures old(endpoint.layer.Healthy()) ==> endpoint.layer.Healthy() && (ok <==> Respond(payload).Some?)
      ensures !ok && Respond(payload) == None ==>
                endpoint.layer.sent == old(endpoint.layer.sent) && publishing == old(publishing)
    {
      hide EncodeAll, ParseRequest;
      var r;
      ok, r := DecodeRequest(payload);
      if !ok { return; }
      if r.Ignored? {
        NothingSaid(endpoint.layer.sent);
        return;
      }
      var ps: seq<Posting> := [];
      if r.cmd == Ascii("connect") {
        var p := BuildCommand(3, 0, ConnectResult(r.tx));
        ps := [p, StreamBegin(0)];
      } else if r.cmd == Ascii("createStream") {
        var p := BuildCommand(3, 0, CreateStreamResult(r.tx));
        ps := [p];
      } else if r.cmd == Ascii("publish") {
        publishing := true;
        var p := BuildCommand(5, STREAM_ID, PublishStart());
        ps := [StreamBegin(STREAM_ID), p];
      } else if (r.cmd == Ascii("FCPublish") || r.cmd == Ascii("releaseStream") || r.cmd == Ascii("deleteStream"))
             && Positive(r.tx) {
        var p := BuildCommand(3, 0, PlainResult(r.tx));
        ps := [p];
      }
      assert ps == Answer(r.cmd, r.tx);
      assert Ascii("connect")[0] != Ascii("publish")[0];
      ok := Post(ps);
    }

    /** The switch over the message type: commands are answered, video is parsed, the rest is ignored. */
    method Dispatch(msg: Message) returns (ok: bool, frame: Frame, gotFrame: bool)
      modifies this`publishing, endpoint.layer`outgoing, endpoint.layer`sent
      ensures var t := HandleMessage(msg);
              && (ok ==> && !t.failed && t.frame == (if gotFrame then Some(frame) else None)
                         && endpoint.layer.sent == old(endpoint.layer.sent) + EncodeAll(t.replies)
                         && publishing == (old(publishing) || t.publishing))
              && (!ok && t.failed ==>
                    endpoint.layer.sent == old(endpoint.layer.sent) && publishing == old(publishing))
              && (old(endpoint.layer.Healthy()) ==> endpoint.layer.Healthy() && (ok <==> !t.failed))
    {
      hide EncodeAll, ParseVideo, Respond, Publishes;
      ok, frame, gotFrame := true, Frame(false, false, [], [], [], 0, 0), false;
      NothingSaid(endpoint.layer.sent);
      if msg.msgType == COMMAND_AMF0 || msg.msgType == DATA_AMF0 {
        ok := HandleAMF(msg.payload);
      } else if msg.msgType == VIDEO {
        frame, gotFrame := HandleVideo(msg);
      }
    }

    /** Reads and answers until a frame arrives. */
    method GetRTMPMessage() returns (ok: bool, frame: Frame)
      modifies this`publishing, endpoint`inChunkSize, endpoint`csState
      modifies endpoint.layer`incoming, endpoint.layer`outgoing, endpoint.layer`sent
      ensures var d := Serve(old(endpoint.State()), old(endpoint.layer.Readable()));
              && (ok ==> && d.frame == Some(frame)
                         && endpoint.State() == d.reader && endpoint.layer.Readable() == d.rest
                         && endpoint.layer.sent == old(endpoint.layer.sent) + EncodeAll(d.replies)
                         && publishing == (old(publishing) || d.publishing))
              && (old(endpoint.layer.Healthy()) ==>
                    endpoint.layer.Healthy() && (ok <==> d.frame.Some?)
                    && endpoint.layer.sent == old(endpoint.layer.sent) + EncodeAll(d.replies)
                    && publishing == (old(publishing) || d.publishing)
                    && (d.failed ==> endpoint.State() == d.reader && endpoint.layer.Readable() == d.rest))
    {
      hide EncodeAll, Receive, Serve, HandleMessage;
      frame := Frame(false, false, [], [], [], 0, 0);
      ghost var said: seq<Posting>, told := [], false;
      NothingSaid(endpoint.layer.sent);
      ContinuedJoins([], [], false, false, Serve(endpoint.State(), endpoint.layer.Readable()));
      while true
        invariant Serve(old(endpoint.State()), old(endpoint.layer.Readable()))
               == Continued(said, told, Serve(endpoint.State(), endpoint.layer.Readable()))
        invariant endpoint.layer.sent == old(endpoint.layer.sent) + EncodeAll(said)
        invariant publishing == (old(publishing) || told)
        invariant old(endpoint.layer.Healthy()) ==> endpoint.layer.Healthy()
        decreases |endpoint.layer.Readable()|
      {
        var msg;
        assert said + [] == said;
        ServeStep(endpoint.State(), endpoint.layer.Readable());
        ok, msg := endpoint.ReadMessage();
        if !ok { return; }
        ghost var turn := HandleMessage(msg);
        var f, gotFrame;
        ok, f, gotFrame := Dispatch(msg);
        if !ok { return; }
        Session.EncodeAllSplit(said, turn.replies);
        assert endpoint.layer.sent == old(endpoint.layer.sent) + (EncodeAll(said) + EncodeAll(turn.replies));
        if gotFrame {
          frame := f;
          return;
        }
        ContinuedJoins(said, turn.replies, told, turn.publishing, Serve(endpoint.State(), endpoint.layer.Readable()));
        said, told := said + turn.replies, told || turn.publishing;
      }
    }

    static lemma NothingSaid(sent: bytes)
      ensures sent + EncodeAll([]) == sent
    {
    }

    static lemma ThreePostings(sent: bytes, ps: seq<Posting>)
      requires |ps| == 3
      ensures sent + Encode(ps[0].csId, ps[0].msg) + Encode(ps[1].csId, ps[1].msg) + Encode(ps[2].csId, ps[2].msg)
           == sent + EncodeAll(ps)
    {
      hide Encode;
      var x, y, z := Encode(ps[0].csId, ps[0].msg), Encode(ps[1].csId, ps[1].msg), Encode(ps[2].csId, ps[2].msg);
      assert ps == [ps[0], ps[1], ps[2]];
      Session.EncodeThree(ps[0], ps[1], ps[2], []);
      assert EncodeAll(ps) + [] == EncodeAll(ps);
      assert sent + x + y + z == sent + (x + (y + (z + [])));
    }
  }
}

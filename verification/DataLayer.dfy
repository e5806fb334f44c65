// The socket under the chunk layer: loops that turn short reads and short writes into exact ones.

module DataLayers {
  import opened Bytes

  /** What one recv call meets: some bytes (none: the peer closed), a signal, or an error. */
  datatype RecvEvent = Arrived(data: bytes) | RecvInterrupted | RecvFailed

  /** What one send call meets: room for at most so many bytes (none counts as an error), a signal, or an error. */
  datatype SendEvent = Room(n: nat) | SendInterrupted | SendFailed

  /** The bytes that can be read before the stream ends or fails, however recv splits them. */
  function Stream(events: seq<RecvEvent>): bytes {
    if events == [] then []
    else match events[0]
      case Arrived(data) => if data == [] then [] else data + Stream(events[1..])
      case RecvInterrupted => Stream(events[1..])
      case RecvFailed => []
  }

  /** The bytes of some events, put together. */
  function Joined(events: seq<RecvEvent>): bytes {
    if events == [] then [] else (if events[0].Arrived? then events[0].data else []) + Joined(events[1..])
  }

  /** However recv cuts the bytes and whatever signals come between, they are one stream, up to its end or an error. */
  lemma {:induction false} StreamIsWhatArrives(events: seq<RecvEvent>, rest: seq<RecvEvent>)
    requires forall i :: 0 <= i < |events| ==> events[i] != RecvFailed && events[i] != Arrived([])
    ensures Stream(events + rest) == Joined(events) + Stream(rest)
    ensures rest != [] && (rest[0] == RecvFailed || rest[0] == Arrived([])) ==> Stream(events + rest) == Joined(events)
    decreases |events|
  {
    hide Stream, Joined;
    if rest != [] {
      FirstEvent(rest);
    }
    JoinedFirst(events);
    if events == [] {
      assert events + rest == rest && [] + Stream(rest) == Stream(rest);
    } else {
      FirstEvent(events + rest);
      assert (events + rest)[1..] == events[1..] + rest;
      StreamIsWhatArrives(events[1..], rest);
      var d := if events[0].Arrived? then events[0].data else [];
      assert d + (Joined(events[1..]) + Stream(rest)) == d + Joined(events[1..]) + Stream(rest);
    }
  }

  lemma FirstEvent(events: seq<RecvEvent>)
    requires events != []
    ensures events[0].Arrived? && events[0].data != [] ==> Stream(events) == events[0].data + Stream(events[1..])
    ensures events[0].RecvInterrupted? ==> Stream(events) == Stream(events[1..])
    ensures events[0] == RecvFailed || events[0] == Arrived([]) ==> Stream(events) == []
  {
  }

  lemma JoinedFirst(events: seq<RecvEvent>)
    ensures Joined(events) ==
            if events == [] then [] else (if events[0].Arrived? then events[0].data else []) + Joined(events[1..])
  {
  }

  class DataLayer {
    var incoming: seq<RecvEvent>
    var outgoing: seq<SendEvent>
    var sent: bytes

    constructor (incoming: seq<RecvEvent>, outgoing: seq<SendEvent>)
      ensures this.incoming == incoming && this.outgoing == outgoing && sent == []
    {
      this.incoming, this.outgoing, sent := incoming, outgoing, [];
    }

    ghost function Readable(): bytes
      reads this
    {
      Stream(incoming)
    }

    /** No send call is going to fail. */
    ghost predicate Healthy()
      reads this
    {
      forall x :: x in outgoing ==> x != SendFailed && x != Room(0)
    }

    /** The kernel's side of recv: a prefix of what has arrived. */
    method Recv(max: nat) returns (e: RecvEvent)
      requires max > 0
      modifies this`incoming
      ensures e.Arrived? ==> |e.data| <= max && e.data + Readable() == old(Readable())
                             && (e.data == [] ==> old(Readable()) == [])
      ensures e.RecvInterrupted? ==> Readable() == old(Readable()) && |incoming| < |old(incoming)|
      ensures e.RecvFailed? ==> old(Readable()) == []
    {
      if incoming == [] {
        return Arrived([]);
      }
      e := incoming[0];
      if e.Arrived? && |e.data| > max {
        var data := e.data;
        e := Arrived(data[..max]);
        incoming := [Arrived(data[max..])] + incoming[1..];
        assert data[..max] + (data[max..] + Stream(incoming[1..])) == data + Stream(incoming[1..]);
      } else if e.Arrived? && e.data == [] {
      } else {
        incoming := incoming[1..];
      }
    }

    /** Succeeds exactly when enough bytes are readable, and then takes exactly those. */
    method ReadExact(len: nat) returns (ok: bool, buf: bytes)
      modifies this`incoming
      ensures ok <==> len <= |old(Readable())|
      ensures ok ==> buf == old(Readable())[..len] && Readable() == old(Readable())[len..]
    {
      buf := [];
      var remaining := len;
      while remaining > 0
        invariant |buf| + remaining == len
        invariant buf + Readable() == old(Readable())
        decreases remaining, |incoming|
      {
        var e := Recv(remaining);
        match e {
          case Arrived(data) =>
            if data == [] {
              return false, buf;
            }
            ghost var rest := Readable();
            assert buf + (data + rest) == (buf + data) + rest;
            buf := buf + data;
            remaining := remaining - |data|;
          case RecvInterrupted =>
          case RecvFailed =>
            return false, buf;
        }
      }
      ok := true;
    }

    /** The kernel's side of send. */
    method Send(data: bytes) returns (e: SendEvent)
      requires data != []
      modifies this`outgoing, this`sent
      ensures e.Room? ==> e.n <= |data| && sent == old(sent) + data[..e.n]
      ensures !e.Room? ==> sent == old(sent)
      ensures e.SendInterrupted? ==> |outgoing| < |old(outgoing)|
      ensures old(Healthy()) ==> e != SendFailed && e != Room(0) && Healthy()
    {
      if outgoing == [] {
        sent := sent + data;
        assert data[..|data|] == data;
        return Room(|data|);
      }
      e := outgoing[0];
      assert e in outgoing;
      assert forall x :: x in outgoing[1..] ==> x in outgoing;
      outgoing := outgoing[1..];
      if e.Room? {
        e := Room(if e.n < |data| then e.n else |data|);
        sent := sent + data[..e.n];
      }
    }

    /** Writes everything, or fails after a proper prefix, and fails only when the socket does. */
    method WriteExact(buf: bytes) returns (ok: bool)
      modifies this`outgoing, this`sent
      ensures ok ==> sent == old(sent) + buf
      ensures !ok ==> exists k :: 0 <= k < |buf| && sent == old(sent) + buf[..k]
      ensures old(Healthy()) ==> ok && Healthy()
    {
      var p := 0;
      while p < |buf|
        invariant 0 <= p <= |buf|
        invariant sent == old(sent) + buf[..p]
        invariant old(Healthy()) ==> Healthy()
        decreases |buf| - p, |outgoing|
      {
        var e := Send(buf[p..]);
        if e.SendFailed? || e == Room(0) {
          if e.Room? {
            assert sent == old(sent) + buf[..p] + [];
          }
          return false;
        }
        if e.Room? {
          assert buf[..p] + buf[p..][..e.n] == buf[..p + e.n];
          p := p + e.n;
        }
      }
      assert buf[..p] == buf;
      ok := true;
    }
  }
}

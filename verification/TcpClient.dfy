/** tcp_client.go: one connection at a time, a handshake on each of them, and read buffers of the
    size the handshake settled on. */
module TcpClient {
  import opened Text
  import opened Framing
  import opened Wire
  import opened BytesPool
  import opened Network
  import Replies

  datatype SendResult = Ok(reply: array<byte>) | Fail(error: IoError)

  /** What a send may do to its connection, a request too long for any frame included. */
  ghost predicate Tried(l: Link, m: Link, request: Bytes) {
    if |request| >= U32 then m == l && LinkOk(l) else Attempted(l, m, request)
  }

  lemma TriedKeepsHandshake(l: Link, m: Link, token: Bytes, request: Bytes)
    requires HelloFirst(l, token) && Tried(l, m, request)
    requires Ready(l, token) || (Fresh(l) && request == HelloRequest(token))
    ensures HelloFirst(m, token) && m.open == l.open
    ensures Ready(l, token) ==> Ready(m, token)
    ensures forall size | Settled(l, size) :: Settled(m, size)
  {
    if |request| < U32 {
      assert Incoming(m) == Incoming(l);
      if Ready(l, token) {
        UseKeepsHandshake(l, m, token, request);
      } else {
        assert l.out + Frame(request) == Frame(request);
      }
    }
  }

  /** Too long a request fails with an error that is not retried, any other request on a dead
      connection with one that is. */
  ghost predicate Refusal(l: Link, request: Bytes, maxMessageSize: nat, err: Option<IoError>) {
    && (|request| > maxMessageSize ==> err == Some(OtherError))
    && (|request| <= maxMessageSize && !l.open ==> err == Some(ConnClosed))
  }

  /** The handler has accepted each of these as it came. */
  ghost predicate AllAccepted(events: seq<Payload>, accepts: seq<Payload> -> bool) {
    forall k | 0 < k <= |events| :: accepts(events[..k])
  }

  /** The handler stopped at the first event it refused; or it refused none, and something failed. */
  ghost predicate Handled(events: seq<Payload>, failure: Option<IoError>, accepts: seq<Payload> -> bool) {
    if failure.Some? then AllAccepted(events, accepts)
    else events != [] && !accepts(events) && AllAccepted(events[..|events| - 1], accepts)
  }

  lemma AcceptedOn(events: seq<Payload>, event: Payload, accepts: seq<Payload> -> bool)
    requires AllAccepted(events, accepts)
    ensures accepts(events + [event]) ==> AllAccepted(events + [event], accepts)
    ensures (events + [event])[..|events|] == events
  {
    var all := events + [event];
    assert forall k | 0 < k <= |events| :: all[..k] == events[..k];
    assert all[..|all|] == all;
  }

  /** A handler that stops leaves the connection in step exactly when it has been given the whole
      answer. */
  ghost predicate Stopped(l: Link, m: Link, events: seq<Payload>) {
    InStep(l) ==> (InStep(m) <==> |Requests(l)| < |l.replies| && events == l.replies[|Requests(l)|])
  }

  /** No frame can carry this request, or the server has said it would not take it. */
  ghost predicate TooLong(request: Bytes, maxMessageSize: nat) { |request| > maxMessageSize || |request| >= U32 }

  /** After these frames comes a header that announces too much. */
  ghost predicate Overlong(s: Bytes, frames: seq<Payload>, maxMessageSize: nat) {
    Frames(frames) <= s && ReadFrame(s[|Frames(frames)|..], maxMessageSize % U32).TooLarge?
  }

  lemma OverlongAfter(s: Bytes, frames: seq<Payload>, rest: Bytes, maxMessageSize: nat)
    requires s == Frames(frames) + rest && ReadFrame(rest, maxMessageSize % U32).TooLarge?
    ensures Overlong(s, frames, maxMessageSize)
  {
    hide ReadFrame, Frames;
    assert s[|Frames(frames)|..] == rest;
  }

  /** The size the server has put in its answer to HELLO on this connection. */
  ghost predicate Settled(l: Link, size: nat) {
    LinkOk(l) && var got := DecodeAll(Incoming(l)).0; got != [] && Judge(got[0]) == Agreed(size)
  }

  ghost predicate AllHelloFirst(links: seq<Link>, token: Bytes) {
    forall i | 0 <= i < |links| :: HelloFirst(links[i], token)
  }

  /** `m` is `l` read further. */
  ghost predicate ReadOn(l: Link, m: Link) {
    LinkOk(l) && LinkOk(m) && m == l.(read := m.read) && l.read <= m.read && (!l.open ==> m == l)
  }

  lemma TriedThenRead(l: Link, mid: Link, m: Link, request: Payload, frames: seq<Payload>)
    requires Attempted(l, mid, request) && l.open && mid.out == l.out + Frame(request) && mid.read == l.read
    requires ReadOn(mid, m)
    ensures Attempted(l, m, request) && Unread(mid) == Unread(l)
    ensures Unread(mid) == Frames(frames) + Unread(m) ==> Exchanged(l, m, request, frames)
  {
    assert Wire.Sent(mid) == Wire.Sent(l);
  }

  // --------------------------------------------------------------- what was called

  /** A call and how it ended. A send that is the first on its connection is that connection's
      handshake. */
  datatype Call =
    | Sending(request: Bytes, chunked: bool, handshake: bool, err: Option<IoError>)
    | Streaming(request: Bytes, handshake: bool, err: Option<IoError>)
    | Redialling(ok: bool)

  ghost predicate Unused(l: Link) { l.open && l.out == [] }

  /** The calls a user of the client has made, the handshakes left out. */
  ghost function Commands(log: seq<Call>): seq<Call> {
    if log == [] then []
    else
      var last := log[|log| - 1];
      Commands(log[..|log| - 1]) + if !last.Redialling? && last.handshake then [] else [last]
  }

  lemma CommandsSnoc(log: seq<Call>, call: Call)
    ensures Commands(log + [call]) == Commands(log) + if !call.Redialling? && call.handshake then [] else [call]
  {
    assert (log + [call])[..|log|] == log;
  }

  lemma FreshIsUnused(l: Link)
    requires Fresh(l)
    ensures Unused(l)
  {
  }

  lemma ReadyIsUsed(l: Link, token: Bytes)
    ensures Ready(l, token) ==> !Unused(l)
  {
  }

  class TCPClient {
    const net: Network
    const token: Bytes
    var connection: nat
    var maxMessageSize: nat
    var bufferPool: Pool
    /** What has been asked of this client, in order. */
    ghost var log: seq<Call>

    constructor (net: Network, token: Bytes, maxMessageSize: nat)
      requires net.Valid() && net.links == []
      ensures Base() && this.net == net && this.token == token && this.maxMessageSize == maxMessageSize
      ensures fresh(bufferPool) && bufferPool.free == {} && log == []
    {
      this.log := [];
      this.net := net;
      this.token := token;
      this.connection := 0;
      this.maxMessageSize := maxMessageSize;
      this.bufferPool := new Pool(maxMessageSize);
    }

    ghost function Footprint(): set<object>
      reads this, bufferPool
    {
      {this, net, bufferPool} + bufferPool.free
    }

    /** Every connection ever opened starts with HELLO; the pool is the pool of the current size, and
        no buffer of it is out. */
    ghost predicate Base()
      reads this, net, bufferPool, bufferPool.free
    {
      && net.Valid() && bufferPool.Valid() && bufferPool.size == maxMessageSize && bufferPool.lent == 0
      && AllHelloFirst(net.links, token)
    }

    /** The connection in use is dead or past its handshake; the size loses nothing in 32 bits, and
        that of a live connection is the one its own server announced. */
    ghost predicate Valid()
      reads this, net, bufferPool, bufferPool.free
    {
      && Base() && connection < |net.links| && Ready(net.links[connection], token) && 1 <= maxMessageSize < U31
      && (net.links[connection].open ==> Settled(net.links[connection], maxMessageSize))
    }

    /** The connection may carry this request: it is past its handshake, or this is the handshake. */
    ghost predicate MaySend(request: Bytes)
      reads this, net
    {
      && connection < |net.links|
      && var l := net.links[connection];
      Ready(l, token) || (Fresh(l) && request == HelloRequest(token))
    }

    /** What `Send`, `Stream` and `SendChunked` begin with: check the size, set the deadline, write. */
    method Transmit(request: Bytes) returns (err: Option<IoError>)
      requires net.Valid() && connection < |net.links|
      modifies net`links, net`faults, net`deadlines
      ensures net.Valid() && |net.links| == |old(net.links)|
      ensures var l, m := old(net.links[connection]), net.links[connection];
              && net.links == old(net.links)[connection := m]
              && Tried(l, m, request)
              && m.read == l.read
              && (err.None? ==> |request| < U32 && l.open && m.out == l.out + Frame(request))
              && (|request| > maxMessageSize ==> m == l)
              && Refusal(l, request, maxMessageSize, err)
      ensures Blamed(old(net.faults), net.faults, err)
      ensures err.Some? && net.faults == old(net.faults) ==> TooLong(request, maxMessageSize)
      ensures net.deadlines == old(net.deadlines) + if |request| > maxMessageSize then 0 else 1
    {
      ghost var l := net.links[connection];
      if |request| > maxMessageSize {
        return Some(OtherError);
      }
      err := net.SetDeadline(connection);
      if err.Some? {
        return;
      }
      err := WriteFrame(net, connection, request);
      assert |request| < U32 ==> Frame(request)[..|Frame(request)|] == Frame(request);
    }

    /** What one use of the connection for `request` leaves behind, `frames` having been read if
        it was a success. */
    twostate predicate Used(request: Bytes, success: bool, frames: seq<Payload>)
      reads this, net, bufferPool, bufferPool.free
    {
      && connection == old(connection) && connection < |old(net.links)| == |net.links|
      && var l, m := old(net.links[connection]), net.links[connection];
      && net.links == old(net.links)[connection := m]
      && Tried(l, m, request) && m.open == l.open
      && (Ready(l, token) ==> Ready(m, token))
      && (Settled(l, maxMessageSize) ==> Settled(m, maxMessageSize))
      && (|request| > maxMessageSize ==> m == l)
      && (success ==> |request| < U32 && Exchanged(l, m, request, frames))
    }

    /** Reading leaves everything but the read position and the pool as it is, and the pool sound. */
    twostate predicate Received()
      reads this, net, bufferPool, bufferPool.free
    {
      && net.Valid() && connection == old(connection) && connection < |old(net.links)| == |net.links|
      && net.links == old(net.links)[connection := net.links[connection]]
      && ReadOn(old(net.links[connection]), net.links[connection])
      && bufferPool.Valid() && bufferPool.lent == 0 && fresh(bufferPool.free - old(bufferPool.free))
    }

    ghost predicate CanReceive()
      reads this, net, bufferPool, bufferPool.free
    {
      && net.Valid() && connection < |net.links|
      && bufferPool.Valid() && bufferPool.size == maxMessageSize && bufferPool.lent == 0
    }

    /** Set the deadline and read one frame into a buffer. */
    method ReadNext(response: array<byte>) returns (frame: Payload, err: Option<IoError>)
      requires net.Valid() && connection < |net.links| && response.Length == maxMessageSize
      modifies net`links, net`faults, net`deadlines, response
      ensures net.Valid() && |net.links| == |old(net.links)|
      ensures var l, m := old(net.links[connection]), net.links[connection];
              && net.links == old(net.links)[connection := m] && ReadOn(l, m)
              && (err.None? ==> Unread(l) == Frame(frame) + Unread(m))
              && (err.Some? && net.faults == old(net.faults) ==> ReadFrame(Unread(l), maxMessageSize % U32).TooLarge?)
      ensures Blamed(old(net.faults), net.faults, err)
      ensures net.deadlines == old(net.deadlines) + 1
    {
      frame := [];
      err := net.SetDeadline(connection);
      if err.Some? {
        return;
      }
      var n;
      n, err := ReadFrameInto(net, connection, maxMessageSize, response);
      frame := response[..n];
    }

    /** Read one frame through a pooled buffer and hand out a copy of it. The buffer goes back
        wiped; the copy is the caller's alone. */
    method Receive() returns (r: SendResult)
      requires CanReceive()
      modifies net`links, net`faults, bufferPool, bufferPool.free
      ensures Received()
      ensures r.Ok? ==> fresh(r.reply) && r.reply !in bufferPool.free && r.reply.Length < U32
      ensures r.Ok? ==> r.reply.Length <= maxMessageSize % U32
      ensures r.Ok? ==> Unread(old(net.links[connection])) == Frames([r.reply[..]]) + Unread(net.links[connection])
      ensures r.Fail? && net.faults == old(net.faults) ==>
                ReadFrame(Unread(old(net.links[connection])), maxMessageSize % U32).TooLarge?
      ensures Blamed(old(net.faults), net.faults, if r.Ok? then None else Some(r.error))
    {
      hide ReadFrame, Frames, Frame, Sent, Flatten;
      var response := bufferPool.Get();
      var n, err := ReadFrameInto(net, connection, maxMessageSize, response);
      if err.Some? {
        bufferPool.Put(response);
        return Fail(err.value);
      }
      var result := new byte[n](i requires 0 <= i < n reads response => response[i]);
      assert result[..] == response[..n];
      FramesOne(result[..]);
      bufferPool.Put(response);
      return Ok(result);
    }

    method Send(request: Bytes) returns (r: SendResult)
      requires Base() && MaySend(request)
      modifies this`log, net`links, net`faults, net`deadlines, bufferPool, bufferPool.free
      ensures Base() && fresh(bufferPool.free - old(bufferPool.free))
      ensures r.Ok? ==> fresh(r.reply) && r.reply !in bufferPool.free && r.reply.Length < U32
      ensures r.Ok? ==> r.reply.Length <= maxMessageSize % U32
      ensures Used(request, r.Ok?, if r.Ok? then [r.reply[..]] else [])
      ensures Refusal(old(net.links[connection]), request, maxMessageSize, if r.Ok? then None else Some(r.error))
      ensures r.Fail? && net.faults == old(net.faults) ==>
                || TooLong(request, maxMessageSize)
                || ReadFrame(Unread(old(net.links[connection])), maxMessageSize % U32).TooLarge?
      ensures Blamed(old(net.faults), net.faults, if r.Ok? then None else Some(r.error))
      ensures log == old(log) + [Sending(request, false, Unused(old(net.links[connection])),
                                         if r.Ok? then None else Some(r.error))]
      ensures net.deadlines == old(net.deadlines) + if |request| > maxMessageSize then 0 else 1
    {
      hide Settled, HelloFirst, Ready, Attempted, Exchanged, Fresh, Unread, Frames, Gather, StatusFrame,
        ReadFrame, Unused;
      ghost var l := net.links[connection];
      var err := Transmit(request);
      if err.Some? {
        TriedKeepsHandshake(l, net.links[connection], token, request);
        log := log + [Sending(request, false, Unused(l), err)];
        return Fail(err.value);
      }
      ghost var mid := net.links[connection];
      r := Receive();
      TriedThenRead(l, mid, net.links[connection], request, if r.Ok? then [r.reply[..]] else []);
      TriedKeepsHandshake(l, net.links[connection], token, request);
      log := log + [Sending(request, false, Unused(l), if r.Ok? then None else Some(r.error))];
    }

    /** The loop of `SendChunked`: append `nxt` data, stop at the first `ok` or `err` frame. */
    method ReadChunks(response: array<byte>) returns (r: SendResult, ghost frames: seq<Payload>)
      requires net.Valid() && connection < |net.links| && response.Length == maxMessageSize
      modifies net`links, net`faults, net`deadlines, response
      ensures net.Valid() && |net.links| == |old(net.links)|
      ensures var l, m := old(net.links[connection]), net.links[connection];
              && net.links == old(net.links)[connection := m] && ReadOn(l, m)
              && (r.Ok? ==> Unread(l) == Frames(frames) + Unread(m))
      ensures r.Ok? ==>
                && fresh(r.reply) && Gather(frames, []).Whole?
                && r.reply[..] == StatusFrame(Gather(frames, []).status, Gather(frames, []).data)
      ensures r.Fail? && net.faults == old(net.faults) ==>
                || Gather(frames, []).Malformed?
                || Overlong(Unread(old(net.links[connection])), frames, maxMessageSize)
      ensures Blamed(old(net.faults), net.faults, if r.Ok? then None else Some(r.error))
      ensures r.Ok? ==> net.deadlines == old(net.deadlines) + |frames|
    {
      ghost var l := net.links[connection];
      var body: Bytes := [];
      frames := [];
      while true
        invariant net.Valid() && |net.links| == |old(net.links)|
        invariant net.links == old(net.links)[connection := net.links[connection]]
        invariant ReadOn(l, net.links[connection])
        invariant Unread(l) == Frames(frames) + Unread(net.links[connection])
        invariant Gather(frames, []) == More(body) && net.faults == old(net.faults)
        invariant net.deadlines == old(net.deadlines) + |frames|
        decreases |Unread(net.links[connection])|
      {
        ghost var rest := Unread(net.links[connection]);
        var frame, err := ReadNext(response);
        if err.Some? {
          if net.faults == old(net.faults) { OverlongAfter(Unread(l), frames, rest, maxMessageSize); }
          return Fail(err.value), frames;
        }
        FramesSnoc(frames, frame, Unread(net.links[connection]));
        GatherSnoc(frames, frame, body);
        frames := frames + [frame];
        match ChunkOf(frame) {
          case Next(data) => body := body + data;
          case Last(data) =>
            var reply := JoinStatusAndData("ok", body + data);
            return Ok(reply), frames;
          case Error(data) =>
            var reply := JoinStatusAndData("err", data);
            return Ok(reply), frames;
          case NotAChunk => return Fail(OtherError), frames;
        }
      }
    }

    method ReceiveChunks() returns (r: SendResult, ghost frames: seq<Payload>)
      requires CanReceive()
      modifies net`links, net`faults, net`deadlines, bufferPool, bufferPool.free
      ensures Received()
      ensures r.Ok? ==>
                && Unread(old(net.links[connection])) == Frames(frames) + Unread(net.links[connection])
                && fresh(r.reply) && r.reply !in bufferPool.free && Gather(frames, []).Whole?
                && r.reply[..] == StatusFrame(Gather(frames, []).status, Gather(frames, []).data)
      ensures r.Fail? && net.faults == old(net.faults) ==>
                || Gather(frames, []).Malformed?
                || Overlong(Unread(old(net.links[connection])), frames, maxMessageSize)
      ensures Blamed(old(net.faults), net.faults, if r.Ok? then None else Some(r.error))
      ensures r.Ok? ==> net.deadlines == old(net.deadlines) + |frames|
    {
      hide Overlong;
      var response := bufferPool.Get();
      r, frames := ReadChunks(response);
      bufferPool.Put(response);
    }

    method SendChunked(request: Bytes) returns (r: SendResult, ghost frames: seq<Payload>)
      requires Base() && MaySend(request)
      modifies this`log, net`links, net`faults, net`deadlines, bufferPool, bufferPool.free
      ensures Base() && fresh(bufferPool.free - old(bufferPool.free))
      ensures r.Ok? ==>
                && fresh(r.reply) && r.reply !in bufferPool.free && Gather(frames, []).Whole?
                && r.reply[..] == StatusFrame(Gather(frames, []).status, Gather(frames, []).data)
      ensures Used(request, r.Ok?, frames)
      ensures Refusal(old(net.links[connection]), request, maxMessageSize, if r.Ok? then None else Some(r.error))
      ensures r.Fail? && net.faults == old(net.faults) ==>
                || TooLong(request, maxMessageSize) || Gather(frames, []).Malformed?
                || Overlong(Unread(old(net.links[connection])), frames, maxMessageSize)
      ensures Blamed(old(net.faults), net.faults, if r.Ok? then None else Some(r.error))
      ensures log == old(log) + [Sending(request, true, Unused(old(net.links[connection])),
                                         if r.Ok? then None else Some(r.error))]
      ensures r.Ok? ==> net.deadlines == old(net.deadlines) + 1 + |frames|
    {
      hide Settled, HelloFirst, Ready, Attempted, Exchanged, Fresh, Unread, Frames, Gather, StatusFrame,
        Overlong, Unused;
      frames := [];
      ghost var l := net.links[connection];
      var err := Transmit(request);
      if err.Some? {
        TriedKeepsHandshake(l, net.links[connection], token, request);
        log := log + [Sending(request, true, Unused(l), err)];
        return Fail(err.value), [];
      }
      ghost var mid := net.links[connection];
      r, frames := ReceiveChunks();
      TriedThenRead(l, mid, net.links[connection], request, frames);
      TriedKeepsHandshake(l, net.links[connection], token, request);
      log := log + [Sending(request, true, Unused(l), if r.Ok? then None else Some(r.error))];
    }

    method ReadEvents(response: array<byte>, accepts: seq<Payload> -> bool)
      returns (events: seq<Payload>, failure: Option<IoError>)
      requires net.Valid() && connection < |net.links| && response.Length == maxMessageSize
      modifies net`links, net`faults, net`deadlines, response
      ensures net.Valid() && |net.links| == |old(net.links)|
      ensures var l, m := old(net.links[connection]), net.links[connection];
              && net.links == old(net.links)[connection := m] && ReadOn(l, m)
              && Frames(events) <= Unread(l)
              && (failure.None? ==> Unread(l) == Frames(events) + Unread(m))
              && (failure.Some? && net.faults == old(net.faults) ==> Overlong(Unread(l), events, maxMessageSize))
      ensures Blamed(old(net.faults), net.faults, failure)
      ensures Handled(events, failure, accepts)
      ensures net.deadlines == old(net.deadlines) + |events| + if failure.None? then 0 else 1
    {
      assert Frames([]) == [];
      hide ReadFrame, Frame, Frames, Flatten, Overlong;
      ghost var l := net.links[connection];
      events := [];
      while true
        invariant net.Valid() && |net.links| == |old(net.links)|
        invariant net.links == old(net.links)[connection := net.links[connection]]
        invariant ReadOn(l, net.links[connection])
        invariant Unread(l) == Frames(events) + Unread(net.links[connection]) && net.faults == old(net.faults)
        invariant net.deadlines == old(net.deadlines) + |events| && AllAccepted(events, accepts)
        decreases |Unread(net.links[connection])|
      {
        ghost var rest := Unread(net.links[connection]);
        var frame, err := ReadNext(response);
        if err.Some? {
          if net.faults == old(net.faults) { OverlongAfter(Unread(l), events, rest, maxMessageSize); }
          return events, err;
        }
        FramesSnoc(events, frame, Unread(net.links[connection]));
        AcceptedOn(events, frame, accepts);
        events := events + [frame];
        if !accepts(events) {
          return events, None;
        }
      }
    }

    method ReceiveEvents(accepts: seq<Payload> -> bool) returns (events: seq<Payload>, failure: Option<IoError>)
      requires CanReceive()
      modifies net`links, net`faults, net`deadlines, bufferPool, bufferPool.free
      ensures Received()
      ensures Frames(events) <= Unread(old(net.links[connection]))
      ensures failure.None? ==> Unread(old(net.links[connection])) == Frames(events) + Unread(net.links[connection])
      ensures failure.Some? && net.faults == old(net.faults) ==>
                Overlong(Unread(old(net.links[connection])), events, maxMessageSize)
      ensures Blamed(old(net.faults), net.faults, failure)
      ensures Handled(events, failure, accepts)
      ensures net.deadlines == old(net.deadlines) + |events| + if failure.None? then 0 else 1
    {
      hide Overlong;
      var response := bufferPool.Get();
      events, failure := ReadEvents(response, accepts);
      bufferPool.Put(response);
    }

    /** `Stream`: every frame that arrives is handed on once and in order, until the connection
        fails or the handler, whose answer may depend on all it has been given, refuses one. */
    method Stream(request: Bytes, accepts: seq<Payload> -> bool)
      returns (events: seq<Payload>, failure: Option<IoError>)
      requires Base() && MaySend(request)
      modifies this`log, net`links, net`faults, net`deadlines, bufferPool, bufferPool.free
      ensures Base() && fresh(bufferPool.free - old(bufferPool.free))
      ensures events != [] ==> Frames(events) <= Unread(old(net.links[connection]))
      ensures Used(request, failure.None?, events)
      ensures Refusal(old(net.links[connection]), request, maxMessageSize, failure)
      ensures failure.Some? && net.faults == old(net.faults) ==>
                TooLong(request, maxMessageSize) || Overlong(Unread(old(net.links[connection])), events, maxMessageSize)
      ensures Blamed(old(net.faults), net.faults, failure)
      ensures failure.None? ==> Stopped(old(net.links[connection]), net.links[connection], events)
      ensures log == old(log) + [Streaming(request, Unused(old(net.links[connection])), failure)]
      ensures Handled(events, failure, accepts)
      ensures failure.None? ==> net.deadlines == old(net.deadlines) + 1 + |events|
    {
      hide Unused, InStep, Requests, Settled, HelloFirst, Ready, Attempted, Exchanged, Fresh, Unread, Frames, Gather,
        StatusFrame, Overlong;
      ghost var l := net.links[connection];
      var err := Transmit(request);
      if err.Some? {
        TriedKeepsHandshake(l, net.links[connection], token, request);
        log := log + [Streaming(request, Unused(l), err)];
        return [], err;
      }
      ghost var mid := net.links[connection];
      events, failure := ReceiveEvents(accepts);
      TriedThenRead(l, mid, net.links[connection], request, events);
      if failure.None? && InStep(l) { StepAfterExchange(l, net.links[connection], request, events); }
      TriedKeepsHandshake(l, net.links[connection], token, request);
      log := log + [Streaming(request, Unused(l), failure)];
    }

    // ---------------------------------------------------------- connecting

    method SetMaxMessageSizeUnsafe(size: nat)
      modifies this`maxMessageSize, this`bufferPool
      ensures maxMessageSize == size && fresh(bufferPool)
      ensures bufferPool.Valid() && bufferPool.size == size && bufferPool.free == {} && bufferPool.lent == 0
    {
      maxMessageSize := size;
      bufferPool := new Pool(size);
    }

    /** The handshake on a connection just dialled. Success settles a size that fits 31 bits. */
    method Hello() returns (err: Option<ConnectError>)
      requires Base() && connection < |net.links| && Fresh(net.links[connection])
      modifies this`maxMessageSize, this`bufferPool, this`log,
        net`links, net`faults, net`deadlines, bufferPool, bufferPool.free
      ensures Base() && |net.links| == |old(net.links)|
      ensures fresh(bufferPool) || bufferPool == old(bufferPool)
      ensures fresh(bufferPool.free - old(bufferPool.free))
      ensures var l, m := old(net.links[connection]), net.links[connection];
              && net.links == old(net.links)[connection := m] && Tried(l, m, HelloRequest(token))
              && (err.None? ==> Ready(m, token) && 1 <= maxMessageSize < U31)
              && (err.None? ==> Agreement(l, m, token, maxMessageSize))
              && (err.Some? ==> maxMessageSize == old(maxMessageSize) && bufferPool == old(bufferPool))
              && (err.Some? && net.faults == old(net.faults) ==>
                    || TooLong(HelloRequest(token), maxMessageSize)
                    || ReadFrame(Unread(l), maxMessageSize % U32).TooLarge?
                    || exists reply: Payload ::
                         Exchanged(l, m, HelloRequest(token), [reply]) && Judge(reply) == Refused(err.value))
      ensures |HelloRequest(token)| > old(maxMessageSize) ==> err == Some(SendFailed(OtherError))
      ensures LockedOut(token, old(maxMessageSize)) ==> err.Some?
      ensures Commands(log) == Commands(old(log)) && HelloBlamed(old(net.faults), net.faults, err)
    {
      hide HelloFirst, Ready, Tried, Fresh, Welcome, Judge, Exchanged, ReadFrame, Commands, Unused;
      ghost var l := net.links[connection];
      assert Unused(l) by { assert Fresh(l); FreshIsUnused(l); }
      var r := Send(HelloRequest(token));
      CommandsSnoc(old(log), log[|log| - 1]);
      if r.Fail? {
        return Some(SendFailed(r.error));
      }
      var verdict := Judge(r.reply[..]);
      if verdict.Refused? {
        return Some(verdict.error);
      }
      Replies.HelloIsLong(r.reply[..]) by { assert Welcome(r.reply[..]); WelcomeParses(r.reply[..]); }
      HelloAnswered(l, net.links[connection], token, r.reply[..]);
      assert HelloDone(l, net.links[connection], token, r.reply[..], verdict.maxMessageSize);
      SetMaxMessageSizeUnsafe(verdict.maxMessageSize);
      return None;
    }

    /** The second half of `connect`: shake hands on the connection just dialled, or close it. */
    method Greet() returns (err: Option<ConnectError>)
      requires Base() && connection < |net.links| && Fresh(net.links[connection])
      modifies this`maxMessageSize, this`bufferPool, this`log,
        net`links, net`faults, net`deadlines, bufferPool, bufferPool.free
      ensures Base() && |net.links| == |old(net.links)|
      ensures net.links == old(net.links)[connection := net.links[connection]]
      ensures OnlyHello(net.links[connection], token) && Shaken(err.None?)
      ensures err.Some? ==> maxMessageSize == old(maxMessageSize) && bufferPool == old(bufferPool)
      ensures fresh(Footprint() - old(Footprint()))
      ensures LockedOut(token, old(maxMessageSize)) ==> err.Some?
      ensures err.Some? && net.faults == old(net.faults) && !LockedOut(token, old(maxMessageSize)) ==>
                Unwelcome(net.links[connection], old(maxMessageSize))
      ensures HelloBlamed(old(net.faults), net.faults, err)
      ensures Commands(log) == Commands(old(log))
    {
      hide Settled, Judge, HelloFirst, OnlyHello, OneFrameHello, Greeting, Greeted, Tried, Fresh, Agreement,
        LinkOk, Commands;
      ghost var l := net.links[connection];
      err := Hello();
      ghost var m := net.links[connection];
      OnlyHelloTried(l, m, token);
      if err.Some? {
        if net.faults == old(net.faults) && !LockedOut(token, maxMessageSize) {
          NotWelcomed(l, m, token, maxMessageSize, err.value);
        }
        CloseKeeps(m, token);
        net.Close(connection);
      } else {
        AgreementOpens(l, m, token, maxMessageSize);
      }
    }

    /** After a handshake: a usable open connection, in step if the server gave HELLO the one frame
        it asks for, and the size it announced. After a failed one: a dead connection. */
    ghost predicate Shaken(success: bool)
      requires connection < |net.links|
      reads this, net
    {
      var m := net.links[connection];
      && m.open == success && Ready(m, token)
      && (success ==> Settled(m, maxMessageSize) && 1 <= maxMessageSize < U31)
      && (success && OneFrameHello(m) ==> Greeting(m, token))
    }

    /** The first half of `connect`: a connection nothing has been sent on yet. */
    method Dial() returns (up: bool)
      requires Base()
      modifies this`connection, net
      ensures Base()
      ensures net.dials == old(net.dials) + 1 && net.faults == old(net.faults) + if up then [] else [NotDialled]
      ensures !up ==> net.links == old(net.links) && connection == old(connection)
      ensures up ==>
                && connection == |old(net.links)| && |net.links| == |old(net.links)| + 1
                && net.links[..|old(net.links)|] == old(net.links) && Fresh(net.links[connection])
    {
      var dialled := net.Dial();
      if dialled.None? {
        return false;
      }
      connection := dialled.value;
      HelloFirstSnoc(old(net.links), net.links[connection], token);
      assert net.links == old(net.links) + [net.links[connection]];
      return true;
    }

    /** `connect`: at most one new connection, on which nothing but HELLO was sent; the older ones
        stay as they were, and on failure so does the negotiated size. */
    method Connect() returns (err: Option<ConnectError>)
      requires Base() && (connection < |net.links| ==> !net.links[connection].open)
      modifies this`connection, this`maxMessageSize, this`bufferPool, this`log, net, bufferPool, bufferPool.free
      ensures Base()
      ensures Dialled(|old(net.links)|, old(connection)) && net.links[..|old(net.links)|] == old(net.links)
      ensures err.None? ==> |net.links| == |old(net.links)| + 1
      ensures connection < |net.links| ==> Shaken(err.None?)
      ensures err.Some? ==> maxMessageSize == old(maxMessageSize) && bufferPool == old(bufferPool)
      ensures fresh(Footprint() - old(Footprint()))
      ensures LockedOut(token, old(maxMessageSize)) ==> err.Some?
      ensures err.Some? && net.faults == old(net.faults) && !LockedOut(token, old(maxMessageSize)) ==>
                && |net.links| == |old(net.links)| + 1 && connection == |old(net.links)|
                && Unwelcome(net.links[connection], old(maxMessageSize))
      ensures Commands(log) == Commands(old(log)) && net.dials == old(net.dials) + 1
      ensures ConnectBlamed(old(net.faults), net.faults, err)
    {
      hide Settled, Judge, HelloFirst, OnlyHello, OneFrameHello, Greeting, Greeted, Commands;
      var up := Dial();
      if !up {
        return Some(DialFailed);
      }
      err := Greet();
    }

    ghost predicate Dialled(before: nat, previous: nat)
      reads this, net
    {
      || (|net.links| == before && connection == previous)
      || (|net.links| == before + 1 && connection == before && OnlyHello(net.links[connection], token))
    }

    /** `Reconnect`: close what there is, dial and shake hands again. */
    method Reconnect() returns (err: Option<ConnectError>)
      requires Valid()
      modifies this`connection, this`maxMessageSize, this`bufferPool, this`log, net, bufferPool, bufferPool.free
      ensures Valid() && Shaken(err.None?)
      ensures Dialled(|old(net.links)|, old(connection))
      ensures net.links[..|old(net.links)|]
           == old(net.links)[old(connection) := old(net.links[connection]).(open := false)]
      ensures err.None? ==> |net.links| == |old(net.links)| + 1
      ensures err.Some? ==> maxMessageSize == old(maxMessageSize) && bufferPool == old(bufferPool)
      ensures fresh(Footprint() - old(Footprint()))
      ensures LockedOut(token, old(maxMessageSize)) ==> err.Some?
      ensures err.Some? && net.faults == old(net.faults) && !LockedOut(token, old(maxMessageSize)) ==>
                && |net.links| == |old(net.links)| + 1 && connection == |old(net.links)|
                && Unwelcome(net.links[connection], old(maxMessageSize))
      ensures Commands(log) == Commands(old(log)) + [Redialling(err.None?)] && net.dials == old(net.dials) + 1
      ensures ConnectBlamed(old(net.faults), net.faults, err)
    {
      hide Settled, Judge, HelloFirst, OnlyHello, OneFrameHello, Greeting, Greeted, Commands;
      CloseKeeps(net.links[connection], token);
      net.Close(connection);
      err := Connect();
      CommandsSnoc(log, Redialling(err.None?));
      log := log + [Redialling(err.None?)];
    }
  }

  const AUTHENTICATION_FAILED: nat := 3002

  datatype ConnectError =
    | DialFailed
    | SendFailed(error: IoError)
    | BadReply
    | AuthFailed
    | Rejected(reason: Replies.ServerError)
    | WrongVersion(version: nat)

  /** A handshake reports the failed call it came to grief on, and a closed connection only then. */
  ghost predicate HelloBlamed(before: seq<Fault>, after: seq<Fault>, err: Option<ConnectError>) {
    if after == before then err != Some(DialFailed) && err != Some(SendFailed(ConnClosed))
    else err.Some? && err.value.SendFailed? && after == before + [CallFailed(err.value.error)]
  }

  /** So does a connect, and a failed dial as that. */
  ghost predicate ConnectBlamed(before: seq<Fault>, after: seq<Fault>, err: Option<ConnectError>) {
    if err == Some(DialFailed) then after == before + [NotDialled] else HelloBlamed(before, after, err)
  }

  datatype Verdict = Agreed(maxMessageSize: nat) | Refused(error: ConnectError)

  /** What `hello` makes of the server's answer. A rejected token is told from other refusals. */
  function Judge(reply: Bytes): (v: Verdict)
    ensures v.Agreed? <==> Welcome(reply)
    ensures v.Agreed? ==> 1 <= v.maxMessageSize < U31
    ensures v.Refused? ==> !v.error.DialFailed? && !v.error.SendFailed?
  {
    match Replies.ParseHello(reply)
    case Bad(_) => Refused(BadReply)
    case Ok(Failure(error)) =>
      Refused(if error.Protocol? && error.code == AUTHENTICATION_FAILED then AuthFailed else Rejected(error))
    case Ok(Success(info)) =>
      if info.version != VERSION then Refused(WrongVersion(info.version)) else Agreed(info.maxMessageSize)
  }

  /** What a server announces is what the client settles on, if it is a version 1 server. */
  lemma JudgeOfWelcome(h: Replies.Hello, reply: Bytes)
    requires h.version < U64 && 1 <= h.maxMessageSize < U31 && Replies.SEMI !in h.role
    requires reply == Replies.HelloReply(h)
    ensures Judge(reply) == if h.version == 1 then Agreed(h.maxMessageSize) else Refused(WrongVersion(h.version))
  {
    hide Replies.HelloReply, Replies.ParseHello;
    Replies.HelloRoundTrip(h);
  }

  /** What is neither an `ok` nor an `err` is a bad reply. */
  lemma JudgeOfGarbage(reply: Bytes)
    requires !("ok|" <= reply) && !("err|" <= reply)
    ensures Judge(reply) == Refused(BadReply)
  {
    hide Replies.Open;
    Replies.OpenExactly(reply);
  }

  /** A refusal arrives as what it is, a rejected token told from the others. */
  lemma JudgeOfRefusal(code: nat, message: string, reply: Bytes)
    requires code <= 9999 && reply == "err|" + Format(code) + "|" + message
    ensures Judge(reply) ==
            Refused(if code == 3002 then AuthFailed else Rejected(Replies.Protocol(code, message)))
  {
    hide Replies.Open, Format;
    Replies.ErrorRoundTrip(code, message);
  }

  ghost predicate HelloDone(l: Link, m: Link, token: Bytes, reply: Payload, size: nat) {
    && |HelloRequest(token)| < U32 && Fresh(l) && Exchanged(l, m, HelloRequest(token), [reply])
    && Judge(reply) == Agreed(size)
  }

  /** HELLO was answered on this connection, and with this size. */
  ghost predicate Agreement(l: Link, m: Link, token: Bytes, size: nat) {
    exists reply: Payload :: HelloDone(l, m, token, reply, size)
  }

  /** Nothing but HELLO, perhaps not all of it, was ever sent on this connection. */
  ghost predicate OnlyHello(l: Link, token: Bytes) {
    var hello := HelloRequest(token);
    LinkOk(l) && if |hello| < U32 then l.out <= Frame(hello) else l.out == []
  }

  /** A size that HELLO itself is too long for, or every answer to it that settles anything. */
  ghost predicate LockedOut(token: Bytes, maxMessageSize: nat) {
    TooLong(HelloRequest(token), maxMessageSize) || maxMessageSize % U32 < |Replies.SHORTEST_HELLO|
  }

  /** What the server sends first is no welcome, or not one within the size. */
  ghost predicate Unwelcome(l: Link, maxMessageSize: nat) {
    LinkOk(l) ==> var first := ReadFrame(Incoming(l), maxMessageSize % U32); first.Message? ==> !Welcome(first.payload)
  }

  lemma WelcomeParses(reply: Bytes)
    requires Welcome(reply)
    ensures Replies.ParseHello(reply).Ok? && Replies.ParseHello(reply).value.Success?
  {
  }

  lemma NotWelcomed(l: Link, m: Link, token: Bytes, maxMessageSize: nat, error: ConnectError)
    requires Fresh(l) && Tried(l, m, HelloRequest(token)) && !TooLong(HelloRequest(token), maxMessageSize)
    requires || ReadFrame(Unread(l), maxMessageSize % U32).TooLarge?
             || exists reply: Payload ::
                  Exchanged(l, m, HelloRequest(token), [reply]) && Judge(reply) == Refused(error)
    ensures Unwelcome(m, maxMessageSize)
  {
    hide Judge, Welcome, Frame, Frames, ReadFrame, HelloRequest;
    assert Incoming(m) == Incoming(l) == Unread(l);
    if !ReadFrame(Unread(l), maxMessageSize % U32).TooLarge? {
      var reply: Payload :| Exchanged(l, m, HelloRequest(token), [reply]) && Judge(reply) == Refused(error);
      FramesOne(reply);
      if |reply| <= maxMessageSize % U32 {
        ReadOfFrame(reply, Unread(m), maxMessageSize % U32);
      } else {
        ReadOfOversizeFrame(reply, Unread(m), maxMessageSize % U32);
      }
    }
  }

  /** The condition is exact: no answer of any server can bring a locked out client back, and one
      that is not locked out has an answer that would. */
  lemma LockedOutExactly(token: Bytes, maxMessageSize: nat)
    ensures LockedOut(token, maxMessageSize) <==>
            || TooLong(HelloRequest(token), maxMessageSize)
            || forall reply: Bytes | Welcome(reply) :: |reply| > maxMessageSize % U32
  {
    hide HelloRequest, Welcome, Announcement, Replies.ParseHello, Judge;
    forall reply: Bytes | Welcome(reply) ensures |reply| >= |Replies.SHORTEST_HELLO| {
      WelcomeParses(reply);
      Replies.HelloIsLong(reply);
    }
    Announces(1);
    assert |Announcement(1)| == |Replies.SHORTEST_HELLO|;
  }

  /** An answer that announces a size. */
  function Announcement(size: nat): (reply: Bytes)
    ensures reply == Replies.HelloReply(Replies.Hello(VERSION, size, false, ""))
  {
    var h := Replies.Hello(VERSION, size, false, "");
    AnnouncementIsPlain(size);
    Replies.HelloReply(h)
  }

  lemma AnnouncementIsPlain(size: nat)
    ensures Replies.HelloReply(Replies.Hello(VERSION, size, false, "")) == "ok|1;" + Format(size) + ";0;"
    ensures forall c | c in Format(size) :: c as int < 256
  {
    hide Join;
    var none, zero := [""], ["0"] + [""];
    var sized := [Format(size)] + zero;
    assert Replies.HelloFields(Replies.Hello(VERSION, size, false, "")) == ["1"] + sized;
    JoinCons("1", sized, Replies.SEMI);
    JoinCons(Format(size), zero, Replies.SEMI);
    JoinCons("0", none, Replies.SEMI);
    JoinOne("", Replies.SEMI);
  }

  /** A server can announce any size there is, those that lock a client out included. */
  lemma Announces(size: nat)
    requires 1 <= size < U31
    ensures Welcome(Announcement(size)) && Judge(Announcement(size)) == Agreed(size)
    ensures size == 1 ==> Announcement(size) == Replies.SHORTEST_HELLO
  {
    hide Replies.ParseHello, Replies.HelloReply, Format;
    JudgeOfWelcome(Replies.Hello(VERSION, size, false, ""), Announcement(size));
    if size == 1 { AnnouncementIsPlain(1); assert Format(1) == "1" by { FormatOne(); } }
  }

  lemma FormatOne()
    ensures Format(1) == "1"
  {
  }

  /** The server's answer to HELLO is one frame. */
  ghost predicate OneFrameHello(l: Link) {
    |l.replies| > 0 ==> |l.replies[0]| == 1
  }

  ghost predicate Greeting(l: Link, token: Bytes) {
    InStep(l) && Requests(l) == [HelloRequest(token)]
  }

  lemma HelloFirstSnoc(links: seq<Link>, l: Link, token: Bytes)
    requires AllHelloFirst(links, token) && Fresh(l)
    ensures AllHelloFirst(links + [l], token)
  {
  }

  lemma CloseKeeps(l: Link, token: Bytes)
    ensures LinkOk(l) ==> LinkOk(l.(open := false))
    ensures HelloFirst(l, token) ==> HelloFirst(l.(open := false), token)
    ensures OnlyHello(l, token) ==> OnlyHello(l.(open := false), token)
    ensures forall size | Unwelcome(l, size) :: Unwelcome(l.(open := false), size)
  {
    var m := l.(open := false);
    assert Wire.Sent(m) == Wire.Sent(l);
    assert LinkOk(l) ==> Incoming(m) == Incoming(l);
  }

  lemma OnlyHelloTried(l: Link, m: Link, token: Bytes)
    requires Fresh(l) && Tried(l, m, HelloRequest(token))
    ensures OnlyHello(m, token)
  {
    if |HelloRequest(token)| < U32 { assert l.out + Frame(HelloRequest(token)) == Frame(HelloRequest(token)); }
  }

  lemma HelloSettles(l: Link, m: Link, token: Bytes, reply: Payload, size: nat)
    requires HelloDone(l, m, token, reply, size)
    ensures Settled(m, size)
  {
    hide Judge, Frame, ReadFrame, HelloRequest;
    FramesOne(reply);
    ReadOfFrame(reply, Unread(m), U32);
    assert Incoming(m) == Incoming(l) == Unread(l);
  }

  lemma AgreementOpens(l: Link, m: Link, token: Bytes, size: nat)
    requires Agreement(l, m, token, size)
    ensures m.open && Settled(m, size) && (OneFrameHello(m) ==> Greeting(m, token))
  {
    hide Settled, Judge;
    var reply: Payload :| HelloDone(l, m, token, reply, size);
    assert HelloDone(l, m, token, reply, size);
    HelloSettles(l, m, token, reply, size);
    if OneFrameHello(m) {
      FreshInStep(l);
      PairsRequestAndReply(l, m, HelloRequest(token), [reply], false);
    }
  }

  /** `NewTCPClient`: a client whose first connection is up, or none at all. */
  method NewTCPClient(token: Bytes, maxMessageSize: nat)
    returns (client: Option<TCPClient>, err: Option<ConnectError>, ghost net: Network)
    ensures client.Some? <==> err.None?
    ensures client.Some? ==>
              && client.value.Valid() && fresh(client.value)
              && client.value.token == token && |client.value.net.links| == 1
              && client.value.net.links[client.value.connection].open && client.value.net.dials == 1
              && SaysHello(client.value.net.links[0], token)
    ensures LockedOut(token, maxMessageSize) ==> err.Some?
    ensures ConnectBlamed([], net.faults, err) && net.dials == 1
    ensures err.Some? && net.faults == [] && !LockedOut(token, maxMessageSize) ==>
              |net.links| == 1 && Unwelcome(net.links[0], maxMessageSize)
  {
    hide LockedOut, SaysHello, HelloFirst, Ready, Settled, OnlyHello, OneFrameHello, Greeting, Greeted, Commands,
      LinkOk, Unwelcome, ConnectBlamed, HelloBlamed, Requests;
    var sockets := new Network();
    net := sockets;
    var c := new TCPClient(sockets, token, maxMessageSize);
    err := c.Connect();
    if err.None? { HelloFirstSays(sockets.links[0], token); }
    client := if err.None? then Some(c) else None;
  }

  datatype Use =
    | OneReply(request: Bytes)
    | ManyChunks(request: Bytes)
    | Events(request: Bytes, accepts: seq<Payload> -> bool)
    | Redial

  /** Any run of sends, streams and reconnects, whatever fails on the way: every connection there has
      been carries HELLO first, with the token, and more only after an `ok` of version 1; and every
      pooled buffer is wiped and of the size now in force. A client that is locked out stays so: once
      its connection is gone no reconnect ever brings one back. */
  method AnyRun(client: TCPClient, uses: seq<Use>)
    requires client.Valid()
    modifies client.Footprint()
    ensures client.Valid()
    ensures forall i | 0 <= i < |client.net.links| ::
              HelloFirst(client.net.links[i], client.token) && SaysHello(client.net.links[i], client.token)
    ensures client.net.links[client.connection].open ==> Requests(client.net.links[client.connection]) != []
    ensures forall b | b in client.bufferPool.free :: b.Length == client.maxMessageSize && Wiped(b)
    ensures LockedOut(client.token, old(client.maxMessageSize)) ==>
              && client.maxMessageSize == old(client.maxMessageSize)
              && (!old(client.net.links[client.connection].open) || Redial in uses ==>
                    !client.net.links[client.connection].open)
  {
    hide SaysHello, Requests, LockedOut, Settled, HelloFirst, Ready, Tried, Exchanged, LinkOk, Gather;
    for k := 0 to |uses|
      invariant client.Valid() && fresh(client.Footprint() - old(client.Footprint()))
      invariant LockedOut(client.token, old(client.maxMessageSize)) ==>
                  && client.maxMessageSize == old(client.maxMessageSize)
                  && (!old(client.net.links[client.connection].open) || Redial in uses[..k] ==>
                        !client.net.links[client.connection].open)
    {
      UseOnce(client, uses[k]);
    }
    forall i | 0 <= i < |client.net.links| ensures SaysHello(client.net.links[i], client.token) {
      HelloFirstSays(client.net.links[i], client.token);
    }
    HelloFirstSays(client.net.links[client.connection], client.token);
  }

  method UseOnce(client: TCPClient, use: Use)
    requires client.Valid()
    modifies client.Footprint()
    ensures client.Valid() && fresh(client.Footprint() - old(client.Footprint()))
    ensures LockedOut(client.token, old(client.maxMessageSize)) ==>
              && client.maxMessageSize == old(client.maxMessageSize)
              && (!old(client.net.links[client.connection].open) || use.Redial? ==>
                    !client.net.links[client.connection].open)
  {
    hide LockedOut, Settled, HelloFirst, Ready, Tried, Exchanged, LinkOk, Gather, OnlyHello, OneFrameHello, Greeting;
    match use {
      case OneReply(request) => var _ := client.Send(request);
      case ManyChunks(request) => var _, _ := client.SendChunked(request);
      case Events(request, accepts) => var _, _ := client.Stream(request, accepts);
      case Redial => var _ := client.Reconnect();
    }
  }

  lemma GatherSnoc(frames: seq<Payload>, frame: Payload, body: Bytes)
    requires Gather(frames, []) == More(body)
    ensures Gather(frames + [frame], []) ==
            match ChunkOf(frame)
            case Next(data) => More(body + data)
            case Last(data) => Whole("ok", body + data)
            case Error(data) => Whole("err", data)
            case NotAChunk => Malformed
  {
    GatherConcat(frames, [frame], []);
    assert [frame][1..] == [];
  }

  lemma FramesSnoc(frames: seq<Payload>, frame: Payload, tail: Bytes)
    ensures Frames(frames) + (Frame(frame) + tail) == Frames(frames + [frame]) + tail
  {
    FramesConcat(frames, [frame]);
    FramesOne(frame);
  }

  method JoinStatusAndData(status: Bytes, data: Bytes) returns (result: array<byte>)
    ensures fresh(result) && result[..] == StatusFrame(status, data)
  {
    var joined := status + ['|'] + data;
    result := new byte[|joined|](i requires 0 <= i < |joined| => joined[i]);
  }
}

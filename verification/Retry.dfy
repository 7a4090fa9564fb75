/** The retry loops of client.go and inspect.go: send, and on a closed connection reconnect and
    send again, a bounded number of times. */
module Retry {
  import opened Text
  import opened Framing
  import opened Wire
  import opened Network
  import opened TcpClient

  const MAX_RECONNECT_ATTEMPTS: nat := 16

  /** `AttemptsExceeded` wraps the last error: that of a reconnect, or that of a send. */
  datatype RetryResult = Ok(reply: array<byte>) | SendError | ContextEnded | AttemptsExceeded(inReconnect: bool)

  // ------------------------------------------------------ the course of a call

  datatype Event = SendOk | SendClosed | SendOther | Reconnected | ReconnectFailed {
    predicate IsSend() { SendOk? || SendClosed? || SendOther? }
  }

  ghost function Sends(trace: seq<Event>): nat {
    if trace == [] then 0 else Sends(trace[..|trace| - 1]) + if trace[|trace| - 1].IsSend() then 1 else 0
  }

  ghost function Reconnects(trace: seq<Event>): nat {
    if trace == [] then 0 else Reconnects(trace[..|trace| - 1]) + if trace[|trace| - 1].IsSend() then 0 else 1
  }

  lemma CountSnoc(trace: seq<Event>, e: Event)
    ensures Sends(trace + [e]) == Sends(trace) + if e.IsSend() then 1 else 0
    ensures Reconnects(trace + [e]) == Reconnects(trace) + if e.IsSend() then 0 else 1
  {
    assert (trace + [e])[..|trace|] == trace;
  }

  /** The call on the client that an event stands for. */
  ghost function CallOf(e: Event, data: Bytes, chunked: bool): Call {
    match e
    case SendOk => Sending(data, chunked, false, None)
    case SendClosed => Sending(data, chunked, false, Some(ConnClosed))
    case SendOther => Sending(data, chunked, false, Some(OtherError))
    case Reconnected => Redialling(true)
    case ReconnectFailed => Redialling(false)
  }

  ghost function CallsOf(trace: seq<Event>, data: Bytes, chunked: bool): seq<Call> {
    seq(|trace|, i requires 0 <= i < |trace| => CallOf(trace[i], data, chunked))
  }

  /** Between these two logs exactly the calls of the trace were made, and no others. */
  ghost predicate Logged(before: seq<Call>, after: seq<Call>, trace: seq<Event>, data: Bytes, chunked: bool) {
    Commands(after) == Commands(before) + CallsOf(trace, data, chunked)
  }

  lemma LoggedOn(a: seq<Call>, b: seq<Call>, c: seq<Call>, first: seq<Event>, next: seq<Event>, data: Bytes,
                 chunked: bool)
    requires Logged(a, b, first, data, chunked) && Logged(b, c, next, data, chunked)
    ensures Logged(a, c, first + next, data, chunked)
  {
    assert CallsOf(first + next, data, chunked) == CallsOf(first, data, chunked) + CallsOf(next, data, chunked);
  }

  lemma LoggedOne(a: seq<Call>, b: seq<Call>, e: Event, data: Bytes, chunked: bool)
    requires Commands(b) == Commands(a) + [CallOf(e, data, chunked)]
    ensures Logged(a, b, [e], data, chunked)
  {
    assert CallsOf([e], data, chunked) == [CallOf(e, data, chunked)];
  }

  /** Any send but the last failed with a closed connection, a send is made first and after each
      successful reconnect and at no other time, and the last event decides the result. */
  ghost predicate Course(trace: seq<Event>) {
    && trace != [] && trace[0].IsSend()
    && (forall i | 0 <= i < |trace| - 1 :: !trace[i].SendOk? && !trace[i].SendOther?)
    && (forall i | 0 < i < |trace| :: trace[i].IsSend() <==> trace[i - 1].Reconnected?)
    && !trace[|trace| - 1].Reconnected?
  }

  /** The result for a course, `ended(k)` being what the context says when it is asked for the k-th
      time, before the k-th reconnect: a reconnect is made only while it is alive; a lost send or a
      failed reconnect is followed by another reconnect, unless it has ended, which is then the
      result, or 16 of them have been made, which is then the result. */
  ghost predicate Outcome(trace: seq<Event>, r: RetryResult, ended: nat -> bool)
    requires trace != []
  {
    var last, n := LastEvent(trace), Reconnects(trace);
    && n <= 16 && Sends(trace) <= 17 && (forall k: nat | 1 <= k <= n :: !ended(k))
    && (r.Ok? <==> last.SendOk?)
    && (r.SendError? <==> last.SendOther?)
    && (r.ContextEnded? <==> (last.SendClosed? || last.ReconnectFailed?) && n < 16 && ended(n + 1))
    && (r.AttemptsExceeded? <==> (last.SendClosed? || last.ReconnectFailed?) && n == 16)
    && (r.AttemptsExceeded? ==> (r.inReconnect <==> last.ReconnectFailed?))
  }

  // --------------------------------------------- what it leaves on the wire

  /** No request is half written. */
  ghost predicate WholeRequests(l: Link) { DecodeAll(l.out).1 == [] }

  /** The connection the call began with got the request once more, or not. */
  ghost predicate OldLink(l: Link, m: Link, data: Bytes) {
    WholeRequests(l) ==> Requests(m) == Requests(l) || Requests(m) == Requests(l) + [data]
  }

  /** A connection the call opened got HELLO and then the request, or less. */
  ghost predicate NewLink(l: Link, token: Bytes, data: Bytes) {
    if |HelloRequest(token)| < U32 then Requests(l) <= [HelloRequest(token), data] else Requests(l) == []
  }

  /** The connections `links` a call for `data` has made of `before`, on which `c` was in use. */
  ghost predicate Left(before: seq<Link>, c: nat, links: seq<Link>, token: Bytes, data: Bytes)
    requires c < |before|
  {
    && |before| <= |links|
    && (forall i | 0 <= i < |before| && i != c :: links[i] == before[i])
    && OldLink(before[c], links[c], data)
    && (forall i | |before| <= i < |links| :: NewLink(links[i], token, data))
  }

  lemma ClosedLeft(before: seq<Link>, c: nat, links: seq<Link>, now: nat, token: Bytes, data: Bytes)
    requires c < |before| && Left(before, c, links, token, data) && now < |links|
    requires now == c || now >= |before|
    ensures Left(before, c, links[now := links[now].(open := false)], token, data)
  {
    hide DecodeAll;
  }

  lemma OnlyHelloIsNew(l: Link, token: Bytes, data: Bytes)
    requires OnlyHello(l, token)
    ensures NewLink(l, token, data)
  {
    hide DecodeAll, Frame;
    var hello := HelloRequest(token);
    if |hello| < U32 && l.out == Frame(hello) {
      HelloOnly(l, token);
    } else {
      if |hello| < U32 {
        assert l.out == Frame(hello)[..|l.out|];
        PrefixIsNoMessage(hello, |l.out|, U32);
      }
      assert Frames([]) + l.out == l.out;
      DecodeAllOfFrames([], l.out);
    }
  }

  lemma HelloOnly(l: Link, token: Bytes)
    requires |HelloRequest(token)| < U32 && l.out == Frame(HelloRequest(token))
    ensures WholeRequests(l) && Requests(l) == [HelloRequest(token)]
  {
    FramesOne(HelloRequest(token));
    assert l.out == Frames([HelloRequest(token)]) + [];
    DecodeAllOfFrames([HelloRequest(token)], []);
  }

  /** One more send on the connection the call began with. */
  lemma SendOnOld(before: seq<Link>, c: nat, m: Link, token: Bytes, data: Bytes)
    requires c < |before| && Tried(before[c], m, data)
    ensures Left(before, c, before[c := m], token, data)
    ensures Lost(before, c, m, c, token, data)
  {
    hide DecodeAll, Frames, Frame, HelloRequest;
    if |data| < U32 && WholeRequests(before[c]) {
      AttemptDelivers(before[c], m, data);
      if InStep(before[c]) { StepAfterAttempt(before[c], m, data); }
    }
  }

  /** One send on a connection the call opened. */
  lemma SendOnNew(before: seq<Link>, c: nat, links: seq<Link>, now: nat, m: Link, token: Bytes, data: Bytes)
    requires c < |before| && Left(before, c, links, token, data)
    requires |before| <= now < |links| && Tried(links[now], m, data)
    requires |HelloRequest(token)| < U32 && links[now].out == Frame(HelloRequest(token))
    ensures Left(before, c, links[now := m], token, data)
    ensures |data| < U32 && m.out == links[now].out + Frame(data) ==> Requests(m) == [HelloRequest(token), data]
  {
    hide DecodeAll, Frames, HelloRequest;
    HelloOnly(links[now], token);
    if |data| < U32 { AttemptDelivers(links[now], m, data); }
    assert [HelloRequest(token)] + [data] == [HelloRequest(token), data];
  }

  /** How many of these connections have carried more than HELLO. */
  ghost function Carriers(links: seq<Link>): nat {
    if links == [] then 0
    else Carriers(links[..|links| - 1]) + if |Requests(links[|links| - 1])| > 1 then 1 else 0
  }

  lemma {:induction false} CarriersBound(links: seq<Link>)
    ensures Carriers(links) <= |links|
    ensures (exists l | l in links :: |Requests(l)| > 1) ==> Carriers(links) >= 1
  {
    hide DecodeAll;
    if links != [] {
      CarriersBound(links[..|links| - 1]);
      assert links == links[..|links| - 1] + [links[|links| - 1]];
    }
  }

  /** How often a call has handed its request to the server whole, on the connection it began with
      and on those it opened. */
  ghost function Deliveries(before: seq<Link>, c: nat, links: seq<Link>): int
    requires c < |before| <= |links|
  {
    |Requests(links[c])| - |Requests(before[c])| + Carriers(links[|before|..])
  }

  /** The request is on the connection in use, once more than before the call. */
  ghost predicate Delivered(before: seq<Link>, c: nat, m: Link, now: nat, token: Bytes, data: Bytes)
    requires c < |before|
  {
    if now == c then WholeRequests(before[c]) ==> Requests(m) == Requests(before[c]) + [data]
    else now >= |before| && Requests(m) == [HelloRequest(token), data]
  }

  /** What a send leaves that was the last thing tried on the connection `m`: it is in step exactly
      when the send did nothing or was answered in full. `l` is the connection before that send,
      as the call found it or as its HELLO left it. */
  ghost predicate Lost(before: seq<Link>, c: nat, m: Link, now: nat, token: Bytes, data: Bytes)
    requires c < |before|
  {
    if now == c then InStep(before[c]) ==> (InStep(m) <==> StepKept(before[c], m, data))
    else now >= |before| && (OneFrameHello(m) ==> exists l :: LostOn(l, m, token, data))
  }

  ghost predicate LostOn(l: Link, m: Link, token: Bytes, data: Bytes) {
    && Greeting(l, token) && OnlyHello(l, token) && Ready(l, token) && Tried(l, m, data)
    && (InStep(m) <==> StepKept(l, m, data))
  }

  /** The last request of the connection is this one, and these frames are the whole of the answer
      the server has for it; nothing of it is left unread. */
  ghost predicate Paired(l: Link, data: Bytes, frames: seq<Payload>) {
    && InStep(l) && |Requests(l)| > 0
    && Requests(l)[|Requests(l)| - 1] == data
    && l.replies[|Requests(l)| - 1] == frames
  }

  /** The server answers HELLO with one frame and the last request in the form it is read in. */
  ghost predicate Obeys(l: Link, chunked: bool) {
    && OneFrameHello(l)
    && (0 < |Requests(l)| <= |l.replies| ==> Answer(l.replies[|Requests(l)| - 1], chunked))
  }

  lemma PairedAfter(l: Link, m: Link, data: Payload, frames: seq<Payload>, chunked: bool)
    requires InStep(l) && Exchanged(l, m, data, frames) && Answer(frames, chunked) && Obeys(m, chunked)
    ensures Paired(m, data, frames)
  {
    hide DecodeAll, Frames, Frame, Flatten, Gather, Unread;
    AttemptDelivers(l, m, data);
    PairsRequestAndReply(l, m, data, frames, chunked);
  }

  // ------------------------------------------------------------- the methods

  /** The bytes a caller gets for the frames that were read. */
  ghost function ReplyBytes(frames: seq<Payload>, chunked: bool): Bytes
    requires Answer(frames, chunked)
  {
    if chunked then StatusFrame(Gather(frames, []).status, Gather(frames, []).data) else frames[0]
  }

  method SendOnce(conn: TCPClient, data: Bytes, chunked: bool) returns (r: SendResult, ghost frames: seq<Payload>)
    requires conn.Valid()
    modifies conn`log, conn.net`links, conn.net`faults, conn.net`deadlines, conn.bufferPool, conn.bufferPool.free
    ensures conn.Valid() && fresh(conn.bufferPool.free - old(conn.bufferPool.free))
    ensures conn.Used(data, r.Ok?, frames)
    ensures r.Ok? ==>
              && fresh(r.reply) && r.reply !in conn.bufferPool.free
              && Answer(frames, chunked) && r.reply[..] == ReplyBytes(frames, chunked)
    ensures Refusal(old(conn.net.links[conn.connection]), data, conn.maxMessageSize,
                    if r.Ok? then None else Some(r.error))
    ensures Logged(old(conn.log), conn.log, [EventOf(r)], data, chunked)
  {
    hide Settled, HelloFirst, Ready, Tried, Exchanged, Gather, StatusFrame, LinkOk, Commands, Logged, Unused;
    ReadyIsUsed(conn.net.links[conn.connection], conn.token);
    if chunked {
      r, frames := conn.SendChunked(data);
    } else {
      r := conn.Send(data);
      frames := if r.Ok? then [r.reply[..]] else [];
    }
    CommandsSnoc(old(conn.log), CallOf(EventOf(r), data, chunked));
    LoggedOne(old(conn.log), conn.log, EventOf(r), data, chunked);
  }

  ghost function EventOf(r: SendResult): (e: Event)
    ensures e.IsSend()
  {
    match r
    case Ok(_) => SendOk
    case Fail(ConnClosed) => SendClosed
    case Fail(OtherError) => SendOther
  }

  datatype Try = Replied(reply: array<byte>) | Closed | Failed | NotReconnected

  /** One round of the loop: reconnect, and if that worked send once more. */
  method Attempt(conn: TCPClient, data: Bytes, chunked: bool, ghost before: seq<Link>, ghost c: nat)
    returns (o: Try, ghost events: seq<Event>, ghost frames: seq<Payload>)
    requires conn.Valid() && c < |before| && Left(before, c, conn.net.links, conn.token, data)
    requires conn.connection == c || conn.connection >= |before|
    modifies conn`connection, conn`maxMessageSize, conn`bufferPool, conn`log,
      conn.net, conn.bufferPool, conn.bufferPool.free
    ensures conn.Valid() && Left(before, c, conn.net.links, conn.token, data)
    ensures conn.connection == c || conn.connection >= |before|
    ensures |conn.net.links| <= |old(conn.net.links)| + 1
    ensures fresh(conn.Footprint() - old(conn.Footprint()))
    ensures events == EventsOf(o) && Logged(old(conn.log), conn.log, events, data, chunked)
    ensures conn.net.dials == old(conn.net.dials) + 1
    ensures o.NotReconnected? ==> !conn.net.links[conn.connection].open
    ensures o.Replied? ==>
              && conn.connection >= |before| && fresh(o.reply) && o.reply !in conn.bufferPool.free
              && Answer(frames, chunked) && o.reply[..] == ReplyBytes(frames, chunked)
              && Answered(before, c, conn.net.links[conn.connection], conn.connection, conn.token, data,
                          frames, chunked)
    ensures o.Closed? || o.Failed? ==>
              Lost(before, c, conn.net.links[conn.connection], conn.connection, conn.token, data)
  {
    hide Settled, Left, HelloFirst, Ready, OnlyHello, OneFrameHello, Greeting, Answer, ReplyBytes, Answered, Lost,
      Tried, Exchanged, LinkOk, Commands, Logged;
    frames := [];
    ghost var was, now := conn.net.links, conn.connection;
    var err := conn.Reconnect();
    ghost var links, redialled := conn.net.links, conn.log;
    LoggedOne(old(conn.log), conn.log, if err.None? then Reconnected else ReconnectFailed, data, chunked);
    ReconnectLeft(before, c, was, now, links, conn.connection, conn.token, data);
    if err.Some? {
      return NotReconnected, [ReconnectFailed], [];
    }
    var r;
    r, frames := SendOnce(conn, data, chunked);
    events := [Reconnected] + [EventOf(r)];
    LoggedOn(old(conn.log), redialled, conn.log, [Reconnected], [EventOf(r)], data, chunked);
    SendLeft(before, c, links, conn.connection, conn.net.links, conn.token, data, r.Ok?, frames, chunked);
    if r.Ok? {
      return Replied(r.reply), events, frames;
    }
    return if r.error == ConnClosed then Closed else Failed, events, frames;
  }

  /** The state after a success: the request is delivered, and what was read is its answer. */
  ghost predicate Answered(before: seq<Link>, c: nat, m: Link, now: nat, token: Bytes, data: Bytes,
                           frames: seq<Payload>, chunked: bool)
    requires c < |before|
  {
    && Delivered(before, c, m, now, token, data)
    && (Obeys(m, chunked) && (now == c ==> InStep(before[c])) ==> Paired(m, data, frames))
  }

  lemma ReconnectLeft(before: seq<Link>, c: nat, was: seq<Link>, now: nat, links: seq<Link>, next: nat,
                      token: Bytes, data: Bytes)
    requires c < |before| && Left(before, c, was, token, data) && now < |was| && (now == c || now >= |before|)
    requires |was| <= |links| && links[..|was|] == was[now := was[now].(open := false)]
    requires || (|links| == |was| && next == now)
             || (|links| == |was| + 1 && next == |was| && OnlyHello(links[next], token))
    ensures Left(before, c, links, token, data)
    ensures next == c || next >= |before|
  {
    hide OnlyHello, OldLink, NewLink;
    ClosedLeft(before, c, was, now, token, data);
    if |links| > |was| { OnlyHelloIsNew(links[next], token, data); }
    assert forall i | 0 <= i < |was| :: links[i] == links[..|was|][i];
  }

  lemma SendLeft(before: seq<Link>, c: nat, links: seq<Link>, now: nat, after: seq<Link>,
                 token: Bytes, data: Bytes, success: bool, frames: seq<Payload>, chunked: bool)
    requires c < |before| && Left(before, c, links, token, data) && |before| <= now < |links|
    requires links[now].open && Ready(links[now], token) && OnlyHello(links[now], token)
    requires OneFrameHello(links[now]) ==> Greeting(links[now], token)
    requires |after| == |links| && after == links[now := after[now]] && Tried(links[now], after[now], data)
    requires success ==> |data| < U32 && Exchanged(links[now], after[now], data, frames) && Answer(frames, chunked)
    ensures Left(before, c, after, token, data) && Lost(before, c, after[now], now, token, data)
    ensures success ==> Answered(before, c, after[now], now, token, data, frames, chunked)
  {
    hide Left, DecodeAll, Frames, Gather, LostOn, InStep, Ready, Paired, Tried, OnlyHello, Unread;
    SendsAfterHello(links[now], after[now], token, data);
    SendOnNew(before, c, links, now, after[now], token, data);
    if success && Obeys(after[now], chunked) {
      PairedAfter(links[now], after[now], data, frames, chunked);
    }
  }

  lemma SendsAfterHello(l: Link, m: Link, token: Bytes, data: Bytes)
    requires l.open && Ready(l, token) && OnlyHello(l, token) && Tried(l, m, data)
    requires OneFrameHello(l) ==> Greeting(l, token)
    ensures |HelloRequest(token)| < U32 && l.out == Frame(HelloRequest(token))
    ensures OneFrameHello(m) <==> OneFrameHello(l)
    ensures OneFrameHello(m) ==> LostOn(l, m, token, data)
  {
    hide DecodeAll, Frames, Frame;
    if OneFrameHello(l) && |data| < U32 { StepAfterAttempt(l, m, data); }
  }

  /** Rounds so far, all of them in vain. */
  ghost predicate Retrying(trace: seq<Event>, attempt: nat) {
    && trace != [] && trace[0] == SendClosed
    && (forall i | 0 <= i < |trace| :: !trace[i].SendOk? && !trace[i].SendOther?)
    && (forall i | 0 < i < |trace| :: trace[i].IsSend() <==> trace[i - 1].Reconnected?)
    && !trace[|trace| - 1].Reconnected?
    && Reconnects(trace) == attempt - 1 && Sends(trace) <= attempt
  }

  lemma RoundFails(trace: seq<Event>, attempt: nat, o: Try)
    requires Retrying(trace, attempt) && (o.Closed? || o.NotReconnected?)
    ensures Retrying(trace + EventsOf(o), attempt + 1)
    ensures LastEvent(trace + EventsOf(o)) == if o.Closed? then SendClosed else ReconnectFailed
  {
    hide Sends, Reconnects;
    CountRound(trace, o);
  }

  lemma RoundEnds(trace: seq<Event>, attempt: nat, o: Try)
    requires Retrying(trace, attempt) && (o.Replied? || o.Failed?) && attempt <= MAX_RECONNECT_ATTEMPTS
    ensures Course(trace + EventsOf(o))
    ensures Reconnects(trace + EventsOf(o)) == attempt
    ensures Sends(trace + EventsOf(o)) <= MAX_RECONNECT_ATTEMPTS + 1
    ensures LastEvent(trace + EventsOf(o)) == if o.Replied? then SendOk else SendOther
    ensures (trace + EventsOf(o))[0] == SendClosed
  {
    hide Sends, Reconnects;
    CountRound(trace, o);
  }

  ghost function LastEvent(trace: seq<Event>): Event
    requires trace != []
  {
    trace[|trace| - 1]
  }

  ghost function EventsOf(o: Try): (es: seq<Event>)
    ensures es != []
  {
    match o
    case Replied(_) => [Reconnected, SendOk]
    case Closed => [Reconnected, SendClosed]
    case Failed => [Reconnected, SendOther]
    case NotReconnected => [ReconnectFailed]
  }

  lemma CountRound(trace: seq<Event>, o: Try)
    ensures Reconnects(trace + EventsOf(o)) == Reconnects(trace) + 1
    ensures Sends(trace + EventsOf(o)) == Sends(trace) + |EventsOf(o)| - 1
  {
    hide Sends, Reconnects;
    var es := EventsOf(o);
    CountSnoc(trace, es[0]);
    if |es| == 2 {
      CountSnoc(trace + [es[0]], es[1]);
      assert trace + [es[0]] + [es[1]] == trace + es;
    } else {
      assert trace + [es[0]] == trace + es;
    }
  }

  lemma FirstSend(e: Event)
    requires e.IsSend()
    ensures Course([e]) && Sends([e]) == 1 && Reconnects([e]) == 0 && LastEvent([e]) == e
    ensures e == SendClosed ==> Retrying([e], 1)
  {
    CountSnoc([], e);
    assert [] + [e] == [e];
  }

  /** The loop of `sendWithReconnect`, after a first send that was lost to a closed connection. */
  method SendAgain(conn: TCPClient, data: Bytes, chunked: bool, ended: nat -> bool,
                   ghost before: seq<Link>, ghost c: nat, ghost start: seq<Call>)
    returns (r: RetryResult, ghost trace: seq<Event>, ghost frames: seq<Payload>)
    requires conn.Valid() && conn.connection == c < |before| == |conn.net.links|
    requires Left(before, c, conn.net.links, conn.token, data)
    requires Lost(before, c, conn.net.links[c], c, conn.token, data)
    requires Logged(start, conn.log, [SendClosed], data, chunked)
    modifies conn`connection, conn`maxMessageSize, conn`bufferPool, conn`log,
      conn.net, conn.bufferPool, conn.bufferPool.free
    ensures conn.Valid() && fresh(conn.Footprint() - old(conn.Footprint()))
    ensures Course(trace) && Outcome(trace, r, ended) && trace[0] == SendClosed
    ensures Logged(start, conn.log, trace, data, chunked) && conn.net.dials == old(conn.net.dials) + Reconnects(trace)
    ensures |conn.net.links| <= |before| + MAX_RECONNECT_ATTEMPTS
    ensures Left(before, c, conn.net.links, conn.token, data)
    ensures conn.connection == c || conn.connection >= |before|
    ensures r.Ok? ==>
              && fresh(r.reply) && r.reply !in conn.bufferPool.free
              && Answer(frames, chunked) && r.reply[..] == ReplyBytes(frames, chunked)
              && Answered(before, c, conn.net.links[conn.connection], conn.connection, conn.token, data,
                          frames, chunked)
    ensures LastEvent(trace).SendClosed? || LastEvent(trace).SendOther? ==>
              Lost(before, c, conn.net.links[conn.connection], conn.connection, conn.token, data)
    ensures LastEvent(trace) == ReconnectFailed ==> !conn.net.links[conn.connection].open
  {
    hide Settled, Left, HelloFirst, Ready, OneFrameHello, Greeting, Answer, ReplyBytes, Tried, Exchanged, LinkOk, Obeys,
      Paired, InStep, Course, Reconnects, Sends, Retrying, Answered, Lost, Requests, LastEvent, EventsOf,
      Outcome, Logged, Commands, AliveBefore, Refusal, OnlyHello;
    frames := [];
    trace := [SendClosed];
    FirstSend(SendClosed);
    NoCheckYet(ended);
    var attempt, inReconnect := 1, false;
    while attempt <= MAX_RECONNECT_ATTEMPTS
      invariant 1 <= attempt <= MAX_RECONNECT_ATTEMPTS + 1
      invariant conn.Valid() && fresh(conn.Footprint() - old(conn.Footprint()))
      invariant Left(before, c, conn.net.links, conn.token, data)
      invariant conn.connection == c || conn.connection >= |before|
      invariant |conn.net.links| <= |before| + (attempt - 1)
      invariant trace != [] && Retrying(trace, attempt) && AliveBefore(ended, attempt)
      invariant inReconnect <==> LastEvent(trace).ReconnectFailed?
      invariant Logged(start, conn.log, trace, data, chunked) && conn.net.dials == old(conn.net.dials) + (attempt - 1)
      invariant LastEvent(trace) == ReconnectFailed ==> !conn.net.links[conn.connection].open
      invariant LastEvent(trace) != ReconnectFailed ==>
                  Lost(before, c, conn.net.links[conn.connection], conn.connection, conn.token, data)
    {
      if ended(attempt) {
        RetryingCourse(trace, attempt);
        OutcomeInVain(trace, attempt, ended);
        return ContextEnded, trace, frames;
      }
      OneMoreCheck(ended, attempt);
      var o;
      ghost var events, log := [], conn.log;
      o, events, frames := Attempt(conn, data, chunked, before, c);
      LoggedOn(start, log, conn.log, trace, events, data, chunked);
      if o.Replied? || o.Failed? {
        RoundEnds(trace, attempt, o);
        r := if o.Failed? then SendError else RetryResult.Ok(o.reply);
        OutcomeOfRound(trace, attempt, o, ended, r);
        trace := trace + events;
        return;
      }
      RoundFails(trace, attempt, o);
      trace := trace + events;
      inReconnect := o.NotReconnected?;
      attempt := attempt + 1;
    }
    RetryingCourse(trace, attempt);
    OutcomeInVain(trace, attempt, ended);
    return AttemptsExceeded(inReconnect), trace, frames;
  }

  /** `sendWithReconnect`, and `sendChunkedWithReconnect` when `chunked`. What the context says at each
      of the loop's checks is up to whoever calls. */
  method SendWithReconnect(conn: TCPClient, data: Bytes, chunked: bool, ended: nat -> bool)
    returns (r: RetryResult, ghost trace: seq<Event>, ghost frames: seq<Payload>)
    requires conn.Valid()
    modifies conn`connection, conn`maxMessageSize, conn`bufferPool, conn`log,
      conn.net, conn.bufferPool, conn.bufferPool.free
    ensures conn.Valid() && fresh(conn.Footprint() - old(conn.Footprint()))
    // at most 17 sends and 16 reconnects, each send but the last lost to a closed connection, and
    // no fewer than that unless the context ends, the server answers or another error comes up
    ensures Course(trace) && Outcome(trace, r, ended)
    // and these are the calls made on the client, all of them, and the dials on the network
    ensures Logged(old(conn.log), conn.log, trace, data, chunked)
    ensures conn.net.dials == old(conn.net.dials) + Reconnects(trace)
    // what the wire carries: HELLO and at most one copy of the request on each connection used
    ensures |conn.net.links| <= |old(conn.net.links)| + 16
    ensures Left(old(conn.net.links), old(conn.connection), conn.net.links, conn.token, data)
    ensures conn.connection == old(conn.connection) || conn.connection >= |old(conn.net.links)|
    // the server has had the request at most 17 times, and after a success at least once, if no
    // earlier request was left half written
    ensures WholeRequests(old(conn.net.links[conn.connection])) ==>
              && var had := Deliveries(old(conn.net.links), old(conn.connection), conn.net.links);
              && 0 <= had <= 17 && (r.Ok? ==> had >= 1)
    // and in any case at most 16 times on the connections opened, once at least if one of them answered
    ensures Carriers(conn.net.links[|old(conn.net.links)|..]) <= 16
    ensures r.Ok? && conn.connection != old(conn.connection) ==> Carriers(conn.net.links[|old(conn.net.links)|..]) >= 1
    // a reply is the answer to this very request, and nothing of it is left unread
    ensures r.Ok? ==>
              && fresh(r.reply) && r.reply !in conn.bufferPool.free
              && Answer(frames, chunked) && r.reply[..] == ReplyBytes(frames, chunked)
              && Answered(old(conn.net.links), old(conn.connection), conn.net.links[conn.connection], conn.connection,
                          conn.token, data, frames, chunked)
    // after a failed send the connection is in step exactly when that send did nothing or all
    ensures LastEvent(trace).SendClosed? || LastEvent(trace).SendOther? ==>
              Lost(old(conn.net.links), old(conn.connection), conn.net.links[conn.connection], conn.connection,
                   conn.token, data)
    // after a failed reconnect the connection is dead and cannot yield a stale reply
    ensures LastEvent(trace) == ReconnectFailed ==> !conn.net.links[conn.connection].open
    // too long a request is refused unsent and not retried; a dead connection is dialled anew
    ensures |data| > old(conn.maxMessageSize) ==> trace == [SendOther] && conn.net.links == old(conn.net.links)
    ensures |data| <= old(conn.maxMessageSize) && !old(conn.net.links[conn.connection].open) ==> trace[0] == SendClosed
  {
    hide Settled, Left, HelloFirst, Ready, OneFrameHello, Greeting, Answer, ReplyBytes, Tried, Exchanged, LinkOk, Obeys,
      Paired, InStep, Course, Reconnects, Sends, Delivered, Lost, Requests, Deliveries, Carriers, WholeRequests, Logged,
      Commands;
    ghost var before, c := conn.net.links, conn.connection;
    var first;
    first, frames := SendOnce(conn, data, chunked);
    SendOnOld(before, c, conn.net.links[c], conn.token, data);
    trace := [EventOf(first)];
    FirstSend(EventOf(first));
    if first.Ok? {
      FirstAnswered(before, c, conn.net.links[c], conn.token, data, frames, chunked);
      r := RetryResult.Ok(first.reply);
      OutcomeOfFirst(EventOf(first), r, ended);
    } else if first.error != ConnClosed {
      r := SendError;
      OutcomeOfFirst(EventOf(first), r, ended);
    } else {
      r, trace, frames := SendAgain(conn, data, chunked, ended, before, c, old(conn.log));
    }
    BoundedDelivery(before, c, conn.net.links, conn.connection, conn.token, data);
  }

  lemma RetryingCourse(trace: seq<Event>, attempt: nat)
    requires Retrying(trace, attempt) && attempt <= MAX_RECONNECT_ATTEMPTS + 1
    ensures Course(trace) && !LastEvent(trace).SendOk? && !LastEvent(trace).SendOther?
    ensures Reconnects(trace) == attempt - 1 && Sends(trace) <= MAX_RECONNECT_ATTEMPTS + 1
    ensures trace[0] == SendClosed
  {
  }

  /** The context was alive at each of the first checks. */
  ghost predicate AliveBefore(ended: nat -> bool, attempt: nat) { forall k: nat | 1 <= k < attempt :: !ended(k) }

  lemma NoCheckYet(ended: nat -> bool)
    ensures AliveBefore(ended, 1)
  {
  }

  lemma OneMoreCheck(ended: nat -> bool, attempt: nat)
    requires AliveBefore(ended, attempt) && !ended(attempt)
    ensures AliveBefore(ended, attempt + 1)
  {
  }

  lemma OutcomeInVain(trace: seq<Event>, attempt: nat, ended: nat -> bool)
    requires Retrying(trace, attempt) && 1 <= attempt <= 17 && AliveBefore(ended, attempt)
    ensures attempt <= 16 && ended(attempt) ==> Outcome(trace, ContextEnded, ended)
    ensures attempt == 17 ==> Outcome(trace, AttemptsExceeded(LastEvent(trace).ReconnectFailed?), ended)
  {
    hide Sends, Reconnects;
  }

  lemma OutcomeOfRound(trace: seq<Event>, attempt: nat, o: Try, ended: nat -> bool, r: RetryResult)
    requires Retrying(trace, attempt) && (o.Replied? || o.Failed?) && 1 <= attempt <= 16
    requires AliveBefore(ended, attempt + 1) && r == if o.Replied? then RetryResult.Ok(o.reply) else SendError
    ensures Outcome(trace + EventsOf(o), r, ended)
  {
    hide Sends, Reconnects;
    RoundEnds(trace, attempt, o);
  }

  lemma OutcomeOfFirst(e: Event, r: RetryResult, ended: nat -> bool)
    requires (e.SendOk? && r.Ok?) || (e.SendOther? && r.SendError?)
    ensures Outcome([e], r, ended)
  {
    hide Sends, Reconnects;
    FirstSend(e);
  }

  lemma FirstAnswered(before: seq<Link>, c: nat, m: Link, token: Bytes, data: Payload, frames: seq<Payload>,
                      chunked: bool)
    requires c < |before| && Exchanged(before[c], m, data, frames) && Answer(frames, chunked)
    ensures Answered(before, c, m, c, token, data, frames, chunked)
  {
    hide DecodeAll, Frames, Gather, Answer, Paired, Obeys, Unread;
    var l := before[c];
    if WholeRequests(l) { AttemptDelivers(l, m, data); }
    if InStep(l) && Obeys(m, chunked) { PairedAfter(l, m, data, frames, chunked); }
  }

  /** At-least-once and bounded: on a connection found without a half-written request, a call that
      leaves these connections behind has handed its request to the server at most 17 times, and one
      that delivered it on the connection in use, as every success has, at least once. On the
      connections it opened the same holds whatever it found. */
  lemma BoundedDelivery(before: seq<Link>, c: nat, links: seq<Link>, now: nat, token: Bytes, data: Bytes)
    requires c < |before| && Left(before, c, links, token, data) && now < |links|
    requires |links| <= |before| + 16
    ensures WholeRequests(before[c]) ==>
              && 0 <= Deliveries(before, c, links) <= 17
              && (Delivered(before, c, links[now], now, token, data) ==> Deliveries(before, c, links) >= 1)
    ensures Carriers(links[|before|..]) <= 16
    ensures now != c && Delivered(before, c, links[now], now, token, data) ==> Carriers(links[|before|..]) >= 1
  {
    hide DecodeAll;
    CarriersBound(links[|before|..]);
    if |before| <= now { assert links[|before|..][now - |before|] == links[now]; }
  }

  // --------------------------------------------------------------- stale replies

  /** On any connection in step whose next answer arrives, the send of any request may fail and leave
      the connection open; then whatever request follows is given the answer to the one before. The
      answer arrived only after the deadline, and the connection was not replaced. */
  lemma StaleReply(l: Link, token: Bytes, request: Payload, answer: Payload, next: Payload)
    returns (m: Link, n: Link)
    requires InStep(l) && l.open && HelloFirst(l, token) && Ready(l, token)
    requires |Requests(l)| < |l.replies| && l.replies[|Requests(l)|] == [answer]
    requires l.read + |Frame(answer)| <= l.cut
    ensures Attempted(l, m, request) && m.open && !InStep(m) && HelloFirst(m, token) && Ready(m, token)
    ensures Requests(m) == Requests(l) + [request]
    ensures Exchanged(m, n, next, [answer])
  {
    hide DecodeAll, Frame, Frames, Flatten, HelloFirst, Ready, Exchanged;
    m := l.(out := l.out + Frame(request));
    assert Wire.Sent(m) == Wire.Sent(l);
    AttemptDelivers(l, m, request);
    FramesOne(answer);
    StepAfterAttempt(l, m, request);
    UseKeepsHandshake(l, m, token, request);
    NextFrame(l, answer);
    n := GetsWhatIsThere(m, next, answer);
  }

  /** And on any connection in step the send of a request may fail inside its payload: then the server
      takes the head of the next frame for the rest of it, and has a request nobody made. */
  lemma GarbledRequest(l: Link, token: Bytes, request: Payload, k: nat, next: Payload) returns (m: Link, n: Link)
    requires InStep(l) && l.open && HelloFirst(l, token) && Ready(l, token)
    requires k < |request| <= k + |Frame(next)|
    ensures Attempted(l, m, request) && m.open && !InStep(m) && HelloFirst(m, token) && Ready(m, token)
    ensures Requests(m) == Requests(l)
    ensures Attempted(m, n, next) && n.out == m.out + Frame(next)
    ensures Requests(l) + [request[..k] + Frame(next)[..|request| - k]] <= Requests(n)
  {
    hide DecodeAll, Frames, Frame, Flatten, HelloFirst, Ready, ReadFrame;
    m := l.(out := l.out + Frame(request)[..HEADER + k]);
    n := m.(out := m.out + Frame(next));
    assert Wire.Sent(m) == Wire.Sent(l) == Wire.Sent(n);
    AttemptDelivers(l, m, request);
    StepAfterAttempt(l, m, request);
    UseKeepsHandshake(l, m, token, request);
    var garbled: Payload := request[..k] + Frame(next)[..|request| - k];
    var rest := Frame(next)[|request| - k..];
    GarbledBytes(request, k, Frame(next));
    assert n.out == l.out + (Frame(garbled) + rest);
    assert l.out == Frames(Requests(l)) + DecodeAll(l.out).1;
    StartsWith(Requests(l), garbled, rest);
  }

  lemma GarbledBytes(request: Payload, k: nat, more: Bytes)
    requires k < |request| <= k + |more|
    ensures Frame(request)[..HEADER + k] + more
         == Frame(request[..k] + more[..|request| - k]) + more[|request| - k..]
  {
    assert Frame(request)[..HEADER + k] == Be32(|request|) + request[..k];
  }

  lemma StartsWith(ps: seq<Payload>, p: Payload, rest: Bytes)
    ensures ps + [p] <= DecodeAll(Frames(ps) + (Frame(p) + rest)).0
  {
    hide DecodeAll, Frames, Frame, ReadFrame;
    var (qs, tail) := DecodeAll(rest);
    FramesConcat(ps, [p] + qs);
    FramesConcat([p], qs);
    FramesOne(p);
    assert Frames(ps) + (Frame(p) + rest) == Frames(ps + ([p] + qs)) + tail;
    DecodeAllOfFrames(ps + ([p] + qs), tail);
    assert ps + ([p] + qs) == ps + [p] + qs;
  }

  /** A stream may be stopped by its handler while the server has more to send: then whatever request
      follows is given the next event for an answer. */
  lemma StaleEvent(l: Link, m: Link, request: Payload, events: seq<Payload>, extra: Payload, rest: seq<Payload>,
                   next: Payload) returns (n: Link)
    requires InStep(l) && Exchanged(l, m, request, events)
    requires |Requests(l)| < |l.replies| && l.replies[|Requests(l)|] == events + [extra] + rest
    requires m.read + |Frame(extra)| <= m.cut
    ensures m.open && !InStep(m) && Exchanged(m, n, next, [extra])
  {
    hide DecodeAll, Frame, Frames, Flatten, Exchanged, InStep;
    StepAfterExchange(l, m, request, events);
    NextEvent(l, m, request, events, extra, rest);
    n := GetsWhatIsThere(m, next, extra);
  }

  /** Whatever is unread on an open connection is what the next request gets. */
  lemma GetsWhatIsThere(m: Link, next: Payload, there: Payload) returns (n: Link)
    requires LinkOk(m) && m.open && Frame(there) <= Unread(m)
    ensures Exchanged(m, n, next, [there])
  {
    hide Frame, Frames, Flatten;
    FramesOne(there);
    n := m.(out := m.out + Frame(next), read := m.read + |Frame(there)|);
    assert |Unread(m)| == m.cut - m.read;
    assert Wire.Sent(n) == Wire.Sent(m);
    assert Unread(n) == Unread(m)[|Frame(there)|..];
  }

  lemma NextEvent(l: Link, m: Link, request: Payload, events: seq<Payload>, extra: Payload, rest: seq<Payload>)
    requires InStep(l) && Exchanged(l, m, request, events)
    requires |Requests(l)| < |l.replies| && l.replies[|Requests(l)|] == events + [extra] + rest
    requires m.read + |Frame(extra)| <= m.cut
    ensures LinkOk(m) && m.open && Frame(extra) <= Unread(m)
  {
    hide DecodeAll, Frame, Frames;
    var k := |Requests(l)|;
    FlattenSplit(l.replies, k);
    assert l.replies[k..] == [l.replies[k]] + l.replies[k + 1..];
    FlattenCons(l.replies[k], l.replies[k + 1..]);
    var more := rest + Flatten(l.replies[k + 1..]);
    assert Flatten(l.replies[k..]) == events + ([extra] + more);
    FramesConcat(events, [extra] + more);
    FramesConcat([extra], more);
    FramesOne(extra);
    ReadAdvance(l, m, events);
    var later := Frames(Flatten(l.replies[k..]));
    assert Unread(l) == later[..l.cut - l.read];
    assert Unread(m) == Unread(l)[|Frames(events)|..];
    assert later[|Frames(events)|..][..|Frame(extra)|] == Frame(extra);
    assert |Unread(m)| == m.cut - m.read;
  }

  /** What is to be read next on a connection in step is the answer to its next request. */
  lemma NextFrame(l: Link, answer: Payload)
    requires InStep(l) && |Requests(l)| < |l.replies| && l.replies[|Requests(l)|] == [answer]
    requires l.read + |Frame(answer)| <= l.cut
    ensures Unread(l)[..|Frame(answer)|] == Frame(answer)
  {
    hide DecodeAll, Frame, Frames;
    var k := |Requests(l)|;
    FlattenSplit(l.replies, k);
    assert l.replies[k..] == [[answer]] + l.replies[k + 1..];
    FlattenCons([answer], l.replies[k + 1..]);
    FramesConcat([answer], Flatten(l.replies[k + 1..]));
    FramesOne(answer);
    assert |Unread(l)| == l.cut - l.read;
    var later := Frames(Flatten(l.replies[k..]));
    assert Unread(l) == later[..l.cut - l.read];
    assert later[..|Frame(answer)|] == Frame(answer);
  }

  /** With any token and any server there are connections of that kind, straight after HELLO. */
  lemma StaleAfterHello(token: Bytes, welcome: Payload, request: Payload, answer: Payload, next: Payload)
    returns (dialled: Link, l: Link, m: Link, n: Link)
    requires |HelloRequest(token)| < U32 && Welcome(welcome)
    ensures Fresh(dialled) && Exchanged(dialled, l, HelloRequest(token), [welcome])
    ensures HelloFirst(l, token) && Ready(l, token) && InStep(l)
    ensures Attempted(l, m, request) && m.open && !InStep(m) && HelloFirst(m, token) && Ready(m, token)
    ensures Exchanged(m, n, next, [answer])
  {
    hide DecodeAll, Frame, Frames, HelloFirst, Ready, Welcome, HelloRequest, InStep;
    var replies: seq<seq<Payload>> := [[welcome], [answer]];
    var first, second := Frame(welcome), Frame(answer);
    FramesOne(welcome);
    FramesOne(answer);
    TwoReplies(welcome, answer);
    var hello: Payload := HelloRequest(token);
    dialled := Link(true, [], replies, |first + second|, 0);
    l := dialled.(out := Frame(hello), read := |first|);
    assert Wire.Sent(dialled) == first + second == Wire.Sent(l);
    assert [] + Frame(hello) == Frame(hello);
    assert Unread(dialled) == first + Unread(l);
    FreshInStep(dialled);
    PairsRequestAndReply(dialled, l, hello, [welcome], false);
    HelloAnswered(dialled, l, token, welcome);
    assert Requests(l) == [hello];
    m, n := StaleReply(l, token, request, answer, next);
  }

  lemma TwoReplies(a: Payload, b: Payload)
    ensures Frames(Flatten([[a], [b]])) == Frames([a]) + Frames([b])
  {
    hide Frames;
    var none: seq<seq<Payload>> := [];
    FlattenCons([b], none);
    FlattenCons([a], [[b]]);
    assert [[b]] + none == [[b]] && [b] + Flatten(none) == [b];
    assert [[a]] + [[b]] == [[a], [b]];
    FramesConcat([a], [b]);
  }
}

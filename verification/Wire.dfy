/** One TCP connection seen from outside: the bytes the client wrote, the bytes the server gets
    across before the connection dies, and how far the client has read. */
module Wire {
  import opened Text
  import opened Framing
  import Replies

  /** `replies[j]` are the frames the server means as its answer to the j-th request of the
      connection. The adversary cuts the stream of all of them at byte `cut`; any byte stream
      arises this way (`Framing.EveryStreamIsCutFrames`). */
  datatype Link = Link(open: bool, out: Bytes, replies: seq<seq<Payload>>, cut: nat, read: nat)

  function Flatten(replies: seq<seq<Payload>>): seq<Payload> {
    if replies == [] then [] else replies[0] + Flatten(replies[1..])
  }

  function Sent(l: Link): Bytes { Frames(Flatten(l.replies)) }

  predicate LinkOk(l: Link) { l.read <= l.cut <= |Sent(l)| }

  function Incoming(l: Link): Bytes
    requires LinkOk(l)
  {
    Sent(l)[..l.cut]
  }

  function Unread(l: Link): Bytes
    requires LinkOk(l)
  {
    Incoming(l)[l.read..]
  }

  lemma UnreadAfter(l: Link, k: nat)
    requires LinkOk(l) && l.read + k <= l.cut
    ensures |Unread(l)| == l.cut - l.read
    ensures LinkOk(l.(read := l.read + k)) && Unread(l.(read := l.read + k)) == Unread(l)[k..]
  {
    var m := l.(read := l.read + k);
    assert Sent(m) == Sent(l);
  }

  /** The complete requests the server has been handed. */
  ghost function Requests(l: Link): seq<Payload> { DecodeAll(l.out).0 }

  /** `m` is what may have become of `l` after trying to send `request` on it and, once all of it
      was written, reading some of what came back. Nothing moves on a closed connection. */
  ghost predicate Attempted(l: Link, m: Link, request: Payload)
  {
    && LinkOk(l) && LinkOk(m)
    && m.open == l.open && m.replies == l.replies && m.cut == l.cut
    && l.out <= m.out <= l.out + Frame(request)
    && l.read <= m.read
    && (m.out != l.out + Frame(request) ==> m.read == l.read)
    && (!l.open ==> m == l)
  }

  /** The request went out whole, and exactly `frames` were read after it. */
  ghost predicate Exchanged(l: Link, m: Link, request: Payload, frames: seq<Payload>)
  {
    && Attempted(l, m, request)
    && l.open
    && m.out == l.out + Frame(request)
    && Unread(l) == Frames(frames) + Unread(m)
  }

  // ----------------------------------------------- request and reply in step

  /** No request is half written, and every request has had its whole answer read and no more:
      there are no unread reply bytes on the connection. */
  ghost predicate InStep(l: Link) {
    && LinkOk(l)
    && DecodeAll(l.out).1 == []
    && |Requests(l)| <= |l.replies|
    && l.read == |Frames(Flatten(l.replies[..|Requests(l)|]))|
  }

  lemma FlattenCons(first: seq<Payload>, rest: seq<seq<Payload>>)
    ensures Flatten([first] + rest) == first + Flatten(rest)
  {
    assert ([first] + rest)[1..] == rest;
  }

  lemma {:induction false} FlattenConcat(a: seq<seq<Payload>>, b: seq<seq<Payload>>)
    ensures Flatten(a + b) == Flatten(a) + Flatten(b)
  {
    if a == [] {
      assert a + b == b;
    } else {
      FlattenCons(a[0], a[1..] + b);
      FlattenCons(a[0], a[1..]);
      hide Flatten;
      assert a + b == [a[0]] + (a[1..] + b);
      assert a == [a[0]] + a[1..];
      FlattenConcat(a[1..], b);
    }
  }

  lemma FlattenSplit(replies: seq<seq<Payload>>, k: nat)
    requires k <= |replies|
    ensures Frames(Flatten(replies)) == Frames(Flatten(replies[..k])) + Frames(Flatten(replies[k..]))
  {
    hide Frames, Flatten;
    assert replies == replies[..k] + replies[k..];
    FlattenConcat(replies[..k], replies[k..]);
    FramesConcat(Flatten(replies[..k]), Flatten(replies[k..]));
  }

  lemma FlattenSnoc(replies: seq<seq<Payload>>, k: nat)
    requires k < |replies|
    ensures |Frames(Flatten(replies[..k + 1]))| == |Frames(Flatten(replies[..k]))| + |Frames(replies[k])|
  {
    hide Frames;
    var one := [replies[k]];
    assert replies[..k + 1] == replies[..k] + one;
    FlattenConcat(replies[..k], one);
    assert one[1..] == [];
    assert Flatten(one) == replies[k];
    FramesConcat(Flatten(replies[..k]), replies[k]);
  }

  /** Frames read off a stream of frames are the first of that stream. */
  lemma {:induction false} FramesPrefix(fs: seq<Payload>, tail: Bytes, ps: seq<Payload>, cut: nat)
    requires cut <= |Frames(ps)| && Frames(fs) + tail == Frames(ps)[..cut]
    ensures fs <= ps
  {
    hide Frame, ReadFrame;
    if fs != [] {
      var f := Frame(fs[0]);
      FramesCons(fs[0], fs[1..], tail);
      assert [fs[0]] + fs[1..] == fs;
      ReadOfFrame(fs[0], Frames(fs[1..]) + tail, U32);
      assert ps != [];
      var g, rest := Frame(ps[0]), Frames(ps[1..]);
      assert Frames(ps) == g + rest;
      if cut < |g| {
        assert (g + rest)[..cut] == g[..cut];
        PrefixIsNoMessage(ps[0], cut, U32);
      } else {
        assert (g + rest)[..cut] == g + rest[..cut - |g|];
        ReadOfFrame(ps[0], rest[..cut - |g|], U32);
        FramesPrefix(fs[1..], tail, ps[1..], cut - |g|);
      }
    }
  }

  /** On a connection in step, what is read after a request is the beginning of the answers the
      server has for this request and later ones. */
  lemma ReadsItsOwnAnswer(l: Link, m: Link, request: Payload, frames: seq<Payload>)
    requires InStep(l) && Exchanged(l, m, request, frames)
    ensures frames <= Flatten(l.replies[|Requests(l)|..])
  {
    hide Frames, Flatten, DecodeAll;
    var k := |Requests(l)|;
    var later := Frames(Flatten(l.replies[k..]));
    FlattenSplit(l.replies, k);
    assert Unread(l) == later[..l.cut - l.read];
    FramesPrefix(frames, Unread(m), Flatten(l.replies[k..]), l.cut - l.read);
  }

  /** Reading exactly the server's answer leaves the connection in step, one request further. */
  lemma WholeAnswerKeepsStep(l: Link, m: Link, request: Payload, frames: seq<Payload>)
    requires InStep(l) && Exchanged(l, m, request, frames)
    requires |Requests(l)| < |l.replies| && frames == l.replies[|Requests(l)|]
    ensures InStep(m) && Requests(m) == Requests(l) + [request]
  {
    hide Frames, Flatten, DecodeAll, Frame;
    var k := |Requests(l)|;
    RequestAdded(l, m, request);
    FlattenSnoc(l.replies, k);
    ReadAdvance(l, m, frames);
    assert |Requests(m)| == k + 1;
  }

  lemma ReadAdvance(l: Link, m: Link, frames: seq<Payload>)
    requires LinkOk(l) && LinkOk(m) && m.cut == l.cut && Unread(l) == Frames(frames) + Unread(m)
    ensures m.read == l.read + |Frames(frames)|
  {
    assert |Unread(l)| == l.cut - l.read && |Unread(m)| == m.cut - m.read;
  }

  lemma RequestAdded(l: Link, m: Link, request: Payload)
    requires DecodeAll(l.out).1 == [] && m.out == l.out + Frame(request)
    ensures DecodeAll(m.out) == (Requests(l) + [request], [])
  {
    hide Frames, Frame, DecodeAll, ReadFrame;
    FramesConcat(Requests(l), [request]);
    FramesOne(request);
    assert m.out == Frames(Requests(l) + [request]) + [];
    DecodeAllOfFrames(Requests(l) + [request], []);
  }

  /** A half-written request is not one the server has: only whole requests count. */
  lemma AttemptDelivers(l: Link, m: Link, request: Payload)
    requires Attempted(l, m, request) && DecodeAll(l.out).1 == []
    ensures Requests(m) == if m.out == l.out + Frame(request) then Requests(l) + [request] else Requests(l)
    ensures DecodeAll(m.out).1 == if m.out == l.out + Frame(request) then [] else m.out[|l.out|..]
  {
    hide Frames, DecodeAll, ReadFrame;
    if m.out == l.out + Frame(request) {
      RequestAdded(l, m, request);
    } else {
      var part := m.out[|l.out|..];
      assert part == Frame(request)[..|part|];
      PrefixIsNoMessage(request, |part|, U32);
      assert m.out == Frames(Requests(l)) + part;
      DecodeAllOfFrames(Requests(l), part);
    }
  }

  /** The request did not go out at all, or it went out whole and just its answer was read. */
  ghost predicate StepKept(l: Link, m: Link, request: Bytes) {
    || m == l
    || (&& |request| < U32 && m.out == l.out + Frame(request) && |Requests(l)| < |l.replies|
        && m.read == l.read + |Frames(l.replies[|Requests(l)|])|)
  }

  /** When a send, failed or not, leaves a connection in step. */
  lemma StepAfterAttempt(l: Link, m: Link, request: Payload)
    requires InStep(l) && Attempted(l, m, request)
    ensures InStep(m) <==> StepKept(l, m, request)
  {
    hide Frames, Flatten, DecodeAll;
    AttemptDelivers(l, m, request);
    if m.out == l.out {
      assert m == l;
    } else if m.out == l.out + Frame(request) && |Requests(l)| < |l.replies| {
      FlattenSnoc(l.replies, |Requests(l)|);
    }
  }

  lemma {:induction false} FramesAreLong(ps: seq<Payload>)
    ensures |Frames(ps)| >= HEADER * |ps|
  {
    hide Frame;
    if ps != [] { FramesAreLong(ps[1..]); }
  }

  lemma SameLengthPrefix(a: seq<Payload>, b: seq<Payload>)
    requires a <= b && |Frames(a)| == |Frames(b)|
    ensures a == b
  {
    hide Frames;
    FramesConcat(a, b[|a|..]);
    FramesAreLong(b[|a|..]);
    assert b == a + b[|a|..];
  }

  /** When reading frames after a request, and then stopping, leaves a connection in step: exactly
      when the frames are the server's answer to that request. */
  lemma StepAfterExchange(l: Link, m: Link, request: Payload, frames: seq<Payload>)
    requires InStep(l) && Exchanged(l, m, request, frames)
    ensures InStep(m) <==> |Requests(l)| < |l.replies| && frames == l.replies[|Requests(l)|]
  {
    hide Frames, DecodeAll, Frame, InStep;
    var k := |Requests(l)|;
    StepAfterAttempt(l, m, request);
    if k < |l.replies| {
      if frames == l.replies[k] { WholeAnswerKeepsStep(l, m, request, frames); }
      if InStep(m) {
        ReadAdvance(l, m, frames);
        assert |Frame(request)| > 0;
        assert m.out != l.out;
        ReadsItsOwnAnswer(l, m, request, frames);
        AnswersAlike(frames, l.replies, k);
      }
    }
  }

  lemma AnswersAlike(frames: seq<Payload>, replies: seq<seq<Payload>>, k: nat)
    requires k < |replies| && frames <= Flatten(replies[k..]) && |Frames(frames)| == |Frames(replies[k])|
    ensures frames == replies[k]
  {
    hide Frames;
    var all := Flatten(replies[k..]);
    assert replies[k..] == [replies[k]] + replies[k + 1..];
    FlattenCons(replies[k], replies[k + 1..]);
    if |frames| <= |replies[k]| {
      assert frames == all[..|frames|] == replies[k][..|frames|];
      SameLengthPrefix(frames, replies[k]);
    } else {
      assert replies[k] == all[..|replies[k]|] == frames[..|replies[k]|];
      SameLengthPrefix(replies[k], frames);
    }
  }

  // ------------------------------------------------------------ chunked replies

  /** What `SendChunked` makes of the frames it reads. */
  datatype Gathered =
    | Whole(status: Bytes, data: Bytes)
    | More(body: Bytes)
    | Malformed

  datatype Chunk = Next(data: Bytes) | Last(data: Bytes) | Error(data: Bytes) | NotAChunk

  function ChunkOf(frame: Bytes): Chunk {
    var i := IndexOf(frame, '|');
    if i == -1 then NotAChunk
    else if frame[..i] == "nxt" then Next(frame[i + 1..])
    else if frame[..i] == "ok" then Last(frame[i + 1..])
    else if frame[..i] == "err" then Error(frame[i + 1..])
    else NotAChunk
  }

  /** Continue with `frames`, `body` having been collected so far. */
  function Gather(frames: seq<Payload>, body: Bytes): Gathered {
    if frames == [] then More(body)
    else
      match ChunkOf(frames[0])
      case Next(data) => Gather(frames[1..], body + data)
      case Last(data) => if |frames| == 1 then Whole("ok", body + data) else Malformed
      case Error(data) => if |frames| == 1 then Whole("err", data) else Malformed
      case NotAChunk => Malformed
  }

  lemma {:induction false} GatherConcat(a: seq<Payload>, b: seq<Payload>, body: Bytes)
    requires Gather(a, body).More?
    ensures Gather(a + b, body) == Gather(b, Gather(a, body).body)
  {
    if a == [] {
      assert a + b == b;
    } else {
      assert (a + b)[1..] == a[1..] + b;
      GatherConcat(a[1..], b, body + ChunkOf(a[0]).data);
    }
  }

  /** `joinStatusAndData`. */
  function StatusFrame(status: Bytes, data: Bytes): Bytes { status + ['|'] + data }

  lemma ChunkOfStatus(status: Bytes, data: Bytes)
    requires status in ["nxt", "ok", "err"]
    ensures ChunkOf(StatusFrame(status, data))
         == if status == "nxt" then Next(data) else if status == "ok" then Last(data) else Error(data)
  {
    var f := StatusFrame(status, data);
    IndexAtFirst(status, '|', data);
    assert f[..|status|] == status && f[|status| + 1..] == data;
  }

  /** The status of a frame is what stands before its first bar. */
  lemma StatusOf(frame: Bytes, status: string)
    requires '|' !in status
    ensures status + "|" <= frame <==> IndexOf(frame, '|') == |status| && frame[..|status|] == status
  {
    hide IndexOf;
    if status + "|" <= frame {
      var data := frame[|status| + 1..];
      assert frame == status + ['|'] + data;
      IndexAtFirst(status, '|', data);
      assert frame[..|status|] == status;
    }
    if IndexOf(frame, '|') == |status| && frame[..|status|] == status {
      assert frame[..|status| + 1] == status + "|";
    }
  }

  /** Exactly which frames are chunks, and of which kind. */
  lemma ChunkExactly(frame: Bytes)
    ensures "nxt|" <= frame ==> ChunkOf(frame) == Next(frame[4..])
    ensures "ok|" <= frame ==> ChunkOf(frame) == Last(frame[3..])
    ensures "err|" <= frame ==> ChunkOf(frame) == Error(frame[4..])
    ensures ChunkOf(frame) == NotAChunk <==> !("nxt|" <= frame) && !("ok|" <= frame) && !("err|" <= frame)
  {
    hide IndexOf;
    StatusOf(frame, "nxt");
    StatusOf(frame, "ok");
    StatusOf(frame, "err");
    assert "nxt" + "|" == "nxt|" && "ok" + "|" == "ok|" && "err" + "|" == "err|";
    var i := IndexOf(frame, '|');
    assert i != -1 ==> forall status: string | frame[..i] == status :: |status| == i;
  }

  function Concat(chunks: seq<Bytes>): Bytes {
    if chunks == [] then [] else chunks[0] + Concat(chunks[1..])
  }

  ghost predicate NextFrames(frames: seq<Payload>, chunks: seq<Bytes>) {
    |frames| == |chunks| && forall i | 0 <= i < |chunks| :: frames[i] == StatusFrame("nxt", chunks[i])
  }

  lemma {:induction false} GatherNext(frames: seq<Payload>, chunks: seq<Bytes>, body: Bytes)
    requires NextFrames(frames, chunks)
    ensures Gather(frames, body) == More(body + Concat(chunks))
  {
    if frames == [] {
      assert body + [] == body;
    } else {
      ChunkOfStatus("nxt", chunks[0]);
      assert frames[0] == StatusFrame("nxt", chunks[0]);
      GatherNext(frames[1..], chunks[1..], body + chunks[0]);
      assert body + chunks[0] + Concat(chunks[1..]) == body + Concat(chunks);
    }
  }

  /** However a body is cut into chunks, reading the chunks gives what the uncut reply gives; an
      error frame in the place of the last chunk discards all of the body before it. */
  lemma ChunkInvariance(frames: seq<Payload>, chunks: seq<Bytes>, last: Bytes, final: Payload)
    requires NextFrames(frames, chunks)
    ensures final == StatusFrame("ok", last) ==> Gather(frames + [final], []) == Whole("ok", Concat(chunks) + last)
    ensures final == StatusFrame("err", last) ==> Gather(frames + [final], []) == Whole("err", last)
  {
    GatherNext(frames, chunks, []);
    GatherConcat(frames, [final], []);
    ChunkOfStatus("ok", last);
    ChunkOfStatus("err", last);
    assert [] + Concat(chunks) == Concat(chunks);
  }

  /** Nothing may follow a terminal frame, so that no whole answer is the start of another. */
  lemma {:induction false} GatherStops(fs: seq<Payload>, gs: seq<Payload>, body: Bytes)
    requires fs <= gs && Gather(fs, body).Whole? && Gather(gs, body).Whole?
    ensures fs == gs
  {
    if |fs| > 1 {
      assert fs[1..] <= gs[1..] by { assert fs == gs[..|fs|]; assert fs[1..] == gs[1..][..|fs| - 1]; }
      GatherStops(fs[1..], gs[1..], body + ChunkOf(fs[0]).data);
      assert fs == [fs[0]] + fs[1..] && gs == [gs[0]] + gs[1..];
    }
  }

  /** A whole answer to one request: a chunk list, or just one frame. */
  ghost predicate Answer(frames: seq<Payload>, chunked: bool) {
    if chunked then Gather(frames, []).Whole? else |frames| == 1
  }

  /** On a connection in step, a server that answers this request in the form the client reads
      gets its very answer read: no more, no less, and the connection is in step again. */
  lemma PairsRequestAndReply(l: Link, m: Link, request: Payload, frames: seq<Payload>, chunked: bool)
    requires InStep(l) && Exchanged(l, m, request, frames) && Answer(frames, chunked)
    requires |Requests(l)| < |l.replies| ==> Answer(l.replies[|Requests(l)|], chunked)
    ensures |Requests(l)| < |l.replies| && frames == l.replies[|Requests(l)|]
    ensures InStep(m) && Requests(m) == Requests(l) + [request]
  {
    hide Exchanged, Frames, DecodeAll;
    var k := |Requests(l)|;
    ReadsItsOwnAnswer(l, m, request, frames);
    var answer, later := l.replies[k], Flatten(l.replies[k + 1..]);
    assert l.replies[k..][1..] == l.replies[k + 1..];
    assert Flatten(l.replies[k..]) == answer + later;
    if chunked {
      if |frames| <= |answer| {
        assert frames == (answer + later)[..|frames|] == answer[..|frames|];
        GatherStops(frames, answer, []);
      } else {
        assert answer == (answer + later)[..|answer|] == frames[..|answer|];
        GatherStops(answer, frames, []);
      }
    }
    WholeAnswerKeepsStep(l, m, request, frames);
  }

  // --------------------------------------------------------------- handshake

  const VERSION: nat := 1

  /** The request every connection starts with. */
  function HelloRequest(token: Bytes): Bytes {
    if token == [] then "HELLO 1" else "HELLO 1 AUTH " + token
  }

  /** How a server reads the request: the word HELLO, a version, and perhaps AUTH and a token, which is
      all of the rest. */
  function ReadHello(request: string): Option<(nat, string)> {
    match Cut(request, ' ')
    case None => None
    case Some((name, rest)) =>
      if name != "HELLO" then None
      else
        match Cut(rest, ' ')
        case None => HelloWith(ParseUint(rest, U64), "")
        case Some((version, more)) =>
          match Cut(more, ' ')
          case None => None
          case Some((auth, token)) => if auth == "AUTH" then HelloWith(ParseUint(version, U64), token) else None
  }

  function HelloWith(version: Option<nat>, token: string): Option<(nat, string)> {
    if version.None? then None else Some((version.value, token))
  }

  /** The server reads version 1 and the client's token, whatever is in it. */
  lemma HelloReads(token: Bytes)
    ensures ReadHello(HelloRequest(token)) == Some((1, token))
  {
    hide IndexOf, Cut, ParseUint, Format;
    assert ParseUint("1", U64) == Some(1) by { ParseOne(); }
    if token == [] {
      CutAtFirst("HELLO", ' ', "1");
      assert "HELLO" + [' '] + "1" == "HELLO 1";
    } else {
      CutAtFirst("AUTH", ' ', token);
      CutAtFirst("1", ' ', "AUTH" + [' '] + token);
      CutAtFirst("HELLO", ' ', "1" + [' '] + ("AUTH" + [' '] + token));
      assert "HELLO" + [' '] + ("1" + [' '] + ("AUTH" + [' '] + token)) == "HELLO 1 AUTH " + token;
    }
  }

  lemma ParseOne()
    ensures ParseUint("1", U64) == Some(1)
  {
    ParseOfFormat(1, U64);
    assert Format(1) == "1";
  }

  /** The words of the request, and that no two tokens give the same. */
  lemma HelloWords(token: Bytes, other: Bytes)
    ensures token == [] ==> Split(HelloRequest(token), ' ') == ["HELLO", "1"]
    ensures token != [] && ' ' !in token ==> Split(HelloRequest(token), ' ') == ["HELLO", "1", "AUTH", token]
    ensures HelloRequest(token) == HelloRequest(other) <==> token == other
  {
    hide Split, Join, ReadHello;
    HelloReads(token);
    HelloReads(other);
    JoinOne("1", ' ');
    JoinCons("HELLO", ["1"], ' ');
    assert ["HELLO"] + ["1"] == ["HELLO", "1"];
    SplitOfJoin(["HELLO", "1"], ' ');
    assert "HELLO" + [' '] + "1" == "HELLO 1";
    if token != [] {
      JoinOne(token, ' ');
      JoinCons("AUTH", [token], ' ');
      JoinCons("1", ["AUTH"] + [token], ' ');
      JoinCons("HELLO", ["1"] + (["AUTH"] + [token]), ' ');
      assert ["HELLO"] + (["1"] + (["AUTH"] + [token])) == ["HELLO", "1", "AUTH", token];
      SplitOfJoin(["HELLO", "1", "AUTH", token], ' ');
      assert "HELLO" + [' '] + ("1" + [' '] + ("AUTH" + [' '] + token)) == "HELLO 1 AUTH " + token;
    }
  }

  /** Whatever requests there are on the connection, the first says version 1 and this token. */
  ghost predicate SaysHello(l: Link, token: Bytes) {
    Requests(l) != [] ==> ReadHello(Requests(l)[0]) == Some((1, token))
  }

  lemma HelloFirstSays(l: Link, token: Bytes)
    requires HelloFirst(l, token)
    ensures SaysHello(l, token)
    ensures l.open && Ready(l, token) ==> Requests(l) != []
  {
    hide DecodeAll, Frame, Frames, ReadFrame, ReadHello, HelloRequest, Greeted;
    var hello := HelloRequest(token);
    HelloReads(token);
    if |hello| >= U32 || (l.out <= Frame(hello) && l.out != Frame(hello)) {
      NoRequests(l, hello);
    } else {
      var rest := l.out[|Frame(hello)|..];
      assert l.out == Frame(hello) + rest;
      FirstRequest(l, hello, rest);
    }
  }

  lemma NoRequests(l: Link, hello: Bytes)
    requires if |hello| >= U32 then l.out == [] else l.out <= Frame(hello) && l.out != Frame(hello)
    ensures Requests(l) == []
  {
    hide Frame, ReadFrame;
    if |hello| < U32 {
      assert l.out == Frame(hello)[..|l.out|];
      PrefixIsNoMessage(hello, |l.out|, U32);
    } else {
      NothingIsNoMessage(U32);
    }
    assert Frames([]) + l.out == l.out;
    DecodeAllOfFrames([], l.out);
  }

  lemma FirstRequest(l: Link, hello: Payload, rest: Bytes)
    requires l.out == Frame(hello) + rest
    ensures Requests(l) != [] && Requests(l)[0] == hello
  {
    hide Frame, Frames, ReadFrame, DecodeAll;
    var (ps, tail) := DecodeAll(rest);
    FramesCons(hello, ps, tail);
    assert l.out == Frames([hello] + ps) + tail;
    DecodeAllOfFrames([hello] + ps, tail);
  }

  /** An `ok` answer that settles on protocol version 1. */
  predicate Welcome(reply: Bytes) {
    var r := Replies.ParseHello(reply);
    r.Ok? && r.value.Success? && r.value.value.version == VERSION
  }

  /** The first frame from the server is an `ok` of version 1, and it has been read. */
  ghost predicate Greeted(l: Link) {
    && LinkOk(l)
    && var got := DecodeAll(Incoming(l)).0;
    && got != [] && Welcome(got[0]) && l.read >= |Frame(got[0])|
  }

  /** Whatever is on the connection: a part of HELLO, or HELLO and, then only, the rest. */
  ghost predicate HelloFirst(l: Link, token: Bytes) {
    var hello := HelloRequest(token);
    if |hello| >= U32 then l.out == []
    else l.out <= Frame(hello) || (Frame(hello) <= l.out && Greeted(l))
  }

  /** A connection that may be used: dead, or past its handshake. */
  ghost predicate Ready(l: Link, token: Bytes) {
    !l.open || (|HelloRequest(token)| < U32 && Frame(HelloRequest(token)) <= l.out && Greeted(l))
  }

  predicate Fresh(l: Link) {
    LinkOk(l) && l.open && l.out == [] && l.read == 0
  }

  lemma FreshInStep(l: Link)
    requires Fresh(l)
    ensures InStep(l) && Requests(l) == []
  {
    assert Flatten(l.replies[..0]) == [];
  }

  lemma HelloAnswered(l: Link, m: Link, token: Bytes, reply: Payload)
    requires |HelloRequest(token)| < U32
    requires Fresh(l) && Exchanged(l, m, HelloRequest(token), [reply]) && Welcome(reply)
    ensures HelloFirst(m, token) && Ready(m, token)
  {
    hide Frame, ReadFrame, Welcome, HelloRequest;
    FramesOne(reply);
    ReadOfFrame(reply, Unread(m), U32);
    assert Incoming(m) == Incoming(l) == Unread(l);
    assert l.out + Frame(HelloRequest(token)) == Frame(HelloRequest(token));
  }

  /** Any use of a ready connection keeps both invariants. */
  lemma UseKeepsHandshake(l: Link, m: Link, token: Bytes, request: Payload)
    requires HelloFirst(l, token) && Ready(l, token) && Attempted(l, m, request)
    ensures HelloFirst(m, token) && Ready(m, token)
  {
    hide DecodeAll, Frames, Flatten, Frame, Welcome, HelloRequest;
    if l.open {
      assert Incoming(m) == Incoming(l);
    }
  }
}

/** The length-prefixed frames of tcp_client.go: four bytes of big-endian length, then the payload. */
module Framing {
  import opened Text

  type byte = c: char | c as int < 256
  type Bytes = seq<byte>

  const HEADER: nat := 4

  /** What `writeFrame` accepts: a length that fits the header. */
  type Payload = p: Bytes | |p| < U32

  // ------------------------------------------------------------------ header

  /** `binary.BigEndian.PutUint32`. */
  function Be32(n: nat): (h: Bytes)
    requires n < U32
    ensures |h| == HEADER
  {
    var (n1, n2, n3) := (n / 256, n / 256 / 256, n / 256 / 256 / 256);
    [n3 as char, (n2 % 256) as char, (n1 % 256) as char, (n % 256) as char]
  }

  /** `binary.BigEndian.Uint32`. */
  function Uint32(h: Bytes): (n: nat)
    requires |h| == HEADER
    ensures n < U32
  {
    ((h[0] as int * 256 + h[1] as int) * 256 + h[2] as int) * 256 + h[3] as int
  }

  lemma HeaderRoundTrip(n: nat)
    requires n < U32
    ensures Uint32(Be32(n)) == n
  {
  }

  /** Most significant byte first. */
  lemma HeaderIsBigEndian(n: nat)
    requires n < U32
    ensures var h := Be32(n);
            n == h[0] as int * 0x100_0000 + h[1] as int * 0x1_0000 + h[2] as int * 0x100 + h[3] as int
  {
  }

  // ------------------------------------------------------------------ frames

  function Frame(p: Payload): (f: Bytes)
    ensures |f| == HEADER + |p|
  {
    Be32(|p|) + p
  }

  function Frames(ps: seq<Payload>): Bytes {
    if ps == [] then [] else Frame(ps[0]) + Frames(ps[1..])
  }

  /** Reading one frame off a byte stream, payloads above `max` refused. */
  datatype Reading = Message(payload: Payload, rest: Bytes) | TooLarge | Short

  function ReadFrame(s: Bytes, max: nat): (r: Reading)
    ensures r.Message? ==> s == Frame(r.payload) + r.rest && |r.payload| <= max
  {
    if |s| < HEADER then Short
    else
      var n := Uint32(s[..HEADER]);
      if n > max then TooLarge
      else if |s| < HEADER + n then Short
      else
        var p: Payload := s[HEADER..HEADER + n];
        HeaderIsLength(s[..HEADER]);
        assert s == s[..HEADER] + p + s[HEADER + n..];
        Message(p, s[HEADER + n..])
  }

  lemma LastDigit(q: nat, r: nat)
    requires r < 256
    ensures (q * 256 + r) / 256 == q && (q * 256 + r) % 256 == r
  {
  }

  lemma HeaderIsLength(h: Bytes)
    requires |h| == HEADER
    ensures Be32(Uint32(h)) == h
  {
    var x0, x1, x2, x3 := h[0] as int, h[1] as int, h[2] as int, h[3] as int;
    var n2 := x0 * 256 + x1;
    var n1 := n2 * 256 + x2;
    LastDigit(x0, x1);
    LastDigit(n2, x2);
    LastDigit(n1, x3);
  }

  lemma ReadFrameTooLarge(s: Bytes, max: nat)
    requires |s| >= HEADER && Uint32(s[..HEADER]) > max
    ensures ReadFrame(s, max).TooLarge?
  {
  }

  lemma ReadFrameParts(s: Bytes, n: nat, max: nat)
    requires HEADER + n <= |s| && Uint32(s[..HEADER]) == n <= max
    ensures n < U32 && ReadFrame(s, max) == Message(s[HEADER..HEADER + n], s[HEADER + n..])
  {
  }

  lemma ReadOfFrame(p: Payload, rest: Bytes, max: nat)
    requires |p| <= max
    ensures ReadFrame(Frame(p) + rest, max) == Message(p, rest)
  {
    var s := Frame(p) + rest;
    assert s[..HEADER] == Be32(|p|);
    HeaderRoundTrip(|p|);
    assert s[HEADER..HEADER + |p|] == p;
    assert s[HEADER + |p|..] == rest;
  }

  /** No proper prefix of a frame decodes as a message, under any limit. */
  lemma PrefixIsNoMessage(p: Payload, k: nat, max: nat)
    requires k < |Frame(p)|
    ensures !ReadFrame(Frame(p)[..k], max).Message?
  {
    if k >= HEADER {
      assert Frame(p)[..k][..HEADER] == Be32(|p|);
      HeaderRoundTrip(|p|);
    }
  }

  lemma FramesCons(p: Payload, ps: seq<Payload>, tail: Bytes)
    ensures Frames([p] + ps) + tail == Frame(p) + (Frames(ps) + tail)
  {
    hide Frame;
    assert ([p] + ps)[1..] == ps;
  }

  /** A header above the limit is refused whatever follows it. */
  lemma ReadOfOversizeFrame(p: Payload, rest: Bytes, max: nat)
    requires |p| > max
    ensures ReadFrame(Frame(p) + rest, max).TooLarge?
  {
    var s := Frame(p) + rest;
    assert s[..HEADER] == Be32(|p|);
    HeaderRoundTrip(|p|);
  }

  /** All the messages within the limit that a byte stream starts with, and what is left of it. */
  function DecodeWithin(s: Bytes, max: nat): (r: (seq<Payload>, Bytes))
    ensures s == Frames(r.0) + r.1
    ensures Within(r.0, max) && !ReadFrame(r.1, max).Message?
    decreases |s|
  {
    match ReadFrame(s, max)
    case Message(p, rest) =>
      var (ps, tail) := DecodeWithin(rest, max);
      FramesCons(p, ps, tail);
      ([p] + ps, tail)
    case _ => ([], s)
  }

  predicate Within(ps: seq<Payload>, max: nat) { forall i | 0 <= i < |ps| :: |ps[i]| <= max }

  /** Every list of payloads within the limit, followed by anything that is not itself a message,
      decodes to exactly that list and leaves the following bytes untouched. */
  lemma {:induction false} DecodeOfFrames(ps: seq<Payload>, tail: Bytes, max: nat)
    requires Within(ps, max) && !ReadFrame(tail, max).Message?
    ensures DecodeWithin(Frames(ps) + tail, max) == (ps, tail)
  {
    hide Frame, ReadFrame;
    if ps == [] {
      assert Frames(ps) + tail == tail;
    } else {
      DecodeOfFrames(ps[1..], tail, max);
      FramesCons(ps[0], ps[1..], tail);
      ReadOfFrame(ps[0], Frames(ps[1..]) + tail, max);
      assert [ps[0]] + ps[1..] == ps;
    }
  }

  /** What the bytes of a stream hold under no limit but that of the header. */
  function DecodeAll(s: Bytes): (r: (seq<Payload>, Bytes))
    ensures s == Frames(r.0) + r.1
    ensures !ReadFrame(r.1, U32).Message?
  {
    DecodeWithin(s, U32)
  }

  lemma DecodeAllOfFrames(ps: seq<Payload>, tail: Bytes)
    requires !ReadFrame(tail, U32).Message?
    ensures DecodeAll(Frames(ps) + tail) == (ps, tail)
  {
    hide Frames, ReadFrame, DecodeWithin;
    DecodeOfFrames(ps, tail, U32);
  }

  lemma {:induction false} FramesConcat(a: seq<Payload>, b: seq<Payload>)
    ensures Frames(a + b) == Frames(a) + Frames(b)
  {
    hide Frame;
    if a == [] {
      assert a + b == b;
    } else {
      FramesConcat(a[1..], b);
      FramesCons(a[0], a[1..] + b, []);
      FramesCons(a[0], a[1..], Frames(b));
      assert a + b == [a[0]] + (a[1..] + b);
      assert a == [a[0]] + a[1..];
    }
  }

  lemma FramesOne(p: Payload)
    ensures Frames([p]) == Frame(p)
  {
    hide Frame;
    assert [p][1..] == [];
  }

  /** A stream of frames cut at any byte decodes, under any limit, to a prefix of what was sent:
      whole messages only, in order, none invented; uncut, it decodes to all of it exactly when all
      of it is within the limit. */
  lemma {:induction false} CutStreamDecodesToPrefix(ps: seq<Payload>, cut: nat, max: nat)
    requires cut <= |Frames(ps)|
    ensures DecodeWithin(Frames(ps)[..cut], max).0 <= ps
    ensures cut == |Frames(ps)| ==> (DecodeWithin(Frames(ps)[..cut], max) == (ps, []) <==> Within(ps, max))
  {
    hide Frame, ReadFrame;
    if ps != [] {
      var f, rest := Frame(ps[0]), Frames(ps[1..]);
      assert Frames(ps) == f + rest;
      if cut < |f| {
        assert (f + rest)[..cut] == f[..cut];
        PrefixIsNoMessage(ps[0], cut, max);
      } else {
        assert (f + rest)[..cut] == f + rest[..cut - |f|];
        if |ps[0]| > max {
          ReadOfOversizeFrame(ps[0], rest[..cut - |f|], max);
        } else {
          CutStreamDecodesToPrefix(ps[1..], cut - |f|, max);
          ReadOfFrame(ps[0], rest[..cut - |f|], max);
        }
      }
    }
    if cut == |Frames(ps)| && Within(ps, max) {
      NothingIsNoMessage(max);
      DecodeOfFrames(ps, [], max);
      assert Frames(ps)[..cut] == Frames(ps) + [];
    }
  }

  lemma NothingIsNoMessage(max: nat)
    ensures ReadFrame([], max).Short?
  {
  }

  /** Any byte stream at all is a list of frames cut somewhere: an adversary that may cut a framed
      stream at any byte can produce every input. */
  lemma EveryStreamIsCutFrames(s: Bytes) returns (ps: seq<Payload>)
    ensures s <= Frames(ps)
  {
    var (whole, tail) := DecodeAll(s);
    var p := Completion(tail);
    ps := whole + [p];
    FramesConcat(whole, [p]);
    FramesOne(p);
    assert s == Frames(ps)[..|s|];
  }

  lemma Completion(tail: Bytes) returns (p: Payload)
    requires !ReadFrame(tail, U32).Message?
    ensures tail <= Frame(p) && |tail| < |Frame(p)|
  {
    var zero: byte := '\0';
    if |tail| < HEADER {
      var h := tail + seq(HEADER - |tail|, _ => zero);
      p := seq(Uint32(h), _ => zero);
      HeaderIsLength(h);
      assert Frame(p)[..|tail|] == tail;
    } else {
      var n := Uint32(tail[..HEADER]);
      p := tail[HEADER..] + seq(n - (|tail| - HEADER), _ => zero);
      HeaderIsLength(tail[..HEADER]);
      assert Frame(p)[..|tail|] == tail;
    }
  }
}

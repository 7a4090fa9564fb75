/** The sockets of one client, as an adversary runs them: a connection may be refused, cut at any
    byte, written to in pieces and fail at any call. */
module Network {
  import opened Text
  import opened Framing
  import opened Wire

  /** How `normalizeConnectionError` sorts failures: those that match `ErrConnClosed`, and others. */
  datatype IoError = ConnClosed | OtherError

  /** A call on a socket that failed, and how; or a dial in vain. */
  datatype Fault = CallFailed(error: IoError) | NotDialled

  /** The error reported is that of the call that failed; where no call failed there is none, or one
      that does not count as a closed connection. */
  ghost predicate Blamed(before: seq<Fault>, after: seq<Fault>, err: Option<IoError>) {
    || (after == before && err != Some(ConnClosed))
    || (err.Some? && after == before + [CallFailed(err.value)])
  }

  class Network {
    /** Every connection ever dialled, the dead ones included. */
    var links: seq<Link>
    /** Every failed call so far. */
    ghost var faults: seq<Fault>
    /** How often a connection has been asked for, in vain or not. */
    ghost var dials: nat
    /** How often a deadline has been set, or asked for in vain. */
    ghost var deadlines: nat

    ghost predicate Valid()
      reads this
    {
      forall i | 0 <= i < |links| :: LinkOk(links[i])
    }

    constructor ()
      ensures Valid() && links == [] && faults == [] && dials == 0
    {
      links := [];
      faults, dials, deadlines := [], 0, 0;
    }

    method Dial() returns (connection: Option<nat>)
      requires Valid()
      modifies this
      ensures Valid()
      ensures faults == old(faults) + (if connection.None? then [NotDialled] else []) && dials == old(dials) + 1
      ensures connection.None? ==> links == old(links)
      ensures connection.Some? ==>
                && connection.value == |old(links)| && |links| == |old(links)| + 1
                && links[..|old(links)|] == old(links) && Fresh(links[|old(links)|])
    {
      dials := dials + 1;
      if * {
        faults := faults + [NotDialled];
        return None;
      }
      ghost var least := Link(true, [], [], 0, 0);
      assert Fresh(least);
      var l :| Fresh(l);
      assert Fresh(l);
      links := links + [l];
      return Some(|links| - 1);
    }

    /** `SetDeadline`: changes nothing the model sees, fails on a closed connection. */
    method SetDeadline(connection: nat) returns (err: Option<IoError>)
      requires Valid() && connection < |links|
      modifies this`faults, this`deadlines
      ensures (!links[connection].open ==> err == Some(ConnClosed)) && deadlines == old(deadlines) + 1
      ensures faults == old(faults) + if err.Some? then [CallFailed(err.value)] else []
    {
      deadlines := deadlines + 1;
      err := *;
      if !links[connection].open { err := Some(ConnClosed); }
      faults := faults + if err.Some? then [CallFailed(err.value)] else [];
    }

    /** `Write`: some prefix of the data goes out, perhaps none of it, which is a failure too. */
    method Write(connection: nat, data: Bytes) returns (n: nat, err: Option<IoError>)
      requires Valid() && connection < |links|
      modifies this`links, this`faults
      ensures Valid() && n <= |data|
      ensures var l := old(links[connection]);
              && links == old(links)[connection := l.(out := l.out + data[..n])]
              && (!l.open ==> n == 0 && err == Some(ConnClosed))
      ensures faults == old(faults) + if err.Some? then [CallFailed(err.value)]
                                      else if n == 0 && data != [] then [CallFailed(ConnClosed)] else []
    {
      var l := links[connection];
      if !l.open {
        faults := faults + [CallFailed(ConnClosed)];
        assert l.out + data[..0] == l.out;
        return 0, Some(ConnClosed);
      }
      n :| 0 <= n <= |data|;
      err := *;
      links := links[connection := l.(out := l.out + data[..n])];
      faults := faults + if err.Some? then [CallFailed(err.value)]
                         else if n == 0 && data != [] then [CallFailed(ConnClosed)] else [];
      assert Sent(links[connection]) == Sent(l);
    }

    /** `io.ReadFull` into the first `n` bytes of the buffer: all of them, or fewer and an error. */
    method ReadFull(connection: nat, buffer: array<byte>, n: nat) returns (err: Option<IoError>)
      requires Valid() && connection < |links| && n <= buffer.Length
      modifies this`links, this`faults, buffer
      ensures Valid()
      ensures var l := old(links[connection]);
              exists k | 0 <= k <= n ::
                && l.read + k <= l.cut && (err.None? ==> k == n)
                && links == old(links)[connection := l.(read := l.read + k)]
                && buffer[..k] == Unread(l)[..k]
                && (!l.open ==> k == 0 && (err == Some(ConnClosed) || n == 0))
      ensures faults == old(faults) + if err.Some? then [CallFailed(err.value)] else []
    {
      var l := links[connection];
      var incoming := Unread(l);
      var k: nat :| k <= n && k <= |incoming| && (!l.open ==> k == 0);
      err := *;
      if k < n && err.None? { err := Some(ConnClosed); }
      if !l.open { err := if n == 0 then None else Some(ConnClosed); }
      var i := 0;
      while i < k
        invariant 0 <= i <= k
        invariant buffer[..i] == incoming[..i]
        modifies buffer
      {
        buffer[i] := incoming[i];
        i := i + 1;
      }
      links := links[connection := l.(read := l.read + k)];
      faults := faults + if err.Some? then [CallFailed(err.value)] else [];
      assert Sent(links[connection]) == Sent(l);
    }

    method Close(connection: nat)
      requires Valid() && connection < |links|
      modifies this`links
      ensures Valid() && links == old(links)[connection := old(links[connection]).(open := false)]
    {
      links := links[connection := links[connection].(open := false)];
      assert Sent(links[connection]) == Sent(old(links[connection]));
    }
  }

  // ------------------------------------------------------------------ frames

  /** `writeAll`: however the connection splits the writes, what is on the wire is a prefix of the
      data, and all of it on success. */
  method WriteAll(net: Network, connection: nat, data: Bytes) returns (err: Option<IoError>, ghost k: nat)
    requires net.Valid() && connection < |net.links|
    modifies net`links, net`faults
    ensures net.Valid()
    ensures var l := old(net.links[connection]);
            && k <= |data| && (err.None? ==> k == |data|)
            && net.links == old(net.links)[connection := l.(out := l.out + data[..k])]
            && (!l.open && data != [] ==> k == 0 && err == Some(ConnClosed))
    ensures net.faults == old(net.faults) + if err.Some? then [CallFailed(err.value)] else []
  {
    ghost var l := net.links[connection];
    k := 0;
    var rest := data;
    assert l.out + data[..0] == l.out;
    while |rest| > 0
      invariant net.Valid() && 0 <= k <= |data| && rest == data[k..]
      invariant net.links == old(net.links)[connection := l.(out := l.out + data[..k])]
      invariant (!l.open ==> k == 0) && net.faults == old(net.faults)
      decreases |rest|
    {
      var n, e := net.Write(connection, rest);
      assert l.out + data[..k] + rest[..n] == l.out + data[..k + n];
      k := k + n;
      if e.Some? {
        return e, k;
      }
      if n == 0 {
        return Some(ConnClosed), k;
      }
      rest := rest[n..];
    }
    return None, k;
  }

  /** `writeFrame`: a payload that does not fit the header is refused before anything is sent. */
  method WriteFrame(net: Network, connection: nat, payload: Bytes) returns (err: Option<IoError>)
    requires net.Valid() && connection < |net.links|
    modifies net`links, net`faults
    ensures net.Valid()
    ensures |payload| >= U32 ==> err == Some(OtherError) && net.links == old(net.links)
    ensures |payload| < U32 ==>
              var l := old(net.links[connection]);
              exists k | 0 <= k <= |Frame(payload)| ::
                && net.links == old(net.links)[connection := l.(out := l.out + Frame(payload)[..k])]
                && (err.None? ==> k == |Frame(payload)|)
                && (!l.open ==> k == 0 && err == Some(ConnClosed))
    ensures net.faults == old(net.faults) + if err.Some? && |payload| < U32 then [CallFailed(err.value)] else []
  {
    if |payload| >= U32 {
      return Some(OtherError);
    }
    hide Be32, Sent, Flatten, Frames, LinkOk;
    ghost var l, before := net.links[connection], net.links;
    ghost var f := Frame(payload);
    var header := Be32(|payload|);
    ghost var j, k;
    err, j := WriteAll(net, connection, header);
    assert header[..j] == f[..j];
    if err.None? {
      ghost var mid := net.links[connection];
      assert mid.out == l.out + header;
      err, k := WriteAll(net, connection, payload);
      assert l.out + header + payload[..k] == l.out + f[..HEADER + k];
      assert net.links == before[connection := l.(out := l.out + f[..HEADER + k])];
    }
  }

  lemma SliceOfDrop(s: Bytes, from: nat, n: nat)
    requires from + n <= |s|
    ensures s[from..][..n] == s[from..from + n]
  {
  }

  /** `readFrameSize` and `readFrameInto`: a header, a limit taken modulo 2 to the 32, and as many
      bytes as the header says into the front of the buffer, which always has room for them. */
  method ReadFrameInto(net: Network, connection: nat, maxMessageSize: nat, buffer: array<byte>)
    returns (n: nat, err: Option<IoError>)
    requires net.Valid() && connection < |net.links| && buffer.Length == maxMessageSize
    modifies net`links, net`faults, buffer
    ensures net.Valid() && |net.links| == |old(net.links)|
    ensures n <= buffer.Length && n < U32
    ensures var l, m := old(net.links[connection]), net.links[connection];
            && net.links == old(net.links)[connection := l.(read := m.read)]
            && l.read <= m.read && (!l.open ==> m.read == l.read && err == Some(ConnClosed))
            && (err.None? ==> ReadFrame(Unread(l), maxMessageSize % U32) == Message(buffer[..n], Unread(m)))
            && (err.Some? && net.faults == old(net.faults) ==> ReadFrame(Unread(l), maxMessageSize % U32).TooLarge?)
    ensures Blamed(old(net.faults), net.faults, err)
  {
    hide ReadFrame, Uint32, Unread, Frame;
    n := 0;
    ghost var l := net.links[connection];
    var header := new byte[HEADER];
    err := net.ReadFull(connection, header, HEADER);
    if err.Some? {
      return;
    }
    ghost var mid := net.links[connection];
    assert mid == l.(read := l.read + HEADER);
    UnreadAfter(l, HEADER);
    assert header[..] == header[..HEADER] == Unread(l)[..HEADER];
    var size := Uint32(header[..]);
    if size > maxMessageSize % U32 {
      ReadFrameTooLarge(Unread(l), maxMessageSize % U32);
      return 0, Some(OtherError);
    }
    err := net.ReadFull(connection, buffer, size);
    if err.None? {
      n := size;
      assert net.links[connection] == l.(read := l.read + HEADER + n);
      UnreadAfter(l, HEADER + n);
      ReadFrameParts(Unread(l), n, maxMessageSize % U32);
      SliceOfDrop(Unread(l), HEADER, n);
    }
  }
}

/** The reply parsers of response.go. */
module Replies {
  import opened Text

  /** Why a reply could not be read: `ErrCorruptedResponse`, `ErrUnknownRespStatus`. */
  datatype ParseError = Corrupted | UnknownStatus
  datatype Result<+T> = Ok(value: T) | Bad(error: ParseError)

  /** What an `err|…` reply carries; `Unreadable` when the carried error is itself corrupted. */
  datatype ServerError = Protocol(code: nat, message: string) | Unreadable
  datatype Reply<+T> = Success(value: T) | Failure(error: ServerError)

  const MAX_CODE: nat := 9999
  const BAR := '|'
  const SEMI := ';'

  function ParseServerError(data: string): (e: ServerError)
    ensures e.Protocol? ==> e.code <= MAX_CODE
  {
    match Cut(data, BAR)
    case None => Unreadable
    case Some((code, message)) =>
      match ParseUint(code, U16)
      case Some(n) => if n <= MAX_CODE then Protocol(n, message) else Unreadable
      case None => Unreadable
  }

  /** The status word and the data after the first bar. */
  datatype Envelope = OkData(data: string) | ErrData(error: ServerError) | Broken(why: ParseError)

  function Open(resp: string): Envelope {
    match Cut(resp, BAR)
    case None => Broken(Corrupted)
    case Some((status, data)) =>
      if status == "ok" then OkData(data)
      else if status == "err" then ErrData(ParseServerError(data))
      else Broken(UnknownStatus)
  }

  lemma OpenOk(data: string)
    ensures Open("ok|" + data) == OkData(data)
  {
    CutAtFirst("ok", BAR, data);
    assert "ok" + [BAR] + data == "ok|" + data;
  }

  /** A status word and a bar, and what follows them. */
  lemma StatusIs(resp: string, status: string)
    requires BAR !in status
    ensures status + [BAR] <= resp <==> exists data :: Cut(resp, BAR) == Some((status, data))
    ensures status + [BAR] <= resp ==> Cut(resp, BAR) == Some((status, resp[|status| + 1..]))
  {
    hide IndexOf, Cut;
    if status + [BAR] <= resp {
      var data := resp[|status| + 1..];
      assert resp == status + [BAR] + data;
      CutAtFirst(status, BAR, data);
    }
    if data :| Cut(resp, BAR) == Some((status, data)) {
      assert resp == status + [BAR] + data;
    }
  }

  /** Every reply is what its status word, the part before the first bar, says. */
  lemma OpenExactly(resp: string)
    ensures Open(resp) == Broken(Corrupted) <==> '|' !in resp
    ensures Open(resp).OkData? <==> "ok|" <= resp
    ensures "ok|" <= resp ==> Open(resp) == OkData(resp[3..])
    ensures Open(resp).ErrData? <==> "err|" <= resp
    ensures "err|" <= resp ==> Open(resp) == ErrData(ParseServerError(resp[4..]))
  {
    hide Cut, ParseServerError;
    StatusIs(resp, "ok");
    StatusIs(resp, "err");
    assert "ok" + [BAR] == "ok|" && "err" + [BAR] == "err|";
  }

  /** Exactly which carried errors are readable, and as what. */
  lemma ServerErrorExactly(data: string, code: nat, message: string)
    ensures ParseServerError(data) == Protocol(code, message) <==>
            code <= 9999 && exists k :: data == Zeros(k) + Format(code) + "|" + message
  {
    hide IndexOf, ParseUint, Format;
    match Cut(data, BAR)
    case None =>
      assert forall k :: (Zeros(k) + Format(code) + "|" + message)[|Zeros(k) + Format(code)|] == BAR;
      assert '|' !in data;
    case Some((digits, rest)) =>
      ParseUintExactly(digits, U16, code);
      if k :| digits == Zeros(k) + Format(code) && rest == message {
        assert data == Zeros(k) + Format(code) + "|" + message;
      }
      if k :| data == Zeros(k) + Format(code) + "|" + message {
        FormatHasNo(code, BAR);
        CutAtFirst(Zeros(k) + Format(code), BAR, message);
        assert data == Zeros(k) + Format(code) + [BAR] + message;
      }
  }

  /** A server error comes back exactly when its code has at most four digits; its message may
      contain the separator. */
  lemma ErrorRoundTrip(code: nat, message: string)
    ensures Open("err|" + Format(code) + "|" + message) == ErrData(Protocol(code, message)) <==> code <= 9999
  {
    hide Cut, Format, ParseUint;
    var data := Format(code) + [BAR] + message;
    CutAtFirst("err", BAR, data);
    assert "err|" + Format(code) + "|" + message == "err" + [BAR] + data;
    FormatHasNo(code, BAR);
    CutAtFirst(Format(code), BAR, message);
    ParseOfFormat(code, U16);
  }

  function Read<T>(e: Envelope, decoded: Option<T>): (r: Result<Reply<T>>)
    ensures r.Ok? && r.value.Success? ==> decoded == Some(r.value.value)
  {
    match e
    case Broken(why) => Bad(why)
    case ErrData(error) => Ok(Failure(error))
    case OkData(_) => if decoded.Some? then Ok(Success(decoded.value)) else Bad(Corrupted)
  }

  // ------------------------------------------------------------- value lists

  /** What a list of numbers says of a list of keys: yes exactly where there is a 1. */
  function Bools(values: seq<nat>): (r: seq<bool>)
    ensures |r| == |values| && forall i | 0 <= i < |values| :: r[i] <==> values[i] == 1
  {
    seq(|values|, i requires 0 <= i < |values| => values[i] == 1)
  }

  /** `valuesToBools` of client.go. */
  method ValuesToBools(values: seq<nat>) returns (r: seq<bool>)
    ensures |r| == |values| && forall i | 0 <= i < |values| :: r[i] <==> values[i] == 1
    ensures r == Bools(values)
  {
    var bools := new bool[|values|](_ => false);
    for i := 0 to |values|
      invariant forall j | 0 <= j < i :: bools[j] <==> values[j] == 1
    {
      bools[i] := values[i] == 1;
    }
    return bools[..];
  }

  /** Reference: parse every part, or refuse the whole list. */
  function ParseAll(parts: seq<string>): Option<seq<nat>> {
    if parts == [] then Some([])
    else Prepend(ParseUint(parts[0], U64), ParseAll(parts[1..]))
  }

  function Prepend<T>(head: Option<T>, tail: Option<seq<T>>): Option<seq<T>> {
    if head.Some? && tail.Some? then Some([head.value] + tail.value) else None
  }

  /** The list a loop ends with, from what it has collected and what is still to come. */
  function Resume<T>(done: seq<T>, rest: Option<seq<T>>): (r: Option<seq<T>>)
    ensures done == [] ==> r == rest
    ensures rest == Some([]) ==> r == Some(done)
  {
    if rest.None? then None
    else
      assert done == [] ==> done + rest.value == rest.value;
      assert rest.value == [] ==> done + rest.value == done;
      Some(done + rest.value)
  }

  lemma ResumeStep<T>(done: seq<T>, head: T, rest: Option<seq<T>>)
    ensures Resume(done, Prepend(Some(head), rest)) == Resume(done + [head], rest)
  {
    if rest.Some? { assert done + ([head] + rest.value) == done + [head] + rest.value; }
  }

  lemma {:induction false} ParseAllPointwise(parts: seq<string>)
    ensures ParseAll(parts).Some? <==> forall i | 0 <= i < |parts| :: ParseUint(parts[i], U64).Some?
    ensures ParseAll(parts).Some? ==>
              && |ParseAll(parts).value| == |parts|
              && forall i | 0 <= i < |parts| :: Some(ParseAll(parts).value[i]) == ParseUint(parts[i], U64)
  {
    if parts != [] {
      ParseAllPointwise(parts[1..]);
      assert parts == [parts[0]] + parts[1..];
    }
  }

  /** The part in front, and what parsing the rest yields. */
  lemma ParseFront(data: string, idx: nat)
    requires idx == if SEMI in data then IndexOf(data, SEMI) else |data|
    ensures ParseAll(Split(data, SEMI))
         == Prepend(ParseUint(data[..idx], U64),
                    if idx == |data| then Some([]) else ParseAll(Split(data[idx + 1..], SEMI)))
  {
    hide ParseUint, IndexOf;
    var parts := Split(data, SEMI);
    if idx == |data| {
      assert data[..idx] == data && parts == [data] && parts[1..] == [];
    } else {
      assert parts[0] == data[..idx] && parts[1..] == Split(data[idx + 1..], SEMI);
    }
  }

  /** The hand-written splitting loop agrees with splitting on `;` and parsing each part. */
  method RespDataToValues(input: string) returns (r: Option<seq<nat>>)
    ensures r == ParseAll(Split(input, SEMI))
    ensures r.Some? ==> |r.value| == Count(input, SEMI) + 1
  {
    hide ParseUint, IndexOf, Count, Split, ParseAll;
    SplitCount(input, SEMI);
    ParseAllPointwise(Split(input, SEMI));
    var data, values := input, [];
    var idx := IndexOf(data, SEMI);
    if idx == -1 {
      ParseFront(data, |data|);
      assert data[..|data|] == data;
      var v := ParseUint(data, U64);
      assert v.Some? ==> [v.value] + [] == [v.value];
      return if v.Some? then Some([v.value]) else None;
    }
    while idx >= 0
      invariant idx == if SEMI in data then IndexOf(data, SEMI) else |data|
      invariant Resume(values, ParseAll(Split(data, SEMI))) == ParseAll(Split(input, SEMI))
      decreases |data|
    {
      ParseFront(data, idx);
      var v := ParseUint(data[..idx], U64);
      if v.None? {
        return None;
      }
      ResumeStep(values, v.value, if idx == |data| then Some([]) else ParseAll(Split(data[idx + 1..], SEMI)));
      values := values + [v.value];
      if idx == |data| {
        break;
      }
      data := data[idx + 1..];
      idx := IndexOf(data, SEMI);
      if idx == -1 {
        idx := |data|;
      }
    }
    return Some(values);
  }

  function MultiReply(resp: string): Result<Reply<seq<nat>>> {
    var e := Open(resp);
    Read(e, if e.OkData? then ParseAll(Split(e.data, SEMI)) else None)
  }

  method ParseMultiResponse(resp: string) returns (r: Result<Reply<seq<nat>>>)
    ensures r == MultiReply(resp)
  {
    match Open(resp) {
      case Broken(why) => r := Bad(why);
      case ErrData(error) => r := Ok(Failure(error));
      case OkData(data) =>
        var values := RespDataToValues(data);
        r := if values.Some? then Ok(Success(values.value)) else Bad(Corrupted);
    }
  }

  /** The server's way of writing a value list. */
  function FormatAll(values: seq<nat>): (parts: seq<string>)
    ensures |parts| == |values|
  {
    seq(|values|, i requires 0 <= i < |values| => Format(values[i]))
  }

  /** What a parser sees of an `ok` reply made of the given fields. */
  lemma ReadBack(fields: seq<string>)
    requires fields != []
    ensures Open("ok|" + Join(fields, SEMI)) == OkData(Join(fields, SEMI))
    ensures Split(Join(fields, SEMI), SEMI) == fields <==> Free(fields, SEMI)
    ensures |Split(Join(fields, SEMI), SEMI)| == |fields| <==> Free(fields, SEMI)
  {
    OpenOk(Join(fields, SEMI));
    SplitOfJoin(fields, SEMI);
  }

  lemma ParseAllOfFormat(values: seq<nat>)
    ensures ParseAll(FormatAll(values)) == Some(values) <==> forall v | v in values :: v < U64
  {
    var parts := FormatAll(values);
    ParseAllPointwise(parts);
    forall i | 0 <= i < |values|
      ensures ParseUint(parts[i], U64) == if values[i] < U64 then Some(values[i]) else None
    {
      ParseOfFormat(values[i], U64);
    }
    if forall v | v in values :: v < U64 {
      assert forall i | 0 <= i < |values| :: values[i] in values;
      assert ParseAll(parts).value == values;
    } else {
      var i :| 0 <= i < |values| && values[i] >= U64;
      assert ParseUint(parts[i], U64).None?;
    }
  }

  /** Every list the server can send comes back; the empty list has no written form. */
  lemma MultiRoundTrip(values: seq<nat>)
    requires values != []
    ensures MultiReply("ok|" + Join(FormatAll(values), SEMI)) == Ok(Success(values))
        <==> forall v | v in values :: v < 0x1_0000_0000_0000_0000
  {
    hide Split, Join, Open;
    var parts := FormatAll(values);
    forall v: nat ensures SEMI !in Format(v) { FormatHasNo(v, SEMI); }
    ReadBack(parts);
    ParseAllOfFormat(values);
  }

  // -------------------------------------------------------------------- hello

  datatype Hello = Hello(version: nat, maxMessageSize: nat, authRequired: bool, role: string)

  function ParseBool(data: string): Option<bool> {
    if data == "0" then Some(false) else if data == "1" then Some(true) else None
  }

  /** The size a handshake negotiates is positive and below 2 to the 31, so that narrowing it to
      32 bits loses nothing. */
  function HelloOf(fields: seq<string>): (r: Option<Hello>)
    ensures r.Some? ==> 1 <= r.value.maxMessageSize < U31
  {
    if |fields| != 4 then None
    else
      var version := ParseUint(fields[0], U64);
      var size := ParseUint(fields[1], U31);
      var auth := ParseBool(fields[2]);
      if version.None? || size.None? || size.value == 0 || auth.None? then None
      else Some(Hello(version.value, size.value, auth.value, fields[3]))
  }

  function ParseHello(resp: string): (r: Result<Reply<Hello>>)
    ensures r.Ok? && r.value.Success? ==> 1 <= r.value.value.maxMessageSize < U31
  {
    var e := Open(resp);
    Read(e, if e.OkData? then HelloOf(Split(e.data, SEMI)) else None)
  }

  function HelloFields(h: Hello): seq<string> {
    [Format(h.version), Format(h.maxMessageSize), if h.authRequired then "1" else "0", h.role]
  }

  /** The shortest answer that settles anything: three fields of one character and an empty one. */
  const SHORTEST_HELLO := "ok|1;1;0;"

  lemma {:induction false} FourFields(s: string, fields: seq<string>)
    requires |fields| == 4 && Join(fields, SEMI) == s
    ensures |s| == |fields[0]| + |fields[1]| + |fields[2]| + |fields[3]| + 3
  {
    hide Join;
    var last := [fields[3]];
    var two := [fields[2]] + last;
    var three := [fields[1]] + two;
    assert fields == [fields[0]] + three;
    JoinCons(fields[0], three, SEMI);
    JoinCons(fields[1], two, SEMI);
    JoinCons(fields[2], last, SEMI);
    JoinOne(fields[3], SEMI);
  }

  lemma HelloIsLong(resp: string)
    requires ParseHello(resp).Ok? && ParseHello(resp).value.Success?
    ensures |resp| >= |SHORTEST_HELLO|
  {
    hide Split;
    var data := Open(resp).data;
    assert resp == "ok" + [BAR] + data;
    JoinOfSplit(data, SEMI);
    FourFields(data, Split(data, SEMI));
  }

  function HelloReply(h: Hello): string {
    "ok|" + Join(HelloFields(h), SEMI)
  }

  lemma HelloOfFields(h: Hello)
    ensures HelloOf(HelloFields(h)) == Some(h) <==> h.version < U64 && 1 <= h.maxMessageSize < U31
    ensures Free(HelloFields(h), SEMI) <==> SEMI !in h.role
  {
    FormatHasNo(h.version, SEMI);
    FormatHasNo(h.maxMessageSize, SEMI);
    ParseOfFormat(h.version, U64);
    ParseOfFormat(h.maxMessageSize, U31);
    assert HelloFields(h)[3] == h.role;
  }

  /** The fields of an answer as a server may write them. */
  ghost predicate Writes(fields: seq<string>, j: nat, k: nat, h: Hello) {
    fields == [Zeros(j) + Format(h.version), Zeros(k) + Format(h.maxMessageSize),
               if h.authRequired then "1" else "0", h.role]
  }

  lemma HelloOfExactly(fields: seq<string>, h: Hello)
    ensures HelloOf(fields) == Some(h) <==>
            && h.version < U64 && 1 <= h.maxMessageSize < U31
            && exists j, k :: Writes(fields, j, k, h)
  {
    hide ParseUint, Format, Zeros;
    if |fields| == 4 {
      ParseUintExactly(fields[0], U64, h.version);
      ParseUintExactly(fields[1], U31, h.maxMessageSize);
      if HelloOf(fields) == Some(h) {
        var j: nat :| fields[0] == Zeros(j) + Format(h.version);
        var k: nat :| fields[1] == Zeros(k) + Format(h.maxMessageSize);
        assert fields == [fields[0], fields[1], fields[2], fields[3]];
        assert Writes(fields, j, k, h);
      }
    }
  }

  /** Exactly which handshake answers are accepted, and as what. */
  lemma HelloExactly(resp: string, h: Hello)
    ensures ParseHello(resp) == Ok(Success(h)) <==>
            && h.version < 0x1_0000_0000_0000_0000 && 1 <= h.maxMessageSize < 0x8000_0000 && ';' !in h.role
            && exists fields, j, k :: Writes(fields, j, k, h) && resp == "ok|" + Join(fields, ';')
  {
    hide Split, Join, Open, HelloOf, Format, Zeros;
    OpenExactly(resp);
    if ParseHello(resp) == Ok(Success(h)) {
      var data := Open(resp).data;
      assert resp == "ok|" + resp[3..];
      var fields := Split(data, SEMI);
      HelloOfExactly(fields, h);
      JoinOfSplit(data, SEMI);
      SplitIsFree(data, SEMI);
      var j, k :| Writes(fields, j, k, h);
      assert fields[3] == h.role;
      assert Writes(fields, j, k, h) && resp == "ok|" + Join(fields, ';');
    }
    if h.version < U64 && 1 <= h.maxMessageSize < U31 && ';' !in h.role {
      if fields, j, k :| Writes(fields, j, k, h) && resp == "ok|" + Join(fields, ';') {
        HelloOfExactly(fields, h);
        OpenOk(Join(fields, SEMI));
        FormatHasNo(h.version, SEMI);
        FormatHasNo(h.maxMessageSize, SEMI);
        ZerosHasNo(j, SEMI);
        ZerosHasNo(k, SEMI);
        assert Free(fields, SEMI);
        SplitOfJoin(fields, SEMI);
      }
    }
  }

  lemma ZerosHasNo(k: nat, c: char)
    requires c != '0'
    ensures c !in Zeros(k)
  {
  }

  lemma HelloRoundTrip(h: Hello)
    ensures ParseHello(HelloReply(h)) == Ok(Success(h))
        <==> h.version < U64 && 1 <= h.maxMessageSize < U31 && SEMI !in h.role
  {
    hide Split, Join, Open;
    ReadBack(HelloFields(h));
    HelloOfFields(h);
  }

  // --------------------------------------------------------------- quota info

  datatype QuotaClientInfo = QuotaClientInfo(clientID: string, amount: nat, expiresAt: nat)
  datatype QuotaInfo = QuotaInfo(limit: nat, used: nat, remaining: nat, clients: seq<QuotaClientInfo>)

  function ClientOf(id: string, amount: string, expiresAt: string): Option<QuotaClientInfo> {
    var a := ParseUint(amount, U64);
    var e := ParseUint(expiresAt, U32);
    if a.None? || e.None? then None else Some(QuotaClientInfo(id, a.value, e.value))
  }

  function ClientsOf(fields: seq<string>): Option<seq<QuotaClientInfo>>
    requires |fields| % 3 == 0
  {
    if fields == [] then Some([])
    else Prepend(ClientOf(fields[0], fields[1], fields[2]), ClientsOf(fields[3..]))
  }

  function QuotaInfoOf(fields: seq<string>): Option<QuotaInfo> {
    if |fields| < 3 || (|fields| - 3) % 3 != 0 then None
    else
      var limit := ParseUint(fields[0], U64);
      var used := ParseUint(fields[1], U64);
      var remaining := ParseUint(fields[2], U64);
      var clients := ClientsOf(fields[3..]);
      if limit.None? || used.None? || remaining.None? || clients.None? then None
      else Some(QuotaInfo(limit.value, used.value, remaining.value, clients.value))
  }

  function QuotaInfoReply(resp: string): Result<Reply<QuotaInfo>> {
    var e := Open(resp);
    Read(e, if e.OkData? then QuotaInfoOf(Split(e.data, SEMI)) else None)
  }

  method ParseQuotaInfoResponse(resp: string) returns (r: Result<Reply<QuotaInfo>>)
    ensures r == QuotaInfoReply(resp)
  {
    match Open(resp) {
      case Broken(why) => r := Bad(why);
      case ErrData(error) => r := Ok(Failure(error));
      case OkData(data) =>
        var info := ParseQuotaInfoFields(Split(data, SEMI));
        r := if info.Some? then Ok(Success(info.value)) else Bad(Corrupted);
    }
  }

  /** The loop of `parseQuotaInfoResponse`: three fields a client, every index in range. */
  method ParseQuotaInfoFields(fields: seq<string>) returns (r: Option<QuotaInfo>)
    ensures r == QuotaInfoOf(fields)
  {
    hide ParseUint;
    if |fields| < 3 || (|fields| - 3) % 3 != 0 { return None; }
    var limit := ParseUint(fields[0], U64);
    if limit.None? { return None; }
    var used := ParseUint(fields[1], U64);
    if used.None? { return None; }
    var remaining := ParseUint(fields[2], U64);
    if remaining.None? { return None; }
    var clients, i := [], 3;
    while i < |fields|
      invariant 3 <= i <= |fields| && (|fields| - i) % 3 == 0
      invariant Resume(clients, ClientsOf(fields[i..])) == ClientsOf(fields[3..])
    {
      ghost var tail := fields[i..];
      assert tail[3..] == fields[i + 3..];
      assert ClientsOf(tail) == Prepend(ClientOf(fields[i], fields[i + 1], fields[i + 2]), ClientsOf(fields[i + 3..]));
      var amount := ParseUint(fields[i + 1], U64);
      if amount.None? { return None; }
      var expiresAt := ParseUint(fields[i + 2], U32);
      if expiresAt.None? { return None; }
      var client := QuotaClientInfo(fields[i], amount.value, expiresAt.value);
      ResumeStep(clients, client, ClientsOf(fields[i + 3..]));
      clients := clients + [client];
      i := i + 3;
    }
    return Some(QuotaInfo(limit.value, used.value, remaining.value, clients));
  }

  function ClientFields(clients: seq<QuotaClientInfo>): (fields: seq<string>)
    ensures |fields| == 3 * |clients|
  {
    if clients == [] then []
    else [clients[0].clientID, Format(clients[0].amount), Format(clients[0].expiresAt)] + ClientFields(clients[1..])
  }

  /** The server's way of writing quota information. */
  function QuotaInfoFields(q: QuotaInfo): (fields: seq<string>)
    ensures |fields| == 3 + 3 * |q.clients|
  {
    [Format(q.limit), Format(q.used), Format(q.remaining)] + ClientFields(q.clients)
  }

  function PrintQuotaInfo(q: QuotaInfo): string {
    "ok|" + Join(QuotaInfoFields(q), SEMI)
  }

  /** What the Go fields can hold: three 64-bit totals, 64-bit amounts, 32-bit expiry times. */
  ghost predicate QuotaFits(q: QuotaInfo) {
    && q.limit < U64 && q.used < U64 && q.remaining < U64
    && forall c | c in q.clients :: c.amount < U64 && c.expiresAt < U32
  }

  ghost predicate IdsFree(clients: seq<QuotaClientInfo>) {
    forall c | c in clients :: SEMI !in c.clientID
  }

  lemma {:induction false} ClientFieldsFree(clients: seq<QuotaClientInfo>)
    ensures Free(ClientFields(clients), SEMI) <==> IdsFree(clients)
  {
    if clients != [] {
      var c := clients[0];
      ClientFieldsFree(clients[1..]);
      FormatHasNo(c.amount, SEMI);
      FormatHasNo(c.expiresAt, SEMI);
      assert clients == [c] + clients[1..];
      assert ClientFields(clients)[0] == c.clientID;
      assert forall p | p in ClientFields(clients[1..]) :: p in ClientFields(clients);
    }
  }

  lemma {:induction false} ClientsOfFields(clients: seq<QuotaClientInfo>)
    requires forall c | c in clients :: c.amount < U64 && c.expiresAt < U32
    ensures ClientsOf(ClientFields(clients)) == Some(clients)
  {
    if clients != [] {
      var c, fields := clients[0], ClientFields(clients);
      ClientsOfFields(clients[1..]);
      ParseOfFormat(c.amount, U64);
      ParseOfFormat(c.expiresAt, U32);
      assert fields[3..] == ClientFields(clients[1..]);
      assert ClientOf(fields[0], fields[1], fields[2]) == Some(c);
      assert [c] + clients[1..] == clients;
    }
  }

  lemma {:induction false} ClientsOfSound(fields: seq<string>)
    requires |fields| % 3 == 0
    ensures ClientsOf(fields).Some? ==>
              var cs := ClientsOf(fields).value;
              && 3 * |cs| == |fields|
              && (forall c | c in cs :: c.amount < U64 && c.expiresAt < U32)
              && (Free(fields, SEMI) ==> IdsFree(cs))
  {
    if fields != [] {
      ClientsOfSound(fields[3..]);
      assert fields[0] in fields;
    }
  }

  lemma QuotaInfoOfFields(q: QuotaInfo)
    requires QuotaFits(q)
    ensures QuotaInfoOf(QuotaInfoFields(q)) == Some(q)
  {
    var fields := QuotaInfoFields(q);
    assert fields[3..] == ClientFields(q.clients);
    ClientsOfFields(q.clients);
    ParseOfFormat(q.limit, U64);
    ParseOfFormat(q.used, U64);
    ParseOfFormat(q.remaining, U64);
  }

  lemma QuotaInfoFieldsFree(q: QuotaInfo)
    ensures Free(QuotaInfoFields(q), SEMI) <==> IdsFree(q.clients)
  {
    var totals := [Format(q.limit), Format(q.used), Format(q.remaining)];
    FormatHasNo(q.limit, SEMI);
    FormatHasNo(q.used, SEMI);
    FormatHasNo(q.remaining, SEMI);
    ClientFieldsFree(q.clients);
    assert forall p :: p in QuotaInfoFields(q) <==> p in totals || p in ClientFields(q.clients);
  }

  lemma QuotaInfoOfSound(fields: seq<string>)
    requires QuotaInfoOf(fields).Some?
    ensures var q := QuotaInfoOf(fields).value;
            && |fields| == 3 + 3 * |q.clients|
            && QuotaFits(q)
            && (Free(fields, SEMI) ==> IdsFree(q.clients))
  {
    ClientsOfSound(fields[3..]);
  }

  /** Quota information of any number of clients survives printing and parsing exactly when no
      client id contains the separator. */
  lemma QuotaInfoRoundTrip(q: QuotaInfo)
    requires QuotaFits(q)
    ensures QuotaInfoReply(PrintQuotaInfo(q)) == Ok(Success(q)) <==> IdsFree(q.clients)
  {
    hide Split, Join, Open;
    var fields := QuotaInfoFields(q);
    QuotaInfoOfFields(q);
    QuotaInfoFieldsFree(q);
    ReadBack(fields);
    var got := Split(Join(fields, SEMI), SEMI);
    if QuotaInfoOf(got).Some? { QuotaInfoOfSound(got); }
  }

  /** Whatever the parser accepts fits its Go fields, so that no narrowing loses anything, and is
      a fixed point of printing and parsing. */
  lemma QuotaInfoAcceptedIsStable(resp: string)
    requires QuotaInfoReply(resp).Ok? && QuotaInfoReply(resp).value.Success?
    ensures var q := QuotaInfoReply(resp).value.value;
            QuotaFits(q) && QuotaInfoReply(PrintQuotaInfo(q)) == QuotaInfoReply(resp)
  {
    hide Split, Join, Open;
    var data := Open(resp).data;
    SplitIsFree(data, SEMI);
    QuotaInfoOfSound(Split(data, SEMI));
    QuotaInfoRoundTrip(QuotaInfoReply(resp).value.value);
  }

  // -------------------------------------------------------------- scan result

  datatype ScanKey = ScanKey(key: string, window: nat)
  datatype ScanResult = ScanResult(cursor: string, keys: seq<ScanKey>)

  function KeyOf(key: string, window: string): Option<ScanKey> {
    var w := ParseUint(window, U32);
    if w.None? then None else Some(ScanKey(key, w.value))
  }

  function KeysOf(fields: seq<string>): Option<seq<ScanKey>>
    requires |fields| % 2 == 0
  {
    if fields == [] then Some([])
    else Prepend(KeyOf(fields[0], fields[1]), KeysOf(fields[2..]))
  }

  function ScanResultOf(fields: seq<string>): Option<ScanResult> {
    if |fields| < 1 || (|fields| - 1) % 2 != 0 then None
    else
      var keys := KeysOf(fields[1..]);
      if keys.None? then None else Some(ScanResult(fields[0], keys.value))
  }

  function ScanReply(resp: string): Result<Reply<ScanResult>> {
    var e := Open(resp);
    Read(e, if e.OkData? then ScanResultOf(Split(e.data, SEMI)) else None)
  }

  method ParseScanResponse(resp: string) returns (r: Result<Reply<ScanResult>>)
    ensures r == ScanReply(resp)
  {
    match Open(resp) {
      case Broken(why) => r := Bad(why);
      case ErrData(error) => r := Ok(Failure(error));
      case OkData(data) =>
        var page := ParseScanFields(Split(data, SEMI));
        r := if page.Some? then Ok(Success(page.value)) else Bad(Corrupted);
    }
  }

  /** The loop of `parseScanResponse`: a cursor, then two fields a key. */
  method ParseScanFields(fields: seq<string>) returns (r: Option<ScanResult>)
    ensures r == ScanResultOf(fields)
  {
    hide ParseUint;
    if |fields| < 1 || (|fields| - 1) % 2 != 0 { return None; }
    var keys, i := [], 1;
    while i < |fields|
      invariant 1 <= i <= |fields| && (|fields| - i) % 2 == 0
      invariant Resume(keys, KeysOf(fields[i..])) == KeysOf(fields[1..])
    {
      ghost var tail := fields[i..];
      assert tail[2..] == fields[i + 2..];
      assert KeysOf(tail) == Prepend(KeyOf(fields[i], fields[i + 1]), KeysOf(fields[i + 2..]));
      var window := ParseUint(fields[i + 1], U32);
      if window.None? { return None; }
      var key := ScanKey(fields[i], window.value);
      ResumeStep(keys, key, KeysOf(fields[i + 2..]));
      keys := keys + [key];
      i := i + 2;
    }
    return Some(ScanResult(fields[0], keys));
  }

  function KeyFields(keys: seq<ScanKey>): (fields: seq<string>)
    ensures |fields| == 2 * |keys|
  {
    if keys == [] then [] else [keys[0].key, Format(keys[0].window)] + KeyFields(keys[1..])
  }

  /** The server's way of writing a scan page. */
  function PrintScan(s: ScanResult): string {
    "ok|" + Join([s.cursor] + KeyFields(s.keys), SEMI)
  }

  ghost predicate KeysFit(keys: seq<ScanKey>) {
    forall k | k in keys :: k.window < U32
  }

  ghost predicate KeysFree(keys: seq<ScanKey>) {
    forall k | k in keys :: SEMI !in k.key
  }

  lemma {:induction false} KeyFieldsFree(keys: seq<ScanKey>)
    ensures Free(KeyFields(keys), SEMI) <==> KeysFree(keys)
  {
    if keys != [] {
      KeyFieldsFree(keys[1..]);
      FormatHasNo(keys[0].window, SEMI);
      assert keys == [keys[0]] + keys[1..];
      assert KeyFields(keys)[0] == keys[0].key;
      assert forall p | p in KeyFields(keys[1..]) :: p in KeyFields(keys);
    }
  }

  lemma {:induction false} KeysOfFields(keys: seq<ScanKey>)
    requires KeysFit(keys)
    ensures KeysOf(KeyFields(keys)) == Some(keys)
  {
    if keys != [] {
      var fields := KeyFields(keys);
      KeysOfFields(keys[1..]);
      ParseOfFormat(keys[0].window, U32);
      assert fields[2..] == KeyFields(keys[1..]);
      assert KeyOf(fields[0], fields[1]) == Some(keys[0]);
      assert [keys[0]] + keys[1..] == keys;
    }
  }

  lemma {:induction false} KeysOfSound(fields: seq<string>)
    requires |fields| % 2 == 0
    ensures KeysOf(fields).Some? ==>
              var ks := KeysOf(fields).value;
              2 * |ks| == |fields| && KeysFit(ks) && (Free(fields, SEMI) ==> KeysFree(ks))
  {
    if fields != [] {
      KeysOfSound(fields[2..]);
      assert fields[0] in fields;
    }
  }

  lemma ScanResultOfFields(s: ScanResult)
    requires KeysFit(s.keys)
    ensures ScanResultOf([s.cursor] + KeyFields(s.keys)) == Some(s)
  {
    var fields := [s.cursor] + KeyFields(s.keys);
    assert fields[0] == s.cursor && fields[1..] == KeyFields(s.keys);
    KeysOfFields(s.keys);
  }

  lemma ScanFieldsFree(s: ScanResult)
    ensures Free([s.cursor] + KeyFields(s.keys), SEMI) <==> SEMI !in s.cursor && KeysFree(s.keys)
  {
    var fields := [s.cursor] + KeyFields(s.keys);
    KeyFieldsFree(s.keys);
    assert forall p :: p in fields <==> p in [s.cursor] || p in KeyFields(s.keys);
  }

  lemma ScanResultOfSound(fields: seq<string>)
    requires ScanResultOf(fields).Some?
    ensures var s := ScanResultOf(fields).value;
            && |fields| == 1 + 2 * |s.keys|
            && KeysFit(s.keys)
            && (Free(fields, SEMI) ==> SEMI !in s.cursor && KeysFree(s.keys))
  {
    assert fields[0] in fields;
    KeysOfSound(fields[1..]);
  }

  /** A page of any number of keys survives printing and parsing exactly when neither the cursor
      nor a key contains the separator. */
  lemma ScanRoundTrip(s: ScanResult)
    requires KeysFit(s.keys)
    ensures ScanReply(PrintScan(s)) == Ok(Success(s)) <==> SEMI !in s.cursor && KeysFree(s.keys)
  {
    hide Split, Join, Open;
    var fields := [s.cursor] + KeyFields(s.keys);
    ScanResultOfFields(s);
    ScanFieldsFree(s);
    ReadBack(fields);
    var got := Split(Join(fields, SEMI), SEMI);
    if ScanResultOf(got).Some? { ScanResultOfSound(got); }
  }

  lemma ScanAcceptedIsStable(resp: string)
    requires ScanReply(resp).Ok? && ScanReply(resp).value.Success?
    ensures var s := ScanReply(resp).value.value;
            KeysFit(s.keys) && ScanReply(PrintScan(s)) == ScanReply(resp)
  {
    hide Split, Join, Open;
    var data := Open(resp).data;
    SplitIsFree(data, SEMI);
    ScanResultOfSound(Split(data, SEMI));
    ScanRoundTrip(ScanReply(resp).value.value);
  }
}

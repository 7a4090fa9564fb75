/** The command writers of client.go: what each call puts on the wire. */
module Commands {
  import opened Text

  const SP := ' '

  datatype CappingKey = CappingKey(key: string, capping: nat)
  datatype LimitKey = LimitKey(key: string, window: nat)
  datatype Verb = Incr | Get | Del | Watch
  datatype WindowAlgorithm = FW | SW

  datatype Command =
    | Keyed(verb: Verb, key: CappingKey)
    | MDel(keys: seq<CappingKey>)
    | RLimitWindow(algorithm: WindowAlgorithm, window: LimitKey, limit: nat)
    | RLimitTokenBucket(bucket: LimitKey, capacity: nat, refillAmount: nat)
    | Quota(quota: QuotaCommand)
    | Scan(cursor: string, count: nat)
    | PScan(prefix: string, cursor: string, count: nat)

  datatype QuotaCommand =
    | Acquire(name: string, amount: nat, clientID: string, ttl: seq<nat>)
    | AcquireLease(name: string, limit: nat, amount: nat, clientID: string, ttl: seq<nat>)
    | AcquireN(name: string, clientID: string, ttl: seq<nat>)
    | Set(name: string, limit: nat)
    | SetN(name: string, limit: nat, clients: nat)
    | Release(name: string, clientID: string)
    | Delete(name: string)
    | Info(name: string)

  // ---------------------------------------------------- what a command says

  function VerbWord(v: Verb): string {
    match v case Incr => "INCR" case Get => "GET" case Del => "DEL" case Watch => "WATCH"
  }

  function AlgorithmWord(a: WindowAlgorithm): string {
    match a case FW => "FW" case SW => "SW"
  }

  function KeyFields(keys: seq<CappingKey>): (fields: seq<string>)
    ensures |fields| == 2 * |keys|
  {
    if keys == [] then [] else [keys[0].key, Format(keys[0].capping)] + KeyFields(keys[1..])
  }

  /** Only the first optional TTL is sent. */
  function TtlFields(ttl: seq<nat>): seq<string> {
    if ttl == [] then [] else [Format(ttl[0])]
  }

  function QuotaFields(q: QuotaCommand): seq<string> {
    match q
    case Acquire(name, amount, id, ttl) => ["ACQ", name, Format(amount), id] + TtlFields(ttl)
    case AcquireLease(name, limit, amount, id, ttl) =>
      ["ACQL", name, Format(limit), Format(amount), id] + TtlFields(ttl)
    case AcquireN(name, id, ttl) => ["ACQN", name, id] + TtlFields(ttl)
    case Set(name, limit) => ["SET", name, Format(limit)]
    case SetN(name, limit, clients) => ["SETN", name, Format(limit), Format(clients)]
    case Release(name, id) => ["REL", name, id]
    case Delete(name) => ["DEL", name]
    case Info(name) => ["INF", name]
  }

  function CursorField(cursor: string): string {
    if cursor == "" then "0" else cursor
  }

  /** The words of a command. An empty MDEL still has the space after its name. */
  function Fields(c: Command): (fields: seq<string>)
    ensures |fields| > 0
  {
    match c
    case Keyed(verb, key) => [VerbWord(verb), key.key, Format(key.capping)]
    case MDel(keys) => ["MDEL"] + if keys == [] then [""] else KeyFields(keys)
    case RLimitWindow(a, key, limit) => ["RLIMIT", AlgorithmWord(a), key.key, Format(limit), Format(key.window)]
    case RLimitTokenBucket(key, capacity, refill) =>
      ["RLIMIT", "TB", key.key, Format(capacity), Format(refill), Format(key.window)]
    case Quota(q) => ["QUOTA"] + QuotaFields(q)
    case Scan(cursor, count) => ["SCAN", CursorField(cursor), Format(count)]
    case PScan(prefix, cursor, count) => ["PSCAN", prefix, CursorField(cursor), Format(count)]
  }

  /** The bytes of a command: its words, one space between two of them. */
  function Print(c: Command): string {
    Join(Fields(c), SP)
  }

  // -------------------------------------------------------------- the writers

  /** `bytes.Buffer`, as far as the writers use it. */
  class Buffer {
    var data: string

    constructor ()
      ensures data == ""
    {
      data := "";
    }

    method WriteString(s: string)
      modifies this
      ensures data == old(data) + s
    {
      data := data + s;
    }

    method WriteByte(c: char)
      modifies this
      ensures data == old(data) + [c]
    {
      data := data + [c];
    }

    /** Since `before`, exactly these words have been written. */
    ghost predicate Holds(before: string, words: seq<string>)
      reads this
    {
      words != [] && data == before + Join(words, SP)
    }

    /** One space and one word. */
    method WriteWord(word: string, ghost before: string, ghost words: seq<string>)
      requires Holds(before, words)
      modifies this
      ensures Holds(before, words + [word])
    {
      WriteByte(SP);
      WriteString(word);
      JoinSnoc(words, word);
      assert before + Join(words, SP) + [SP] + word == before + (Join(words, SP) + [SP] + word);
    }
  }

  lemma {:induction false} JoinSnoc(parts: seq<string>, last: string)
    requires parts != []
    ensures Join(parts + [last], SP) == Join(parts, SP) + [SP] + last
  {
    if |parts| == 1 {
      assert (parts + [last])[1..] == [last];
    } else {
      JoinSnoc(parts[1..], last);
      assert (parts + [last])[1..] == parts[1..] + [last];
    }
  }

  method WriteMultiCommand(buf: Buffer, keys: seq<CappingKey>)
    modifies buf
    ensures buf.data == old(buf.data) + Print(MDel(keys))
  {
    hide Join, Format;
    ghost var before := buf.data;
    buf.WriteString("MDEL");
    buf.WriteByte(SP);
    JoinOne("MDEL", SP);
    assert ["MDEL"] + KeyFields([]) == ["MDEL"];
    for i := 0 to |keys|
      invariant buf.data == before + Join(["MDEL"] + KeyFields(keys[..i]), SP) + Tail(keys, i)
    {
      ghost var words := ["MDEL"] + KeyFields(keys[..i]);
      buf.WriteString(keys[i].key);
      assert buf.data == before + (Join(words, SP) + [SP] + keys[i].key);
      JoinSnoc(words, keys[i].key);
      buf.WriteWord(Format(keys[i].capping), before, words + [keys[i].key]);
      KeyFieldsSnoc(keys[..i], keys[i]);
      assert keys[..i + 1] == keys[..i] + [keys[i]];
      assert words + [keys[i].key] + [Format(keys[i].capping)] == ["MDEL"] + KeyFields(keys[..i + 1]);
      if i < |keys| - 1 {
        buf.WriteByte(SP);
      }
    }
    assert keys[..|keys|] == keys;
    if keys == [] {
      JoinSnoc(["MDEL"], "");
    }
  }

  /** The space the writing loop leaves behind key `n`. */
  ghost function Tail(keys: seq<CappingKey>, n: nat): string {
    if n < |keys| || keys == [] then [SP] else ""
  }

  lemma {:induction false} KeyFieldsSnoc(keys: seq<CappingKey>, k: CappingKey)
    ensures KeyFields(keys + [k]) == KeyFields(keys) + [k.key, Format(k.capping)]
  {
    if keys == [] {
      assert keys + [k] == [k] && [k][1..] == [];
    } else {
      KeyFieldsSnoc(keys[1..], k);
      assert (keys + [k])[1..] == keys[1..] + [k];
    }
  }

  method WriteCommand(buf: Buffer, verb: Verb, key: CappingKey)
    modifies buf
    ensures buf.data == old(buf.data) + Print(Keyed(verb, key))
  {
    ghost var before, words := buf.data, [VerbWord(verb)];
    buf.WriteString(VerbWord(verb));
    buf.WriteWord(key.key, before, words);
    words := words + [key.key];
    buf.WriteWord(Format(key.capping), before, words);
    words := words + [Format(key.capping)];
    assert words == Fields(Keyed(verb, key));
  }

  method WriteRLimitWindowCommand(buf: Buffer, algorithm: WindowAlgorithm, key: LimitKey, limit: nat)
    modifies buf
    ensures buf.data == old(buf.data) + Print(RLimitWindow(algorithm, key, limit))
  {
    ghost var before, words := buf.data, ["RLIMIT"];
    buf.WriteString("RLIMIT");
    buf.WriteWord(AlgorithmWord(algorithm), before, words);
    words := words + [AlgorithmWord(algorithm)];
    buf.WriteWord(key.key, before, words);
    words := words + [key.key];
    buf.WriteWord(Format(limit), before, words);
    words := words + [Format(limit)];
    buf.WriteWord(Format(key.window), before, words);
    words := words + [Format(key.window)];
    assert words == Fields(RLimitWindow(algorithm, key, limit));
  }

  method WriteRLimitTokenBucketCommand(buf: Buffer, key: LimitKey, capacity: nat, refillAmount: nat)
    modifies buf
    ensures buf.data == old(buf.data) + Print(RLimitTokenBucket(key, capacity, refillAmount))
  {
    ghost var before, words := buf.data, ["RLIMIT"];
    buf.WriteString("RLIMIT");
    buf.WriteWord("TB", before, words);
    words := words + ["TB"];
    buf.WriteWord(key.key, before, words);
    words := words + [key.key];
    buf.WriteWord(Format(capacity), before, words);
    words := words + [Format(capacity)];
    buf.WriteWord(Format(refillAmount), before, words);
    words := words + [Format(refillAmount)];
    buf.WriteWord(Format(key.window), before, words);
    words := words + [Format(key.window)];
    assert words == Fields(RLimitTokenBucket(key, capacity, refillAmount));
  }

  method WriteQuotaAcquireCommand(buf: Buffer, name: string, amount: nat, clientID: string, ttl: seq<nat>)
    modifies buf
    ensures buf.data == old(buf.data) + Print(Quota(Acquire(name, amount, clientID, ttl)))
  {
    ghost var before, words := buf.data, ["QUOTA"];
    buf.WriteString("QUOTA");
    buf.WriteWord("ACQ", before, words);
    words := words + ["ACQ"];
    buf.WriteWord(name, before, words);
    words := words + [name];
    buf.WriteWord(Format(amount), before, words);
    words := words + [Format(amount)];
    buf.WriteWord(clientID, before, words);
    words := words + [clientID];
    if |ttl| > 0 {
      buf.WriteWord(Format(ttl[0]), before, words);
      words := words + [Format(ttl[0])];
    }
    assert words == Fields(Quota(Acquire(name, amount, clientID, ttl)));
  }

  method WriteQuotaAcquireLeaseCommand(buf: Buffer, name: string, limit: nat, amount: nat, clientID: string,
                                       ttl: seq<nat>)
    modifies buf
    ensures buf.data == old(buf.data) + Print(Quota(AcquireLease(name, limit, amount, clientID, ttl)))
  {
    ghost var before, words := buf.data, ["QUOTA"];
    buf.WriteString("QUOTA");
    buf.WriteWord("ACQL", before, words);
    words := words + ["ACQL"];
    buf.WriteWord(name, before, words);
    words := words + [name];
    buf.WriteWord(Format(limit), before, words);
    words := words + [Format(limit)];
    buf.WriteWord(Format(amount), before, words);
    words := words + [Format(amount)];
    buf.WriteWord(clientID, before, words);
    words := words + [clientID];
    if |ttl| > 0 {
      buf.WriteWord(Format(ttl[0]), before, words);
      words := words + [Format(ttl[0])];
    }
    assert words == Fields(Quota(AcquireLease(name, limit, amount, clientID, ttl)));
  }

  method WriteQuotaAcquireNCommand(buf: Buffer, name: string, clientID: string, ttl: seq<nat>)
    modifies buf
    ensures buf.data == old(buf.data) + Print(Quota(AcquireN(name, clientID, ttl)))
  {
    ghost var before, words := buf.data, ["QUOTA"];
    buf.WriteString("QUOTA");
    buf.WriteWord("ACQN", before, words);
    words := words + ["ACQN"];
    buf.WriteWord(name, before, words);
    words := words + [name];
    buf.WriteWord(clientID, before, words);
    words := words + [clientID];
    if |ttl| > 0 {
      buf.WriteWord(Format(ttl[0]), before, words);
      words := words + [Format(ttl[0])];
    }
    assert words == Fields(Quota(AcquireN(name, clientID, ttl)));
  }

  method WriteQuotaSetCommand(buf: Buffer, name: string, limit: nat)
    modifies buf
    ensures buf.data == old(buf.data) + Print(Quota(Set(name, limit)))
  {
    ghost var before, words := buf.data, ["QUOTA"];
    buf.WriteString("QUOTA");
    buf.WriteWord("SET", before, words);
    words := words + ["SET"];
    buf.WriteWord(name, before, words);
    words := words + [name];
    buf.WriteWord(Format(limit), before, words);
    words := words + [Format(limit)];
    assert words == Fields(Quota(Set(name, limit)));
  }

  method WriteQuotaSetNCommand(buf: Buffer, name: string, limit: nat, clients: nat)
    modifies buf
    ensures buf.data == old(buf.data) + Print(Quota(SetN(name, limit, clients)))
  {
    ghost var before, words := buf.data, ["QUOTA"];
    buf.WriteString("QUOTA");
    buf.WriteWord("SETN", before, words);
    words := words + ["SETN"];
    buf.WriteWord(name, before, words);
    words := words + [name];
    buf.WriteWord(Format(limit), before, words);
    words := words + [Format(limit)];
    buf.WriteWord(Format(clients), before, words);
    words := words + [Format(clients)];
    assert words == Fields(Quota(SetN(name, limit, clients)));
  }

  method WriteQuotaReleaseCommand(buf: Buffer, name: string, clientID: string)
    modifies buf
    ensures buf.data == old(buf.data) + Print(Quota(Release(name, clientID)))
  {
    ghost var before, words := buf.data, ["QUOTA"];
    buf.WriteString("QUOTA");
    buf.WriteWord("REL", before, words);
    words := words + ["REL"];
    buf.WriteWord(name, before, words);
    words := words + [name];
    buf.WriteWord(clientID, before, words);
    words := words + [clientID];
    assert words == Fields(Quota(Release(name, clientID)));
  }

  method WriteQuotaDeleteCommand(buf: Buffer, name: string)
    modifies buf
    ensures buf.data == old(buf.data) + Print(Quota(Delete(name)))
  {
    ghost var before, words := buf.data, ["QUOTA"];
    buf.WriteString("QUOTA");
    buf.WriteWord("DEL", before, words);
    words := words + ["DEL"];
    buf.WriteWord(name, before, words);
    words := words + [name];
    assert words == Fields(Quota(Delete(name)));
  }

  method WriteQuotaInfoCommand(buf: Buffer, name: string)
    modifies buf
    ensures buf.data == old(buf.data) + Print(Quota(Info(name)))
  {
    ghost var before, words := buf.data, ["QUOTA"];
    buf.WriteString("QUOTA");
    buf.WriteWord("INF", before, words);
    words := words + ["INF"];
    buf.WriteWord(name, before, words);
    words := words + [name];
    assert words == Fields(Quota(Info(name)));
  }

  method WriteScanCommand(buf: Buffer, cursor: string, count: nat)
    modifies buf
    ensures buf.data == old(buf.data) + Print(Scan(cursor, count))
  {
    ghost var before, words := buf.data, ["SCAN"];
    buf.WriteString("SCAN");
    var shown := if cursor == "" then "0" else cursor;
    buf.WriteWord(shown, before, words);
    words := words + [shown];
    buf.WriteWord(Format(count), before, words);
    words := words + [Format(count)];
    assert words == Fields(Scan(cursor, count));
  }

  method WritePScanCommand(buf: Buffer, prefix: string, cursor: string, count: nat)
    modifies buf
    ensures buf.data == old(buf.data) + Print(PScan(prefix, cursor, count))
  {
    ghost var before, words := buf.data, ["PSCAN"];
    buf.WriteString("PSCAN");
    buf.WriteWord(prefix, before, words);
    words := words + [prefix];
    var shown := if cursor == "" then "0" else cursor;
    buf.WriteWord(shown, before, words);
    words := words + [shown];
    buf.WriteWord(Format(count), before, words);
    words := words + [Format(count)];
    assert words == Fields(PScan(prefix, cursor, count));
  }

  // ------------------------------------------------------ reading them back

  /** A reader of commands, as the server would have one: the inverse the writers are held to. */
  function Decode(s: string): Option<Command> {
    DecodeFields(Split(s, SP))
  }

  function DecodeFields(f: seq<string>): Option<Command>
    requires f != []
  {
    if f[0] == "MDEL" then
      if f[1..] == [""] then Some(MDel([]))
      else
        var keys := KeysOf(f[1..]);
        if keys.None? || keys.value == [] then None else Some(MDel(keys.value))
    else if f[0] == "RLIMIT" then DecodeRLimit(f)
    else if f[0] == "QUOTA" then
      var q := DecodeQuota(f[1..]);
      if q.None? then None else Some(Quota(q.value))
    else if f[0] == "SCAN" then
      if |f| != 3 || ParseUint(f[2], U32).None? then None
      else Some(Scan(f[1], ParseUint(f[2], U32).value))
    else if f[0] == "PSCAN" then
      if |f| != 4 || ParseUint(f[3], U32).None? then None
      else Some(PScan(f[1], f[2], ParseUint(f[3], U32).value))
    else
      var verb := VerbOf(f[0]);
      if |f| != 3 || verb.None? || ParseUint(f[2], U32).None? then None
      else Some(Keyed(verb.value, CappingKey(f[1], ParseUint(f[2], U32).value)))
  }

  function VerbOf(word: string): Option<Verb> {
    if word == "INCR" then Some(Incr) else if word == "GET" then Some(Get)
    else if word == "DEL" then Some(Del) else if word == "WATCH" then Some(Watch) else None
  }

  function KeysOf(f: seq<string>): Option<seq<CappingKey>> {
    if f == [] then Some([])
    else if |f| == 1 then None
    else
      var capping := ParseUint(f[1], U32);
      var rest := KeysOf(f[2..]);
      if capping.None? || rest.None? then None
      else Some([CappingKey(f[0], capping.value)] + rest.value)
  }

  function DecodeRLimit(f: seq<string>): Option<Command> {
    if |f| == 5 && (f[1] == "FW" || f[1] == "SW") then
      var limit := ParseUint(f[3], U32);
      var window := ParseUint(f[4], U32);
      if limit.None? || window.None? then None
      else Some(RLimitWindow(if f[1] == "FW" then FW else SW, LimitKey(f[2], window.value), limit.value))
    else if |f| == 6 && f[1] == "TB" then
      var capacity := ParseUint(f[3], U32);
      var refill := ParseUint(f[4], U32);
      var window := ParseUint(f[5], U32);
      if capacity.None? || refill.None? || window.None? then None
      else Some(RLimitTokenBucket(LimitKey(f[2], window.value), capacity.value, refill.value))
    else None
  }

  function TtlOf(f: seq<string>): Option<seq<nat>> {
    if f == [] then Some([])
    else if |f| == 1 && ParseUint(f[0], U32).Some? then Some([ParseUint(f[0], U32).value])
    else None
  }

  function DecodeQuota(f: seq<string>): Option<QuotaCommand> {
    if |f| < 2 then None
    else if f[0] == "ACQ" then
      if |f| < 4 then None else
        var amount := ParseUint(f[2], U32);
        var ttl := TtlOf(f[4..]);
        if amount.None? || ttl.None? then None else Some(Acquire(f[1], amount.value, f[3], ttl.value))
    else if f[0] == "ACQL" then
      if |f| < 5 then None else
        var limit := ParseUint(f[2], U32);
        var amount := ParseUint(f[3], U32);
        var ttl := TtlOf(f[5..]);
        if limit.None? || amount.None? || ttl.None? then None
        else Some(AcquireLease(f[1], limit.value, amount.value, f[4], ttl.value))
    else if f[0] == "ACQN" then
      if |f| < 3 then None else
        var ttl := TtlOf(f[3..]);
        if ttl.None? then None else Some(AcquireN(f[1], f[2], ttl.value))
    else if f[0] == "SET" then
      if |f| != 3 || ParseUint(f[2], U32).None? then None
      else Some(Set(f[1], ParseUint(f[2], U32).value))
    else if f[0] == "SETN" then
      if |f| != 4 || ParseUint(f[2], U32).None? || ParseUint(f[3], U32).None? then None
      else Some(SetN(f[1], ParseUint(f[2], U32).value, ParseUint(f[3], U32).value))
    else if f[0] == "REL" then
      if |f| != 3 then None else Some(Release(f[1], f[2]))
    else if |f| != 2 then None
    else if f[0] == "DEL" then Some(Delete(f[1]))
    else if f[0] == "INF" then Some(Info(f[1]))
    else None
  }

  /** Two calls mean the same to the wire when they agree on the first TTL and on the cursor,
      an empty cursor standing for "0". */
  function FirstTtl(ttl: seq<nat>): seq<nat> {
    if ttl == [] then [] else [ttl[0]]
  }

  function Normal(c: Command): Command {
    match c
    case Quota(q) => Quota(NormalQuota(q))
    case Scan(cursor, count) => Scan(CursorField(cursor), count)
    case PScan(prefix, cursor, count) => PScan(prefix, CursorField(cursor), count)
    case _ => c
  }

  function NormalQuota(q: QuotaCommand): QuotaCommand {
    match q
    case Acquire(name, amount, id, ttl) => Acquire(name, amount, id, FirstTtl(ttl))
    case AcquireLease(name, limit, amount, id, ttl) => AcquireLease(name, limit, amount, id, FirstTtl(ttl))
    case AcquireN(name, id, ttl) => AcquireN(name, id, FirstTtl(ttl))
    case _ => q
  }

  /** Every number of the call is the 32-bit number its Go parameter is. */
  ghost predicate Fits(c: Command) {
    match c
    case Keyed(_, key) => key.capping < U32
    case MDel(keys) => forall k | k in keys :: k.capping < U32
    case RLimitWindow(_, key, limit) => limit < U32 && key.window < U32
    case RLimitTokenBucket(key, capacity, refill) => capacity < U32 && refill < U32 && key.window < U32
    case Quota(q) => QuotaCommandFits(q)
    case Scan(_, count) => count < U32
    case PScan(_, _, count) => count < U32
  }

  ghost predicate QuotaCommandFits(q: QuotaCommand) {
    match q
    case Acquire(_, amount, _, ttl) => amount < U32 && forall t | t in ttl :: t < U32
    case AcquireLease(_, limit, amount, _, ttl) => limit < U32 && amount < U32 && forall t | t in ttl :: t < U32
    case AcquireN(_, _, ttl) => forall t | t in ttl :: t < U32
    case Set(_, limit) => limit < U32
    case SetN(_, limit, clients) => limit < U32 && clients < U32
    case _ => true
  }

  /** No key, name, id, prefix or cursor of the call contains a space. */
  ghost predicate SpaceFree(c: Command) {
    match c
    case Keyed(_, key) => SP !in key.key
    case MDel(keys) => forall k | k in keys :: SP !in k.key
    case RLimitWindow(_, key, _) => SP !in key.key
    case RLimitTokenBucket(key, _, _) => SP !in key.key
    case Quota(q) => QuotaSpaceFree(q)
    case Scan(cursor, _) => SP !in cursor
    case PScan(prefix, cursor, _) => SP !in prefix && SP !in cursor
  }

  ghost predicate QuotaSpaceFree(q: QuotaCommand) {
    && SP !in q.name
    && (q.Acquire? || q.AcquireLease? || q.AcquireN? || q.Release? ==> SP !in q.clientID)
  }

  lemma {:induction false} KeysOfFields(keys: seq<CappingKey>)
    requires forall k | k in keys :: k.capping < U32
    ensures KeysOf(KeyFields(keys)) == Some(keys)
  {
    if keys != [] {
      var f := KeyFields(keys);
      KeysOfFields(keys[1..]);
      ParseOfFormat(keys[0].capping, U32);
      assert f[2..] == KeyFields(keys[1..]);
      assert [keys[0]] + keys[1..] == keys;
    }
  }

  lemma {:induction false} KeyFieldsFree(keys: seq<CappingKey>)
    ensures Free(KeyFields(keys), SP) <==> forall k | k in keys :: SP !in k.key
  {
    if keys != [] {
      KeyFieldsFree(keys[1..]);
      FormatHasNo(keys[0].capping, SP);
      assert keys == [keys[0]] + keys[1..];
      assert KeyFields(keys)[0] == keys[0].key;
      assert forall p | p in KeyFields(keys[1..]) :: p in KeyFields(keys);
    }
  }

  lemma {:induction false} KeysOfLength(f: seq<string>)
    ensures KeysOf(f).Some? ==> 2 * |KeysOf(f).value| == |f|
  {
    if |f| > 1 { KeysOfLength(f[2..]); }
  }

  lemma TtlOfFields(ttl: seq<nat>)
    requires forall t | t in ttl :: t < U32
    ensures TtlOf(TtlFields(ttl)) == Some(FirstTtl(ttl))
  {
    if ttl != [] {
      assert ttl[0] in ttl;
      ParseOfFormat(ttl[0], U32);
    }
  }

  lemma DecodeQuotaOfFields(q: QuotaCommand)
    requires QuotaCommandFits(q)
    ensures DecodeQuota(QuotaFields(q)) == Some(NormalQuota(q))
  {
    hide ParseUint, Format, TtlOf, TtlFields;
    var f := QuotaFields(q);
    forall n: nat | n < U32 ensures ParseUint(Format(n), U32) == Some(n) { ParseOfFormat(n, U32); }
    match q
    case Acquire(_, _, _, ttl) => TtlOfFields(ttl); assert f[4..] == TtlFields(ttl);
    case AcquireLease(_, _, _, _, ttl) => TtlOfFields(ttl); assert f[5..] == TtlFields(ttl);
    case AcquireN(_, _, ttl) => TtlOfFields(ttl); assert f[3..] == TtlFields(ttl);
    case _ =>
  }

  lemma DecodeOfFields(c: Command)
    requires Fits(c)
    ensures DecodeFields(Fields(c)) == Some(Normal(c))
  {
    var f := Fields(c);
    forall n: nat | n < U32 ensures ParseUint(Format(n), U32) == Some(n) { ParseOfFormat(n, U32); }
    match c
    case MDel(keys) =>
      if keys != [] { KeysOfFields(keys); assert f[1..] == KeyFields(keys); }
    case Quota(q) => DecodeQuotaOfFields(q); assert f[1..] == QuotaFields(q);
    case _ =>
  }

  lemma FreeCons(head: string, rest: seq<string>)
    ensures Free([head] + rest, SP) <==> SP !in head && Free(rest, SP)
  {
    assert ([head] + rest)[0] == head;
    assert forall p | p in rest :: p in [head] + rest;
  }

  lemma FreeCons3(a: string, b: string, c: string, rest: seq<string>)
    ensures Free([a, b, c] + rest, SP) <==> SP !in a && SP !in b && SP !in c && Free(rest, SP)
  {
    FreeCons(c, rest);
    FreeCons(b, [c] + rest);
    FreeCons(a, [b] + ([c] + rest));
    assert [a, b, c] + rest == [a] + ([b] + ([c] + rest));
  }

  lemma QuotaFieldsFree(q: QuotaCommand)
    ensures Free(QuotaFields(q), SP) <==> QuotaSpaceFree(q)
  {
    var f := QuotaFields(q);
    forall n: nat ensures SP !in Format(n) { FormatHasNo(n, SP); }
    if |f| > 2 {
      FreeCons3(f[0], f[1], f[2], f[3..]);
      assert f == [f[0], f[1], f[2]] + f[3..];
      if |f| > 3 {
        FreeCons(f[3], f[4..]);
        assert f[3..] == [f[3]] + f[4..];
      }
    }
  }

  lemma FieldsFree(c: Command)
    ensures Free(Fields(c), SP) <==> SpaceFree(c)
  {
    var f := Fields(c);
    forall n: nat ensures SP !in Format(n) { FormatHasNo(n, SP); }
    match c
    case MDel(keys) => KeyFieldsFree(keys); FreeCons("MDEL", if keys == [] then [""] else KeyFields(keys));
    case Quota(q) => QuotaFieldsFree(q); FreeCons("QUOTA", QuotaFields(q));
    case _ =>
      FreeCons3(f[0], f[1], f[2], f[3..]);
      assert f == [f[0], f[1], f[2]] + f[3..];
  }

  lemma DecodeQuotaLength(f: seq<string>)
    requires DecodeQuota(f).Some?
    ensures |QuotaFields(DecodeQuota(f).value)| == |f|
  {
    hide ParseUint, Format;
  }

  lemma DecodeLength(f: seq<string>)
    requires f != [] && DecodeFields(f).Some?
    ensures |Fields(DecodeFields(f).value)| == |f|
  {
    hide ParseUint, Format, KeysOf, DecodeQuota, QuotaFields;
    if f[0] == "MDEL" { KeysOfLength(f[1..]); }
    if f[0] == "QUOTA" && DecodeQuota(f[1..]).Some? { DecodeQuotaLength(f[1..]); }
  }

  /** The words of a call come back from the wire exactly when none of them contains a space. */
  lemma DecodeOfPrint(c: Command)
    requires Fits(c)
    ensures Decode(Print(c)) == Some(Normal(c)) <==> SpaceFree(c)
  {
    var f, got := Fields(c), Split(Print(c), SP);
    DecodeOfFields(c);
    FieldsFree(c);
    SplitOfJoin(f, SP);
    NormalSameFields(c);
    if DecodeFields(got).Some? { DecodeLength(got); }
  }

  lemma NormalSameFields(c: Command)
    ensures Fields(Normal(c)) == Fields(c)
  {
  }

  /** Different calls print different bytes, up to the first TTL and the empty cursor. */
  lemma PrintUnambiguous(c: Command, d: Command)
    requires Fits(c) && SpaceFree(c) && Fits(d) && SpaceFree(d)
    ensures Print(c) == Print(d) <==> Normal(c) == Normal(d)
  {
    DecodeOfPrint(c);
    DecodeOfPrint(d);
    NormalSameFields(c);
    NormalSameFields(d);
  }

  /** With a space inside an id two different calls do print the same bytes. */
  lemma SpaceIsAmbiguous()
    ensures Print(Quota(Acquire("q", 1, "id 5", []))) == Print(Quota(Acquire("q", 1, "id", [5])))
  {
    hide Join;
    var words := ["QUOTA", "ACQ", "q", Format(1)];
    JoinSnoc(words, "id 5");
    JoinSnoc(words, "id");
    JoinSnoc(words + ["id"], "5");
    assert words + ["id 5"] == Fields(Quota(Acquire("q", 1, "id 5", [])));
    assert words + ["id"] + ["5"] == Fields(Quota(Acquire("q", 1, "id", [5])));
  }
}

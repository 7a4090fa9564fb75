/** The sharded client as one logical database: histories over many shards and over one store. */
module ShardedStore {
  import opened Text
  import opened ShardedClient
  import Replies

  /** What a database knows, by routed name. What it keeps under a name, and what the commands do to
      that, are the server's business. */
  type Store<C> = map<string, C>

  /** A command on one name: its reply is a number, as the wire has it. */
  datatype Call<O> = Call(name: string, op: O)

  datatype Command<O> =
    | Keyed(call: Call<O>)
    | Delete(call: Call<O>)
    | DeleteAll(calls: seq<Call<O>>)
    | Flush

  datatype Reply = Number(value: nat) | Flag(ok: bool) | Flags(oks: seq<bool>) | Refused

  function Look<C>(st: Store<C>, name: string): Option<C> {
    if name in st then Some(st[name]) else None
  }

  function Put<C>(st: Store<C>, name: string, cell: Option<C>): Store<C> {
    if cell.Some? then st[name := cell.value] else st - {name}
  }

  /** Whatever `apply` does with the cell of the name, it is all a store does. */
  function Do<C, O>(apply: (O, Option<C>) -> (Option<C>, nat), st: Store<C>, call: Call<O>): (Store<C>, nat) {
    var (cell, value) := apply(call.op, Look(st, call.name));
    (Put(st, call.name, cell), value)
  }

  /** `result.value == 1`. */
  ghost function Del<C, O>(apply: (O, Option<C>) -> (Option<C>, nat)): (Store<C>, Call<O>) -> (Store<C>, bool) {
    (st: Store<C>, call: Call<O>) => (Do(apply, st, call).0, Do(apply, st, call).1 == 1)
  }

  ghost function CallRoute<O>(route: string -> int): Call<O> -> int {
    (call: Call<O>) => route(call.name)
  }

  // --------------------------------------------------------------- one store

  /** One database that refuses the names `valid` rules out, a batch with such a name as a whole. */
  ghost function SingleStep<C, O>(apply: (O, Option<C>) -> (Option<C>, nat), valid: string -> bool,
                                  st: Store<C>, command: Command<O>): (Store<C>, Reply)
  {
    match command
    case Keyed(call) => if !valid(call.name) then (st, Refused) else var (t, v) := Do(apply, st, call); (t, Number(v))
    case Delete(call) => if !valid(call.name) then (st, Refused) else var (t, b) := Del(apply)(st, call); (t, Flag(b))
    case DeleteAll(calls) =>
      if exists i :: 0 <= i < |calls| && !valid(calls[i].name) then (st, Refused)
      else var (t, bs) := Each(Del(apply), st, calls); (t, Flags(bs))
    case Flush => (map[], Flag(true))
  }

  // ------------------------------------------------------------- many stores

  ghost predicate InRange(route: string -> int, n: nat, name: string) { 0 <= route(name) < n }

  /** The client of `sharded_client.go` over shards that are stores: `OnShard`, `MDelIsOneByOne` and
      `OnAllShards` of the class prove that its methods do this. */
  ghost function ShardedStep<C, O>(apply: (O, Option<C>) -> (Option<C>, nat), route: string -> int,
                                   shards: seq<Store<C>>, command: Command<O>): (r: (seq<Store<C>>, Reply))
    ensures |r.0| == |shards|
  {
    match command
    case Keyed(call) =>
      if !InRange(route, |shards|, call.name) then (shards, Refused)
      else
        var s := route(call.name);
        var (t, v) := Do(apply, shards[s], call);
        (shards[s := t], Number(v))
    case Delete(call) =>
      if !InRange(route, |shards|, call.name) then (shards, Refused)
      else
        var s := route(call.name);
        var (t, b) := Del(apply)(shards[s], call);
        (shards[s := t], Flag(b))
    case DeleteAll(calls) =>
      if !AllInRange(calls, CallRoute(route), |shards|) then (shards, Refused)
      else var (ts, bs) := OneByOne(Del(apply), CallRoute(route), shards, calls); (ts, Flags(bs))
    case Flush => (seq(|shards|, _ => map[]), Flag(true))
  }

  // --------------------------------------------------- what a shard answers

  /** The calls applied one after the other, and the number each of them gave. */
  function Numbers<C, O>(apply: (O, Option<C>) -> (Option<C>, nat), st: Store<C>, calls: seq<Call<O>>)
    : (r: (Store<C>, seq<nat>))
    ensures |r.1| == |calls|
  {
    if calls == [] then (st, [])
    else
      var n := |calls| - 1;
      var (t, values) := Numbers(apply, st, calls[..n]);
      var (u, v) := Do(apply, t, calls[n]);
      (u, values + [v])
  }

  /** A shard's answer to a batch: the numbers of its reply, read as `valuesToBools` reads them. */
  function BatchAnswer<C, O>(apply: (O, Option<C>) -> (Option<C>, nat), st: Store<C>, calls: seq<Call<O>>)
    : (Store<C>, Option<seq<bool>>)
  {
    var (t, values) := Numbers(apply, st, calls);
    (t, Some(Replies.Bools(values)))
  }

  lemma {:induction false} EachOfNumbers<C, O>(apply: (O, Option<C>) -> (Option<C>, nat), st: Store<C>,
                                               calls: seq<Call<O>>)
    ensures Each(Del(apply), st, calls) == (Numbers(apply, st, calls).0, Replies.Bools(Numbers(apply, st, calls).1))
  {
    if calls != [] {
      var n := |calls| - 1;
      EachOfNumbers(apply, st, calls[..n]);
      var (t, values) := Numbers(apply, st, calls[..n]);
      var (u, v) := Do(apply, t, calls[n]);
      assert Replies.Bools(values + [v]) == Replies.Bools(values) + [v == 1];
    }
  }

  // -------------------------------------------------------------- refinement

  /** Shard `i` holds only names routed to `i`. */
  ghost predicate Placed<C>(route: string -> int, shards: seq<Store<C>>) {
    forall i, name | 0 <= i < |shards| && name in shards[i] :: route(name) == i
  }

  ghost function Merge<C>(shards: seq<Store<C>>): Store<C> {
    if shards == [] then map[] else Merge(shards[..|shards| - 1]) + shards[|shards| - 1]
  }

  ghost function LookIn<C>(route: string -> int, shards: seq<Store<C>>, name: string): Option<C> {
    if InRange(route, |shards|, name) then Look(shards[route(name)], name) else None
  }

  lemma {:induction false} MergeLook<C>(route: string -> int, shards: seq<Store<C>>, name: string)
    requires Placed(route, shards)
    ensures Look(Merge(shards), name) == LookIn(route, shards, name)
  {
    if shards != [] {
      var n := |shards| - 1;
      MergeLook(route, shards[..n], name);
    }
  }

  lemma SameLooks<C>(a: Store<C>, b: Store<C>)
    requires forall name :: Look(a, name) == Look(b, name)
    ensures a == b
  {
    assert forall name :: name in a <==> Look(a, name).Some?;
    assert forall name :: name in b <==> Look(b, name).Some?;
    assert forall name | name in a :: a[name] == Look(a, name).value == Look(b, name).value == b[name];
  }

  /** A command on one name, routed, is that command on the merged store. */
  lemma DoRefines<C, O>(apply: (O, Option<C>) -> (Option<C>, nat), route: string -> int,
                        shards: seq<Store<C>>, call: Call<O>)
    requires Placed(route, shards) && InRange(route, |shards|, call.name)
    ensures var s := route(call.name);
            var (t, v) := Do(apply, shards[s], call);
            Placed(route, shards[s := t]) && Do(apply, Merge(shards), call) == (Merge(shards[s := t]), v)
  {
    var s := route(call.name);
    var (t, v) := Do(apply, shards[s], call);
    var after := shards[s := t];
    assert Placed(route, after);
    MergeLook(route, shards, call.name);
    var single := Do(apply, Merge(shards), call).0;
    forall name ensures Look(single, name) == Look(Merge(after), name) {
      MergeLook(route, shards, name);
      MergeLook(route, after, name);
    }
    SameLooks(single, Merge(after));
  }

  lemma {:induction false} BatchRefines<C, O>(apply: (O, Option<C>) -> (Option<C>, nat), route: string -> int,
                                              shards: seq<Store<C>>, calls: seq<Call<O>>)
    requires Placed(route, shards) && AllInRange(calls, CallRoute(route), |shards|)
    ensures var (ts, bs) := OneByOne(Del(apply), CallRoute(route), shards, calls);
            Placed(route, ts) && Each(Del(apply), Merge(shards), calls) == (Merge(ts), bs)
  {
    if calls != [] {
      var n := |calls| - 1;
      BatchRefines(apply, route, shards, calls[..n]);
      var (ts, bs) := OneByOne(Del(apply), CallRoute(route), shards, calls[..n]);
      assert CallRoute(route)(calls[n]) == route(calls[n].name);
      DoRefines(apply, route, ts, calls[n]);
    }
  }

  lemma {:induction false} EmptyMerge<C>(n: nat)
    ensures Merge<C>(seq(n, _ => map[])) == map[]
  {
    if n > 0 {
      EmptyMerge<C>(n - 1);
      var empty: seq<Store<C>> := seq(n, _ => map[]);
      assert empty[..n - 1] == seq(n - 1, _ => map[]);
    }
  }

  /** Every command keeps each name on its shard, gets the reply one database would give, and
      leaves the shards together holding what that database would hold. */
  lemma StepRefines<C, O>(apply: (O, Option<C>) -> (Option<C>, nat), route: string -> int,
                          shards: seq<Store<C>>, command: Command<O>)
    requires Placed(route, shards)
    ensures var (after, reply) := ShardedStep(apply, route, shards, command);
            && Placed(route, after)
            && SingleStep(apply, (name: string) => InRange(route, |shards|, name), Merge(shards), command)
               == (Merge(after), reply)
  {
    hide Merge, Do, OneByOne, Each;
    match command
    case Keyed(call) => if InRange(route, |shards|, call.name) { DoRefines(apply, route, shards, call); }
    case Delete(call) => if InRange(route, |shards|, call.name) { DoRefines(apply, route, shards, call); }
    case DeleteAll(calls) =>
      assert forall i | 0 <= i < |calls| :: CallRoute(route)(calls[i]) == route(calls[i].name);
      if AllInRange(calls, CallRoute(route), |shards|) { BatchRefines(apply, route, shards, calls); }
    case Flush => EmptyMerge<C>(|shards|);
  }

  // ------------------------------------------------------- what a command does

  /** `b` is `a` with this in the cell of the name, and every other cell as it was. */
  ghost predicate Updated<C>(a: Store<C>, b: Store<C>, name: string, cell: Option<C>) {
    Look(b, name) == cell && forall other | other != name :: Look(b, other) == Look(a, other)
  }

  /** `apply` on the cell of the name turned `a` into `b` and gave this number. */
  ghost predicate Applied<C, O>(apply: (O, Option<C>) -> (Option<C>, nat), a: Store<C>, b: Store<C>, call: Call<O>,
                                value: nat)
  {
    Updated(a, b, call.name, apply(call.op, Look(a, call.name)).0) && value == apply(call.op, Look(a, call.name)).1
  }

  /** A batch applied to one store call by call: the stores on the way and the numbers given. */
  ghost predicate Chain<C, O>(apply: (O, Option<C>) -> (Option<C>, nat), calls: seq<Call<O>>, stores: seq<Store<C>>,
                              values: seq<nat>)
  {
    && |stores| == |calls| + 1 && |values| == |calls|
    && forall i | 0 <= i < |calls| :: Applied(apply, stores[i], stores[i + 1], calls[i], values[i])
  }

  lemma DoApplies<C, O>(apply: (O, Option<C>) -> (Option<C>, nat), st: Store<C>, call: Call<O>)
    ensures Applied(apply, st, Do(apply, st, call).0, call, Do(apply, st, call).1)
  {
  }

  lemma {:induction false} NumbersChain<C, O>(apply: (O, Option<C>) -> (Option<C>, nat), st: Store<C>,
                                              calls: seq<Call<O>>) returns (stores: seq<Store<C>>)
    ensures Chain(apply, calls, stores, Numbers(apply, st, calls).1)
    ensures stores[0] == st && stores[|calls|] == Numbers(apply, st, calls).0
  {
    hide Do, Applied;
    stores := [st];
    if calls != [] {
      var n := |calls| - 1;
      stores := NumbersChain(apply, st, calls[..n]);
      var (t, values) := Numbers(apply, st, calls[..n]);
      DoApplies(apply, t, calls[n]);
      stores := stores + [Do(apply, t, calls[n]).0];
    }
  }

  /** What the commands of the sharded client do to the database its shards are together, said of the
      cells and numbers alone. A keyed command gives the number `apply` gives for the cell of the name,
      and changes that cell only; a deletion says yes exactly to the number 1; a batch applies its
      calls in order and says yes exactly where the number is 1; a name out of range changes nothing. */
  lemma StepMeans<C, O>(apply: (O, Option<C>) -> (Option<C>, nat), route: string -> int,
                        shards: seq<Store<C>>, command: Command<O>) returns (stores: seq<Store<C>>, values: seq<nat>)
    requires Placed(route, shards)
    ensures var (after, reply) := ShardedStep(apply, route, shards, command);
            var a, b := Merge(shards), Merge(after);
            match command
            case Keyed(call) =>
              if 0 <= route(call.name) < |shards| then reply.Number? && Applied(apply, a, b, call, reply.value)
              else reply == Refused && b == a
            case Delete(call) =>
              if 0 <= route(call.name) < |shards| then
                reply.Flag? && exists v :: Applied(apply, a, b, call, v) && (reply.ok <==> v == 1)
              else reply == Refused && b == a
            case DeleteAll(calls) =>
              if forall i | 0 <= i < |calls| :: 0 <= route(calls[i].name) < |shards| then
                && reply.Flags? && Chain(apply, calls, stores, values) && stores[0] == a && stores[|calls|] == b
                && |reply.oks| == |calls| && forall i | 0 <= i < |calls| :: reply.oks[i] <==> values[i] == 1
              else reply == Refused && b == a
            case Flush => reply == Flag(true) && b == map[]
  {
    hide Merge, Do, Applied, Chain, Numbers, Each, OneByOne, Placed;
    StepRefines(apply, route, shards, command);
    var a := Merge(shards);
    stores, values := [], [];
    match command
    case Keyed(call) => DoApplies(apply, a, call);
    case Delete(call) => DoApplies(apply, a, call);
    case DeleteAll(calls) =>
      EachOfNumbers(apply, a, calls);
      stores := NumbersChain(apply, a, calls);
      values := Numbers(apply, a, calls).1;
    case Flush =>
  }

  // --------------------------------------------------------------- histories

  ghost function ShardedRun<C, O>(apply: (O, Option<C>) -> (Option<C>, nat), route: string -> int,
                                  shards: seq<Store<C>>, history: seq<Command<O>>): (seq<Store<C>>, seq<Reply>)
    decreases |history|
  {
    if history == [] then (shards, [])
    else
      var (after, reply) := ShardedStep(apply, route, shards, history[0]);
      var (final, replies) := ShardedRun(apply, route, after, history[1..]);
      (final, [reply] + replies)
  }

  ghost function SingleRun<C, O>(apply: (O, Option<C>) -> (Option<C>, nat), valid: string -> bool,
                                 st: Store<C>, history: seq<Command<O>>): (Store<C>, seq<Reply>)
    decreases |history|
  {
    if history == [] then (st, [])
    else
      var (after, reply) := SingleStep(apply, valid, st, history[0]);
      var (final, replies) := SingleRun(apply, valid, after, history[1..]);
      (final, [reply] + replies)
  }

  /** One logical database: over any history, from any placed shards, every reply and the merged
      contents are those of a single store. */
  lemma {:induction false} HistoryRefines<C, O>(apply: (O, Option<C>) -> (Option<C>, nat), route: string -> int,
                                                shards: seq<Store<C>>, history: seq<Command<O>>)
    requires Placed(route, shards)
    ensures var (final, replies) := ShardedRun(apply, route, shards, history);
            && |final| == |shards| && Placed(route, final)
            && SingleRun(apply, (name: string) => InRange(route, |shards|, name), Merge(shards), history)
               == (Merge(final), replies)
    decreases |history|
  {
    if history != [] {
      StepRefines(apply, route, shards, history[0]);
      HistoryRefines(apply, route, ShardedStep(apply, route, shards, history[0]).0, history[1..]);
    }
  }

  // ------------------------------------------------ the client's own methods

  /** The methods of the client, over shards that are stores, take the steps the theorem is about. */
  method Execute<C, O(==)>(client: ShardedClient<Store<C>, Call<O>>, apply: (O, Option<C>) -> (Option<C>, nat),
                           ghost route: string -> int, command: Command<O>) returns (reply: Reply)
    requires client.route == CallRoute<O>(route)
    requires forall st, calls :: client.answer(st, calls) == BatchAnswer(apply, st, calls)
    modifies client`shards
    ensures (client.shards, reply) == ShardedStep(apply, route, old(client.shards), command)
  {
    match command {
      case Keyed(call) =>
        var r := client.OnShard(call, st => Do(apply, st, call));
        reply := if r.Ok? then Number(r.value) else Refused;
      case Delete(call) =>
        var r := client.OnShard(call, st => Do(apply, st, call));
        reply := if r.Ok? then Flag(r.value == 1) else Refused;
      case DeleteAll(calls) =>
        forall st, ks: seq<Call<O>>
          ensures client.answer(st, ks) == (Each(Del(apply), st, ks).0, Some(Each(Del(apply), st, ks).1))
        {
          EachOfNumbers(apply, st, ks);
        }
        var r := MDelIsOneByOne(client, Del(apply), calls);
        reply := if r.Ok? then Flags(r.value) else Refused;
      case Flush =>
        var r := client.OnAllShards(st => (map[], Some(true)));
        assert client.shards == seq(|client.shards|, _ => map[]);
        reply := if r.Ok? then Flag(r.value) else Refused;
    }
  }
}

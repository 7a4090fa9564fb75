/** Routing, scatter and gather, and fan-out of sharded_client.go, over any kind of shard. */
module ShardedClient {
  import opened Text

  datatype ShardError = OutOfRange | ShardFailed | CorruptedResponse
  datatype Result<+T> = Ok(value: T) | Err(error: ShardError)

  datatype IndexedKey<K> = IndexedKey(key: K, index: nat)

  /** The keys routed to shard `s`, in input order, each with its place in the input. */
  ghost function Indexed<K>(keys: seq<K>, route: K -> int, s: int): seq<IndexedKey<K>> {
    if keys == [] then []
    else
      var n := |keys| - 1;
      Indexed(keys[..n], route, s) + if route(keys[n]) == s then [IndexedKey(keys[n], n)] else []
  }

  function KeysOf<K>(group: seq<IndexedKey<K>>): (keys: seq<K>)
    ensures |keys| == |group|
  {
    seq(|group|, i requires 0 <= i < |group| => group[i].key)
  }

  ghost function Group<K>(keys: seq<K>, route: K -> int, s: int): seq<K> {
    KeysOf(Indexed(keys, route, s))
  }

  /** How many earlier keys go where key `i` goes. */
  ghost function Rank<K>(keys: seq<K>, route: K -> int, i: nat): nat
    requires i < |keys|
  {
    |Indexed(keys[..i], route, route(keys[i]))|
  }

  ghost predicate AllInRange<K>(keys: seq<K>, route: K -> int, n: nat) {
    forall i | 0 <= i < |keys| :: 0 <= route(keys[i]) < n
  }

  ghost predicate Places<K>(g: seq<IndexedKey<K>>, keys: seq<K>, route: K -> int, s: int) {
    && (forall k | 0 <= k < |g| :: g[k].index < |keys| && g[k].key == keys[g[k].index] && route(g[k].key) == s)
    && (forall j, k | 0 <= j < k < |g| :: g[j].index < g[k].index)
  }

  lemma {:induction false} IndexedSound<K>(keys: seq<K>, route: K -> int, s: int)
    ensures Places(Indexed(keys, route, s), keys, route, s)
  {
    if keys != [] {
      var n := |keys| - 1;
      var h := Indexed(keys[..n], route, s);
      IndexedSound(keys[..n], route, s);
      assert forall k | 0 <= k < |h| :: h[k].index < n && keys[..n][h[k].index] == keys[h[k].index];
      assert Places(h, keys, route, s);
      if route(keys[n]) == s {
        var g := h + [IndexedKey(keys[n], n)];
        assert forall k | 0 <= k < |h| :: g[k] == h[k];
        assert Places(g, keys, route, s);
      }
    }
  }

  /** Key `i` stands in its group at its rank. */
  lemma {:induction false} RankInGroup<K>(keys: seq<K>, route: K -> int, i: nat)
    requires i < |keys|
    ensures var g := Indexed(keys, route, route(keys[i]));
            Rank(keys, route, i) < |g| && g[Rank(keys, route, i)] == IndexedKey(keys[i], i)
  {
    var n, s := |keys| - 1, route(keys[i]);
    if i == n {
      assert keys[..i] == keys[..n];
    } else {
      RankInGroup(keys[..n], route, i);
      assert keys[..n][..i] == keys[..i];
    }
  }

  lemma {:induction false} IndexedEmpty<K>(keys: seq<K>, route: K -> int, s: int)
    ensures Indexed(keys, route, s) == [] <==> forall i | 0 <= i < |keys| :: route(keys[i]) != s
  {
    if keys != [] {
      var n := |keys| - 1;
      IndexedEmpty(keys[..n], route, s);
      assert forall i | 0 <= i < n :: keys[..n][i] == keys[i];
    }
  }

  /** A client over shards of any kind: `answer` is what a shard makes of a batch of keys, a new
      state and, unless the call fails, a list of results. */
  class ShardedClient<S, K(==)> {
    var shards: seq<S>
    const route: K -> int
    const answer: (S, seq<K>) -> (S, Option<seq<bool>>)

    constructor (shards: seq<S>, route: K -> int, answer: (S, seq<K>) -> (S, Option<seq<bool>>))
      ensures this.shards == shards && this.route == route && this.answer == answer
    {
      this.shards := shards;
      this.route := route;
      this.answer := answer;
    }

    /** `shardIndexByKey`. */
    function ShardIndex(key: K): Result<nat>
      reads this
    {
      var index := route(key);
      if index < 0 || index >= |shards| then Err(OutOfRange) else Ok(index)
    }

    /** What shard `s` answers to its share of the keys. */
    ghost function Share(before: seq<S>, keys: seq<K>, s: nat): (S, Option<seq<bool>>)
      requires s < |before|
    {
      answer(before[s], Group(keys, route, s))
    }

    ghost predicate Concerned(keys: seq<K>, s: nat) { Indexed(keys, route, s) != [] }

    ghost predicate WellAnswered(before: seq<S>, keys: seq<K>, s: nat)
      requires s < |before|
    {
      Share(before, keys, s).1.Some? && |Share(before, keys, s).1.value| == |Group(keys, route, s)|
    }

    /** What a call stumbles over at shard `s`: a failed call, or an answer of the wrong length. */
    ghost predicate Stumbles(before: seq<S>, keys: seq<K>, s: nat, error: ShardError)
      requires s < |before|
    {
      && !WellAnswered(before, keys, s)
      && error == if Share(before, keys, s).1.None? then ShardFailed else CorruptedResponse
    }

    /** The first loop of `MDel`: nothing is sent before every key has found its shard. */
    method Scatter(keys: seq<K>) returns (r: Result<map<nat, seq<IndexedKey<K>>>>)
      ensures r.Err? ==> r.error == OutOfRange
      ensures r.Ok? <==> AllInRange(keys, route, |shards|)
      ensures r.Ok? ==>
                && (forall s | s in r.value :: s < |shards| && r.value[s] == Indexed(keys, route, s))
                && (forall s: nat :: s in r.value <==> Concerned(keys, s))
    {
      var grouped: map<nat, seq<IndexedKey<K>>> := map[];
      for i := 0 to |keys|
        invariant AllInRange(keys[..i], route, |shards|)
        invariant forall s | s in grouped :: s < |shards| && grouped[s] == Indexed(keys[..i], route, s)
        invariant forall s: nat :: s in grouped <==> Concerned(keys[..i], s)
      {
        var shard := ShardIndex(keys[i]);
        if shard.Err? {
          return Err(OutOfRange);
        }
        assert keys[..i + 1][..i] == keys[..i];
        var group := if shard.value in grouped then grouped[shard.value] else [];
        grouped := grouped[shard.value := group + [IndexedKey(keys[i], i)]];
      }
      assert keys[..|keys|] == keys;
      return Ok(grouped);
    }

    /** Put a shard's results where its keys stood in the input. */
    method Place(results: array<bool>, group: seq<IndexedKey<K>>, shardResults: seq<bool>,
                 ghost keys: seq<K>, ghost s: nat)
      requires group == Indexed(keys, route, s) && |shardResults| == |group| && results.Length == |keys|
      modifies results
      ensures forall k | 0 <= k < |group| :: group[k].index < |keys| && results[group[k].index] == shardResults[k]
      ensures forall i | 0 <= i < |keys| && route(keys[i]) != s :: results[i] == old(results[i])
    {
      IndexedSound(keys, route, s);
      for k := 0 to |group|
        invariant forall j | 0 <= j < k :: results[group[j].index] == shardResults[j]
        invariant forall i | 0 <= i < |keys| && route(keys[i]) != s :: results[i] == old(results[i])
      {
        results[group[k].index] := shardResults[k];
      }
    }

    /** Each visited shard got its whole share once and answered it well; no other was contacted. */
    ghost predicate Contacted(before: seq<S>, keys: seq<K>, visited: set<nat>)
      reads this
    {
      && |shards| == |before|
      && (forall s | s in visited ::
            s < |before| && WellAnswered(before, keys, s) && shards[s] == Share(before, keys, s).0)
      && (forall s | 0 <= s < |before| && s !in visited :: shards[s] == before[s])
    }

    /** Some of these shards, at most, have been sent their share; no other was contacted. */
    ghost predicate Partly(before: seq<S>, keys: seq<K>, visited: set<nat>)
      reads this
    {
      && |shards| == |before|
      && forall s | 0 <= s < |before| ::
           shards[s] == before[s] || (s in visited && shards[s] == Share(before, keys, s).0)
    }

    lemma PartlyOfMore(before: seq<S>, keys: seq<K>, visited: set<nat>, all: set<nat>)
      requires Partly(before, keys, visited) && visited <= all
      ensures Partly(before, keys, all)
    {
    }

    ghost predicate PlacedOf(before: seq<S>, keys: seq<K>, s: nat, results: array<bool>)
      requires s < |before| && WellAnswered(before, keys, s)
      reads results
    {
      var g := Indexed(keys, route, s);
      forall k | 0 <= k < |g| :: g[k].index < results.Length && results[g[k].index] == Share(before, keys, s).1.value[k]
    }

    /** The results of every visited shard are in place. */
    ghost predicate Placed(before: seq<S>, keys: seq<K>, visited: set<nat>, results: array<bool>)
      reads results
    {
      forall s | s in visited :: s < |before| && WellAnswered(before, keys, s) && PlacedOf(before, keys, s, results)
    }

    /** One visit: send shard `s` its share, check the answer and place the results. */
    method Visit(keys: seq<K>, s: nat, group: seq<IndexedKey<K>>, results: array<bool>,
                 ghost before: seq<S>, ghost visited: set<nat>)
      returns (err: Option<ShardError>)
      requires results.Length == |keys| && s < |shards| && s !in visited && group == Indexed(keys, route, s)
      requires Contacted(before, keys, visited) && Placed(before, keys, visited, results)
      modifies this`shards, results
      ensures |shards| == |before| && (err.None? <==> WellAnswered(before, keys, s))
      ensures err.Some? ==> Stumbles(before, keys, s, err.value)
      ensures err.None? ==> Contacted(before, keys, visited + {s}) && Placed(before, keys, visited + {s}, results)
      ensures Partly(before, keys, visited + {s})
    {
      var shardKeys := KeysOf(group);
      var (state, shardResults) := answer(shards[s], shardKeys);
      assert (state, shardResults) == Share(before, keys, s);
      shards := shards[s := state];
      if shardResults.None? {
        return Some(ShardFailed);
      }
      if |shardResults.value| != |group| {
        return Some(CorruptedResponse);
      }
      Untouched(keys, visited, s);
      Place(results, group, shardResults.value, keys, s);
      return None;
    }

    /** The second loop of `MDel`, over the groups in whatever order the map yields them. */
    method Gather(keys: seq<K>, grouped: map<nat, seq<IndexedKey<K>>>, results: array<bool>)
      returns (err: Option<ShardError>)
      requires results.Length == |keys|
      requires forall s | s in grouped :: s < |shards| && grouped[s] == Indexed(keys, route, s)
      modifies this`shards, results
      ensures |shards| == |old(shards)|
      ensures err.None? ==>
                Contacted(old(shards), keys, grouped.Keys) && Placed(old(shards), keys, grouped.Keys, results)
      ensures err.Some? ==>
                && (exists s | s in grouped :: Stumbles(old(shards), keys, s, err.value))
                && Partly(old(shards), keys, grouped.Keys)
    {
      hide Indexed, Group, WellAnswered, Share, Placed, Contacted, Partly, Stumbles;
      ghost var before, all := shards, grouped.Keys;
      var remaining := grouped.Keys;
      ghost var visited: set<nat> := {};
      NothingDone(before, keys, results);
      while remaining != {}
        invariant remaining <= all && visited == all - remaining
        invariant |shards| == |before| && Contacted(before, keys, visited) && Placed(before, keys, visited, results)
        decreases |remaining|
      {
        var s :| s in remaining;
        err := Visit(keys, s, grouped[s], results, before, visited);
        visited := visited + {s};
        if err.Some? {
          PartlyOfMore(before, keys, visited, all);
          return;
        }
        remaining := remaining - {s};
      }
      assert visited == all;
      return None;
    }

    lemma NothingDone(before: seq<S>, keys: seq<K>, results: array<bool>)
      requires shards == before
      ensures Contacted(before, keys, {}) && Placed(before, keys, {}, results)
    {
    }

    /** The groups of two shards share no place in the input. */
    lemma Untouched(keys: seq<K>, visited: set<nat>, s: nat)
      requires s !in visited
      ensures forall v, k | v in visited && 0 <= k < |Indexed(keys, route, v)| ::
                && Indexed(keys, route, v)[k].index < |keys|
                && route(keys[Indexed(keys, route, v)[k].index]) != s
    {
      forall v | v in visited
        ensures forall k | 0 <= k < |Indexed(keys, route, v)| ::
                  && Indexed(keys, route, v)[k].index < |keys|
                  && route(keys[Indexed(keys, route, v)[k].index]) != s
      {
        IndexedSound(keys, route, v);
      }
    }

    /** `MDel`. A key out of range stops it before any shard is contacted. Otherwise every shard is
        sent its share at most once, and whatever the order of the visits: the call succeeds exactly
        when each concerned shard answers its share with one result a key; then each of them is in
        the state its share left it in, and result `i` is the one of key `i`. */
    method MDel(keys: seq<K>) returns (r: Result<seq<bool>>)
      modifies this`shards
      ensures |shards| == |old(shards)|
      ensures !AllInRange(keys, route, |shards|) ==> r == Err(OutOfRange) && shards == old(shards)
      ensures AllInRange(keys, route, |shards|) ==>
                (r.Ok? <==> forall s | 0 <= s < |shards| && Concerned(keys, s) :: WellAnswered(old(shards), keys, s))
      ensures r.Ok? ==>
                && (forall s | 0 <= s < |shards| ::
                      shards[s] == if Concerned(keys, s) then Share(old(shards), keys, s).0 else old(shards)[s])
                && |r.value| == |keys|
                && (forall i | 0 <= i < |keys| :: r.value[i] == ResultOf(old(shards), keys, i))
      ensures AllInRange(keys, route, |shards|) && r.Err? ==>
                exists s | 0 <= s < |shards| && Concerned(keys, s) :: Stumbles(old(shards), keys, s, r.error)
      ensures forall s | 0 <= s < |shards| ::
                shards[s] == old(shards)[s] || (Concerned(keys, s) && shards[s] == Share(old(shards), keys, s).0)
    {
      var results := new bool[|keys|](_ => false);
      var grouped := Scatter(keys);
      if grouped.Err? {
        return Err(grouped.error);
      }
      var err := Gather(keys, grouped.value, results);
      if err.Some? {
        return Err(err.value);
      }
      forall i | 0 <= i < |keys| ensures results[i] == ResultOf(old(shards), keys, i) {
        RankInGroup(keys, route, i);
        IndexedEmpty(keys, route, route(keys[i]));
      }
      return Ok(results[..]);
    }

    /** The result of key `i` in the share of its shard. */
    ghost function ResultOf(before: seq<S>, keys: seq<K>, i: nat): bool
      requires i < |keys|
    {
      var s := route(keys[i]);
      if 0 <= s < |before| && WellAnswered(before, keys, s) && Rank(keys, route, i) < |Group(keys, route, s)|
      then Share(before, keys, s).1.value[Rank(keys, route, i)] else false
    }

    /** A keyed command: find the shard, let it act, leave the others alone. */
    method OnShard<R>(key: K, act: S -> (S, R)) returns (r: Result<R>)
      modifies this`shards
      ensures var s := route(key);
              if 0 <= s < |old(shards)| then
                r == Ok(act(old(shards)[s]).1) && shards == old(shards)[s := act(old(shards)[s]).0]
              else r == Err(OutOfRange) && shards == old(shards)
    {
      var shard := ShardIndex(key);
      if shard.Err? {
        return Err(shard.error);
      }
      var (state, reply) := act(shards[shard.value]);
      shards := shards[shard.value := state];
      return Ok(reply);
    }

    /** `boolCommandOnAllShards`: shard by shard, up to the first failure; the conjunction of their
        answers if there is none. */
    method OnAllShards(command: S -> (S, Option<bool>)) returns (r: Result<bool>)
      modifies this`shards
      ensures |shards| == |old(shards)|
      ensures r.Ok? <==> forall s | 0 <= s < |shards| :: command(old(shards)[s]).1.Some?
      ensures r.Ok? ==>
                && (forall s | 0 <= s < |shards| :: shards[s] == command(old(shards)[s]).0)
                && (r.value <==> forall s | 0 <= s < |shards| :: command(old(shards)[s]).1 == Some(true))
      ensures r.Err? ==> r.error == ShardFailed && exists n | 0 <= n < |shards| ::
                && command(old(shards)[n]).1.None? && (forall s | 0 <= s < n :: command(old(shards)[s]).1.Some?)
                && (forall s | 0 <= s <= n :: shards[s] == command(old(shards)[s]).0)
                && (forall s | n < s < |shards| :: shards[s] == old(shards)[s])
    {
      var result := true;
      for i := 0 to |shards|
        invariant |shards| == |old(shards)|
        invariant forall s | 0 <= s < i :: command(old(shards)[s]).1.Some? && shards[s] == command(old(shards)[s]).0
        invariant forall s | i <= s < |shards| :: shards[s] == old(shards)[s]
        invariant result <==> forall s | 0 <= s < i :: command(old(shards)[s]).1 == Some(true)
      {
        var (state, reply) := command(shards[i]);
        shards := shards[i := state];
        if reply.None? {
          return Err(ShardFailed);
        }
        result := result && reply.value;
      }
      return Ok(result);
    }
  }

  // -------------------------------------------- scattered, or one key at a time

  /** A shard that deals with the keys of a batch one after the other. */
  ghost function Each<S, K>(del: (S, K) -> (S, bool), s: S, keys: seq<K>): (r: (S, seq<bool>))
    ensures |r.1| == |keys|
  {
    if keys == [] then (s, [])
    else
      var n := |keys| - 1;
      var (t, results) := Each(del, s, keys[..n]);
      var (u, b) := del(t, keys[n]);
      (u, results + [b])
  }

  /** The whole batch one key at a time, each key sent to its own shard. */
  ghost function OneByOne<S, K>(del: (S, K) -> (S, bool), route: K -> int, shards: seq<S>, keys: seq<K>)
    : (r: (seq<S>, seq<bool>))
    requires AllInRange(keys, route, |shards|)
    ensures |r.0| == |shards| && |r.1| == |keys|
  {
    if keys == [] then (shards, [])
    else
      var n := |keys| - 1;
      var (states, results) := OneByOne(del, route, shards, keys[..n]);
      var s := route(keys[n]);
      var (t, b) := del(states[s], keys[n]);
      (states[s := t], results + [b])
  }

  lemma GroupSnoc<K>(keys: seq<K>, route: K -> int, s: int)
    requires keys != []
    ensures var n := |keys| - 1;
            Group(keys, route, s) ==
            if route(keys[n]) == s then Group(keys[..n], route, s) + [keys[n]] else Group(keys[..n], route, s)
  {
  }

  lemma EachSnoc<S, K>(del: (S, K) -> (S, bool), s: S, keys: seq<K>, k: K)
    ensures var (t, results) := Each(del, s, keys);
            Each(del, s, keys + [k]) == (del(t, k).0, results + [del(t, k).1])
  {
    assert (keys + [k])[..|keys|] == keys;
  }

  /** Shard `s` ends up where its own share alone would take it. */
  lemma {:induction false} OneByOneStates<S, K>(del: (S, K) -> (S, bool), route: K -> int,
                                             shards: seq<S>, keys: seq<K>, s: nat)
    requires AllInRange(keys, route, |shards|) && s < |shards|
    ensures OneByOne(del, route, shards, keys).0[s] == Each(del, shards[s], Group(keys, route, s)).0
  {
    if keys != [] {
      var n := |keys| - 1;
      OneByOneStates(del, route, shards, keys[..n], s);
      GroupSnoc(keys, route, s);
      EachSnoc(del, shards[s], Group(keys[..n], route, s), keys[n]);
    }
  }

  /** The result of key `i` is the one its shard gives it within its share. */
  lemma {:induction false} OneByOneResults<S, K>(del: (S, K) -> (S, bool), route: K -> int,
                                             shards: seq<S>, keys: seq<K>, i: nat)
    requires AllInRange(keys, route, |shards|) && i < |keys|
    ensures var s := route(keys[i]);
            && Rank(keys, route, i) < |Group(keys, route, s)|
            && OneByOne(del, route, shards, keys).1[i]
               == Each(del, shards[s], Group(keys, route, s)).1[Rank(keys, route, i)]
  {
    var n, s := |keys| - 1, route(keys[i]);
    RankInGroup(keys, route, i);
    GroupSnoc(keys, route, s);
    EachSnoc(del, shards[s], Group(keys[..n], route, s), keys[n]);
    if i == n {
      OneByOneStates(del, route, shards, keys[..n], s);
    } else {
      OneByOneResults(del, route, shards, keys[..n], i);
      assert keys[..n][..i] == keys[..i];
    }
  }

  /** `MDel` over shards that deal with their keys one after the other: for any list of keys, with
      repetitions or without, any step function and any order of visits, the results and the states
      are those of sending the keys one by one. */
  method MDelIsOneByOne<S, K(==)>(client: ShardedClient<S, K>, ghost del: (S, K) -> (S, bool), keys: seq<K>)
    returns (r: Result<seq<bool>>)
    requires forall s, ks :: client.answer(s, ks) == (Each(del, s, ks).0, Some(Each(del, s, ks).1))
    modifies client`shards
    ensures if AllInRange(keys, client.route, |old(client.shards)|) then
              var (states, results) := OneByOne(del, client.route, old(client.shards), keys);
              r == Ok(results) && client.shards == states
            else r == Err(OutOfRange) && client.shards == old(client.shards)
  {
    ghost var before, route := client.shards, client.route;
    r := client.MDel(keys);
    if AllInRange(keys, route, |before|) {
      ghost var (states, results) := OneByOne(del, route, before, keys);
      forall s | 0 <= s < |before| ensures client.shards[s] == states[s] {
        OneByOneStates(del, route, before, keys, s);
        if !client.Concerned(keys, s) { assert Group(keys, route, s) == []; }
      }
      forall i | 0 <= i < |keys| ensures r.value[i] == results[i] {
        OneByOneResults(del, route, before, keys, i);
      }
      assert client.shards == states && r.value == results;
    }
  }
}

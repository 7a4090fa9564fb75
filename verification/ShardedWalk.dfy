/** Scanning the sharded database: a finished walk lists what one store would hold, no more, no less,
    and nothing twice. */
module ShardedWalk {
  import opened Replies
  import opened Text
  import opened ShardedScan
  import opened ShardedStore

  /** An entry the store has: something under its name that counts as this window. */
  ghost predicate Has<C>(holds: (C, nat) -> bool, st: Store<C>, k: ScanKey) {
    k.key in st && holds(st[k.key], k.window)
  }

  ghost predicate Distinct(keys: seq<ScanKey>) {
    forall j, k | 0 <= j < k < |keys| :: keys[j] != keys[k]
  }

  /** Each shard, in its own order, lists its own entries once. */
  ghost predicate Lists<C>(holds: (C, nat) -> bool, p: Paging, shards: seq<Store<C>>) {
    forall i | 0 <= i < |shards| ::
      && Distinct(p.rest(i, INITIAL))
      && forall k :: k in p.rest(i, INITIAL) <==> Has(holds, shards[i], k)
  }

  lemma {:induction false} AllListed<C>(holds: (C, nat) -> bool, route: string -> int, p: Paging, shards: seq<Store<C>>,
                                        i: nat)
    requires Lists(holds, p, shards) && ShardedStore.Placed(route, shards) && i <= |shards|
    ensures Distinct(All(p, |shards|, i))
    ensures forall k :: k in All(p, |shards|, i) <==> InRange(route, |shards|, k.key) && route(k.key) >= i
                                                      && Has(holds, shards[route(k.key)], k)
    decreases |shards| - i
  {
    if i < |shards| {
      AllListed(holds, route, p, shards, i + 1);
      var here, later := p.rest(i, INITIAL), All(p, |shards|, i + 1);
      forall k ensures k in here ==> route(k.key) == i && k !in later {
        if k in here { assert Has(holds, shards[i], k); }
      }
      DistinctConcat(here, later);
    }
  }

  lemma DistinctConcat(a: seq<ScanKey>, b: seq<ScanKey>)
    requires Distinct(a) && Distinct(b) && forall k | k in a :: k !in b
    ensures Distinct(a + b)
  {
    forall j, k | 0 <= j < k < |a + b| ensures (a + b)[j] != (a + b)[k] {
      if j < |a| <= k { assert a[j] in a && b[k - |a|] in b; }
    }
  }

  /** A walk that comes to its end over placed shards has delivered every entry of the merged store
      exactly once. */
  lemma WalkListsStore<C>(holds: (C, nat) -> bool, route: string -> int, shards: seq<Store<C>>, page: Pager, p: Paging,
                          start: string, counts: seq<nat>, pages: seq<ScanResult>)
    requires ShardedStore.Placed(route, shards) && Lists(holds, p, shards)
    requires Faithful(page, |shards|, p) && 0 < |shards| <= I64 && Walk(page, |shards|, start, counts, pages)
    requires pages != [] && pages[|pages| - 1].cursor == INITIAL
    ensures Distinct(Delivered(pages))
    ensures forall k :: k in Delivered(pages) <==> Has(holds, Merge(shards), k)
  {
    hide Faithful, Walk, Lists, Merge, All, Delivered, ShardedStore.Placed;
    WalkIsComplete(page, |shards|, p, start, counts, pages);
    AllListed(holds, route, p, shards, 0);
    forall k ensures Has(holds, Merge(shards), k) <==>
                     InRange(route, |shards|, k.key) && Has(holds, shards[route(k.key)], k) {
      MergeLook(route, shards, k.key);
    }
  }

  /** One logical database, scans included: after any history, a finished walk lists exactly what a
      single store holds after that history. */
  lemma WalkAfterHistory<C, O>(apply: (O, Option<C>) -> (Option<C>, nat), holds: (C, nat) -> bool, route: string -> int,
                               shards: seq<Store<C>>, history: seq<ShardedStore.Command<O>>, page: Pager, p: Paging,
                               start: string, counts: seq<nat>, pages: seq<ScanResult>)
    requires ShardedStore.Placed(route, shards) && 0 < |shards| <= I64
    requires Lists(holds, p, ShardedRun(apply, route, shards, history).0)
    requires Faithful(page, |shards|, p) && Walk(page, |shards|, start, counts, pages)
    requires pages != [] && pages[|pages| - 1].cursor == INITIAL
    ensures Distinct(Delivered(pages))
    ensures var single := SingleRun(apply, (name: string) => InRange(route, |shards|, name), Merge(shards), history).0;
            forall k :: k in Delivered(pages) <==> Has(holds, single, k)
  {
    hide Faithful, Walk, Lists, Merge, Delivered, ShardedStore.Placed, Distinct, Has, ShardedRun, SingleRun;
    HistoryRefines(apply, route, shards, history);
    var after := ShardedRun(apply, route, shards, history).0;
    WalkListsStore(holds, route, after, page, p, start, counts, pages);
  }
}

/** `Scan` and `PScan` of sharded_client.go: one walk over the pages of all shards, behind a cursor
    that names a shard and a place in it. */
module ShardedScan {
  import opened Text
  import opened Replies

  const INITIAL := "0"
  const COLON := ':'

  // ----------------------------------------------------------------- cursors

  /** `parseScanCursor` with `n` shards: the shard and the shard's own cursor. */
  function ParseCursor(cursor: string, n: nat): (r: Option<(nat, string)>)
    ensures r.Some? ==> r.value.1 != ""
    ensures r.Some? && cursor != "" && cursor != INITIAL ==> r.value.0 < n
  {
    if cursor == "" || cursor == INITIAL then Some((0, INITIAL))
    else
      match Cut(cursor, COLON)
      case None => None
      case Some((shard, rest)) =>
        if rest == "" then None
        else
          match Atoi(shard)
          case None => None
          case Some(i) => if i < 0 || i >= n then None else Some((i, rest))
  }

  /** Exactly which cursors are accepted, and for which place. */
  lemma CursorAccepts(cursor: string, n: nat, i: nat, rest: string)
    ensures ParseCursor(cursor, n) == Some((i, rest)) <==>
            || ((cursor == "" || cursor == "0") && i == 0 && rest == "0")
            || exists shard ::
                 ':' !in shard && cursor == shard + ":" + rest && Atoi(shard) == Some(i) && i < n && rest != ""
  {
    hide Atoi, IndexOf;
    if shard :| ':' !in shard && cursor == shard + ":" + rest && Atoi(shard) == Some(i) && i < n && rest != "" {
      CutAtFirst(shard, COLON, rest);
      assert cursor == shard + [COLON] + rest;
      assert ':' in cursor;
    }
  }

  /** `makeScanCursor`. */
  function MakeCursor(shard: nat, cursor: string, n: nat): string {
    if shard >= n then INITIAL else Format(shard) + [COLON] + cursor
  }

  /** A made cursor parses back exactly when the shard's own cursor is not empty, colons and all. */
  lemma CursorRoundTrip(shard: nat, cursor: string, n: nat)
    requires shard < n <= I64
    ensures ParseCursor(MakeCursor(shard, cursor, n), n) == Some((shard, cursor)) <==> cursor != ""
    ensures cursor == "" ==> ParseCursor(MakeCursor(shard, cursor, n), n).None?
  {
    CursorIsNotInitial(shard, cursor, n);
    FormatHasNo(shard, COLON);
    CutAtFirst(Format(shard), COLON, cursor);
    AtoiOfFormat(shard);
  }

  /** The end cursor is made exactly when the last shard is behind. */
  lemma CursorIsNotInitial(shard: nat, cursor: string, n: nat)
    ensures MakeCursor(shard, cursor, n) == INITIAL <==> shard >= n
    ensures MakeCursor(shard, cursor, n) != ""
  {
    if shard < n {
      assert MakeCursor(shard, cursor, n)[|Format(shard)|] == COLON;
    }
  }

  // ----------------------------------------------------------------- one scan

  /** What a shard answers to a cursor and a count; `None` if the call fails. */
  type Pager = (nat, string, nat) -> Option<ScanResult>

  datatype Outcome = Page(result: ScanResult) | BadCursor | ShardFailed

  /** `count - uint32(len(keys))` in 32 bits. */
  function Remaining(count: nat, taken: nat): nat {
    (count - taken % U32) % U32
  }

  lemma NoWrap(count: nat, taken: nat)
    requires taken < count < U32
    ensures Remaining(count, taken) == count - taken
  {
  }

  /** The pages of shard `i` from `c` on, then of the shards after it, until enough keys are there. */
  function ScanFrom(page: Pager, n: nat, i: nat, c: string, count: nat, keys: seq<ScanKey>): Outcome
    decreases n - i
  {
    if i >= n || |keys| >= count then Page(ScanResult(MakeCursor(i, INITIAL, n), keys))
    else
      match page(i, c, Remaining(count, |keys|))
      case None => ShardFailed
      case Some(r) =>
        if r.cursor != INITIAL then Page(ScanResult(MakeCursor(i, r.cursor, n), keys + r.keys))
        else ScanFrom(page, n, i + 1, INITIAL, count, keys + r.keys)
  }

  function ScanResultFor(page: Pager, n: nat, cursor: string, count: nat): Outcome {
    if count == 0 then
      match page(0, INITIAL, 0)
      case None => ShardFailed
      case Some(r) => Page(r)
    else
      match ParseCursor(cursor, n)
      case None => BadCursor
      case Some((i, c)) => ScanFrom(page, n, i, c, count, [])
  }

  /** No cursor at all is the initial one. */
  lemma EmptyCursorIsInitial(page: Pager, n: nat, count: nat)
    ensures ScanResultFor(page, n, "", count) == ScanResultFor(page, n, "0", count)
  {
  }

  datatype ShardCall = ShardCall(shard: nat, cursor: string, count: nat)

  /** The calls `ScanFrom` makes, in order. */
  ghost function CallsFrom(page: Pager, n: nat, i: nat, c: string, count: nat, keys: seq<ScanKey>): seq<ShardCall>
    decreases n - i
  {
    if i >= n || |keys| >= count then []
    else
      [ShardCall(i, c, Remaining(count, |keys|))] +
      match page(i, c, Remaining(count, |keys|))
      case None => []
      case Some(r) => if r.cursor != INITIAL then [] else CallsFrom(page, n, i + 1, INITIAL, count, keys + r.keys)
  }

  ghost function CallsFor(page: Pager, n: nat, cursor: string, count: nat): seq<ShardCall> {
    if count == 0 then [ShardCall(0, INITIAL, 0)]
    else
      match ParseCursor(cursor, n)
      case None => []
      case Some((i, c)) => CallsFrom(page, n, i, c, count, [])
  }

  ghost predicate Agree(page: Pager, other: Pager, calls: seq<ShardCall>) {
    forall j | 0 <= j < |calls| ::
      page(calls[j].shard, calls[j].cursor, calls[j].count) == other(calls[j].shard, calls[j].cursor, calls[j].count)
  }

  lemma {:induction false} OnlyTheseCallsFrom(page: Pager, other: Pager, n: nat, i: nat, c: string, count: nat,
                                              keys: seq<ScanKey>)
    requires Agree(page, other, CallsFrom(page, n, i, c, count, keys))
    ensures ScanFrom(other, n, i, c, count, keys) == ScanFrom(page, n, i, c, count, keys)
    ensures CallsFrom(other, n, i, c, count, keys) == CallsFrom(page, n, i, c, count, keys)
    decreases n - i
  {
    hide MakeCursor, Remaining;
    if i < n && |keys| < count {
      var calls := CallsFrom(page, n, i, c, count, keys);
      assert calls[0] == ShardCall(i, c, Remaining(count, |keys|));
      match page(i, c, Remaining(count, |keys|))
      case None =>
      case Some(r) =>
        if r.cursor == INITIAL {
          assert calls[1..] == CallsFrom(page, n, i + 1, INITIAL, count, keys + r.keys);
          OnlyTheseCallsFrom(page, other, n, i + 1, INITIAL, count, keys + r.keys);
        }
    }
  }

  /** A scan learns about the shards by these calls only: shards that answer them alike give the
      same outcome, and are called alike. */
  lemma OnlyTheseCalls(page: Pager, other: Pager, n: nat, cursor: string, count: nat)
    requires Agree(page, other, CallsFor(page, n, cursor, count))
    ensures ScanResultFor(other, n, cursor, count) == ScanResultFor(page, n, cursor, count)
    ensures CallsFor(other, n, cursor, count) == CallsFor(page, n, cursor, count)
  {
    hide ParseCursor, ScanFrom, CallsFrom;
    if count == 0 {
      assert CallsFor(page, n, cursor, count)[0] == ShardCall(0, INITIAL, 0);
    } else {
      match ParseCursor(cursor, n)
      case None =>
      case Some((i, c)) => OnlyTheseCallsFrom(page, other, n, i, c, count, []);
    }
  }

  /** Shards are called in order, each at most once, and each for at least one key. */
  ghost predicate Orderly(calls: seq<ShardCall>, count: nat) {
    && (forall j | 0 <= j < |calls| :: 1 <= calls[j].count <= count)
    && (forall j, k | 0 <= j < k < |calls| :: calls[j].shard < calls[k].shard)
  }

  ghost predicate Honours(page: Pager) {
    forall i, c, k {:trigger page(i, c, k)} :: page(i, c, k).Some? ==> |page(i, c, k).value.keys| <= k
  }

  lemma HonoursHere(page: Pager, i: nat, c: string, k: nat)
    requires Honours(page) && page(i, c, k).Some?
    ensures |page(i, c, k).value.keys| <= k
  {
  }

  /** What one call of the loop leaves to do. */
  lemma OneCall(page: Pager, n: nat, i: nat, c: string, count: nat, keys: seq<ScanKey>)
    requires i < n && |keys| < count
    ensures var call := ShardCall(i, c, Remaining(count, |keys|));
            match page(i, c, call.count)
            case None =>
              ScanFrom(page, n, i, c, count, keys) == ShardFailed && CallsFrom(page, n, i, c, count, keys) == [call]
            case Some(r) =>
              if r.cursor != INITIAL then
                && ScanFrom(page, n, i, c, count, keys) == Page(ScanResult(MakeCursor(i, r.cursor, n), keys + r.keys))
                && CallsFrom(page, n, i, c, count, keys) == [call]
              else
                && ScanFrom(page, n, i, c, count, keys) == ScanFrom(page, n, i + 1, INITIAL, count, keys + r.keys)
                && CallsFrom(page, n, i, c, count, keys)
                   == [call] + CallsFrom(page, n, i + 1, INITIAL, count, keys + r.keys)
  {
    hide MakeCursor, Remaining;
  }

  lemma NoCallLeft(page: Pager, n: nat, i: nat, c: string, count: nat, keys: seq<ScanKey>)
    requires i >= n || |keys| >= count
    ensures ScanFrom(page, n, i, c, count, keys) == Page(ScanResult(MakeCursor(i, INITIAL, n), keys))
    ensures CallsFrom(page, n, i, c, count, keys) == []
  {
  }

  lemma NoCalls(count: nat)
    ensures Orderly([], count)
  {
  }

  lemma OrderlySnoc(calls: seq<ShardCall>, call: ShardCall, count: nat)
    requires Orderly(calls, count) && 1 <= call.count <= count
    requires forall j | 0 <= j < |calls| :: calls[j].shard < call.shard
    ensures Orderly(calls + [call], count)
    ensures forall j | 0 <= j < |calls + [call]| :: (calls + [call])[j].shard < call.shard + 1
  {
  }

  /** `scan`. Its 32-bit subtraction never wraps, whatever the shards send. */
  method Scan(page: Pager, n: nat, cursor: string, count: nat) returns (r: Outcome, ghost calls: seq<ShardCall>)
    requires count < U32
    ensures r == ScanResultFor(page, n, cursor, count)
    ensures calls == CallsFor(page, n, cursor, count) && (count > 0 ==> Orderly(calls, count))
    ensures count > 0 && r.Page? && Honours(page) ==> |r.result.keys| <= count
  {
    hide ParseCursor, MakeCursor, Remaining, Orderly, Honours, ScanFrom, CallsFrom;
    calls := [];
    assert Orderly([], count) by { NoCalls(count); }
    if count == 0 {
      var first := page(0, INITIAL, 0);
      return if first.Some? then Page(first.value) else ShardFailed, [ShardCall(0, INITIAL, 0)];
    }
    var place := ParseCursor(cursor, n);
    if place.None? {
      return BadCursor, [];
    }
    var (i, c) := place.value;
    var keys: seq<ScanKey> := [];
    ghost var all := CallsFor(page, n, cursor, count);
    assert all == CallsFrom(page, n, i, c, count, keys);
    while i < n && |keys| < count
      invariant ScanFrom(page, n, i, c, count, keys) == ScanResultFor(page, n, cursor, count)
      invariant calls + CallsFrom(page, n, i, c, count, keys) == all
      invariant Orderly(calls, count) && forall j | 0 <= j < |calls| :: calls[j].shard < i
      invariant Honours(page) ==> |keys| <= count
      decreases n - i
    {
      hide CallsFor, ScanResultFor;
      var remaining := Remaining(count, |keys|);
      NoWrap(count, |keys|);
      OneCall(page, n, i, c, count, keys);
      OrderlySnoc(calls, ShardCall(i, c, remaining), count);
      calls := calls + [ShardCall(i, c, remaining)];
      match page(i, c, remaining) {
        case None => return ShardFailed, calls;
        case Some(result) =>
          if Honours(page) { HonoursHere(page, i, c, remaining); }
          keys := keys + result.keys;
          if result.cursor != INITIAL {
            return Page(ScanResult(MakeCursor(i, result.cursor, n), keys)), calls;
          }
      }
      i := i + 1;
      c := INITIAL;
    }
    NoCallLeft(page, n, i, c, count, keys);
    return Page(ScanResult(MakeCursor(i, INITIAL, n), keys)), calls;
  }

  // -------------------------------------------------------------- whole walks

  /** What the shards promise about their own paging. `rest(i, c)` are the keys still to come from
      cursor `c` of shard `i`, `left(i, c)` bounds the pages they take. A page that ends the shard
      has all of the rest; any other is a part of it and leads on by a cursor that is not empty. */
  datatype Paging = Paging(
    valid: (nat, string) -> bool,
    rest: (nat, string) -> seq<ScanKey>,
    left: (nat, string) -> nat)

  ghost predicate Advances(p: Paging, i: nat, c: string, r: ScanResult) {
    if r.cursor == INITIAL then r.keys == p.rest(i, c)
    else
      && r.cursor != "" && p.valid(i, r.cursor)
      && p.rest(i, c) == r.keys + p.rest(i, r.cursor)
      && p.left(i, r.cursor) < p.left(i, c)
  }

  ghost predicate Faithful(page: Pager, n: nat, p: Paging) {
    && (forall i: nat | i < n :: p.valid(i, INITIAL))
    && (forall i: nat, c, k {:trigger page(i, c, k)} | i < n && p.valid(i, c) && 0 < k < U32 ::
          page(i, c, k).Some? && Advances(p, i, c, page(i, c, k).value))
  }

  /** Every key of shard `i` and of those after it. */
  ghost function All(p: Paging, n: nat, i: nat): seq<ScanKey>
    decreases n - i
  {
    if i >= n then [] else p.rest(i, INITIAL) + All(p, n, i + 1)
  }

  ghost function ToCome(p: Paging, n: nat, i: nat, c: string): seq<ScanKey> {
    if i >= n then [] else p.rest(i, c) + All(p, n, i + 1)
  }

  ghost function PagesAll(p: Paging, n: nat, i: nat): nat
    decreases n - i
  {
    if i >= n then 0 else p.left(i, INITIAL) + 1 + PagesAll(p, n, i + 1)
  }

  /** A bound on the pages from here to the end. */
  ghost function PagesToCome(p: Paging, n: nat, i: nat, c: string): nat {
    if i >= n then 0 else p.left(i, c) + 1 + PagesAll(p, n, i + 1)
  }

  /** A scan from (i, c) that ends at a cursor: either at the end, with everything delivered, or at
      a later place from which the rest follows. */
  ghost predicate Leads(p: Paging, n: nat, i: nat, c: string, keys: seq<ScanKey>, o: Outcome, bound: nat) {
    && o.Page?
    && if o.result.cursor == INITIAL then o.result.keys == keys + ToCome(p, n, i, c)
       else
         var place := ParseCursor(o.result.cursor, n);
         && place.Some? && place.value.0 < n && p.valid(place.value.0, place.value.1)
         && o.result.keys + ToCome(p, n, place.value.0, place.value.1) == keys + ToCome(p, n, i, c)
         && PagesToCome(p, n, place.value.0, place.value.1) <= bound
  }

  lemma StopHere(p: Paging, n: nat, i: nat, c: string, keys: seq<ScanKey>)
    requires i <= n <= I64 && (i < n ==> c != "" && p.valid(i, c))
    ensures Leads(p, n, i, c, keys, Page(ScanResult(MakeCursor(i, c, n), keys)), PagesToCome(p, n, i, c))
  {
    CursorIsNotInitial(i, c, n);
    if i < n {
      CursorRoundTrip(i, c, n);
    } else {
      assert keys + [] == keys;
    }
  }

  lemma {:induction false} ScanLeads(page: Pager, n: nat, p: Paging, i: nat, c: string, count: nat, keys: seq<ScanKey>)
    requires Faithful(page, n, p) && i <= n <= I64 && 0 < count < U32
    requires i < n ==> c != "" && p.valid(i, c)
    requires |keys| >= count || i >= n ==> c == INITIAL
    ensures Leads(p, n, i, c, keys, ScanFrom(page, n, i, c, count, keys),
                  if |keys| < count && i < n then PagesToCome(p, n, i, c) - 1 else PagesToCome(p, n, i, c))
    decreases n - i
  {
    hide ParseCursor, MakeCursor, Remaining;
    if i >= n || |keys| >= count {
      StopHere(p, n, i, INITIAL, keys);
    } else {
      NoWrap(count, |keys|);
      var r := page(i, c, Remaining(count, |keys|)).value;
      assert Advances(p, i, c, r);
      if r.cursor != INITIAL {
        StopHere(p, n, i, r.cursor, keys + r.keys);
        var tail := p.rest(i, r.cursor);
        assert keys + (r.keys + tail + All(p, n, i + 1)) == keys + r.keys + (tail + All(p, n, i + 1));
      } else {
        ScanLeads(page, n, p, i + 1, INITIAL, count, keys + r.keys);
        assert ToCome(p, n, i + 1, INITIAL) == All(p, n, i + 1);
        assert keys + (r.keys + All(p, n, i + 1)) == keys + r.keys + All(p, n, i + 1);
      }
    }
  }

  // ------------------------------------------------------------------- walks

  /** A caller scanning from "0", or from no cursor, with any positive counts, each time from the cursor it was given,
      until it is given "0" again or stops. */
  ghost predicate Walk(page: Pager, n: nat, start: string, counts: seq<nat>, pages: seq<ScanResult>) {
    && (start == "" || start == "0") && |counts| == |pages|
    && (forall j | 0 <= j < |pages| ::
          && 0 < counts[j] < U32
          && ScanResultFor(page, n, CursorBefore(start, pages, j), counts[j]) == Page(pages[j]))
    && (forall j | 0 <= j < |pages| - 1 :: pages[j].cursor != INITIAL)
  }

  ghost function CursorBefore(start: string, pages: seq<ScanResult>, j: nat): string
    requires j <= |pages|
  {
    if j == 0 then start else pages[j - 1].cursor
  }

  ghost function Delivered(pages: seq<ScanResult>): seq<ScanKey> {
    if pages == [] then [] else Delivered(pages[..|pages| - 1]) + pages[|pages| - 1].keys
  }

  /** Where a walk stands after some pages: what it has and what is to come make up everything. */
  ghost predicate Stands(n: nat, p: Paging, start: string, pages: seq<ScanResult>) {
    if pages != [] && CursorBefore(start, pages, |pages|) == INITIAL then
      Delivered(pages) == All(p, n, 0) && |pages| <= PagesAll(p, n, 0)
    else
      var place := ParseCursor(CursorBefore(start, pages, |pages|), n);
      && place.Some? && place.value.0 < n && place.value.1 != "" && p.valid(place.value.0, place.value.1)
      && Delivered(pages) + ToCome(p, n, place.value.0, place.value.1) == All(p, n, 0)
      && |pages| + PagesToCome(p, n, place.value.0, place.value.1) <= PagesAll(p, n, 0)
  }

  lemma {:induction false} WalkStands(page: Pager, n: nat, p: Paging, start: string, counts: seq<nat>,
                                      pages: seq<ScanResult>)
    requires Faithful(page, n, p) && 0 < n <= I64 && Walk(page, n, start, counts, pages)
    ensures Stands(n, p, start, pages)
    decreases |pages|
  {
    hide MakeCursor, Faithful, ScanFrom, Leads, Delivered, Stands, ParseCursor, PagesToCome, Walk;
    var m := |pages| - 1;
    if pages != [] {
      var before := pages[..m];
      WalkPrefix(page, n, start, counts, pages);
      WalkStands(page, n, p, start, counts[..m], before);
      StandsPlace(n, p, start, before);
      var place := ParseCursor(CursorBefore(start, before, m), n).value;
      ScanLeads(page, n, p, place.0, place.1, counts[m], []);
      StandsOn(n, p, start, pages, place.0, place.1);
    } else {
      assert start == "" || start == "0" by { WalkStart(page, n, start, counts, pages); }
      StandsAtStart(page, n, p, start);
    }
  }

  lemma WalkPrefix(page: Pager, n: nat, start: string, counts: seq<nat>, pages: seq<ScanResult>)
    requires Walk(page, n, start, counts, pages) && pages != []
    ensures |counts| == |pages|
    ensures var m := |pages| - 1;
            && Walk(page, n, start, counts[..m], pages[..m]) && 0 < counts[m] < U32
            && ScanResultFor(page, n, CursorBefore(start, pages[..m], m), counts[m]) == Page(pages[m])
            && (m > 0 ==> pages[m - 1].cursor != INITIAL)
  {
    hide ScanResultFor;
    var m := |pages| - 1;
    assert forall j | 0 <= j <= m :: CursorBefore(start, pages[..m], j) == CursorBefore(start, pages, j);
  }

  lemma WalkStart(page: Pager, n: nat, start: string, counts: seq<nat>, pages: seq<ScanResult>)
    requires Walk(page, n, start, counts, pages)
    ensures start == "" || start == "0"
  {
  }

  lemma StandsAtStart(page: Pager, n: nat, p: Paging, start: string)
    requires Faithful(page, n, p) && 0 < n && (start == "" || start == "0")
    ensures Stands(n, p, start, [])
  {
    assert [] + All(p, n, 0) == All(p, n, 0);
  }

  /** Where the next scan of an unfinished walk starts. */
  lemma StandsPlace(n: nat, p: Paging, start: string, pages: seq<ScanResult>)
    requires Stands(n, p, start, pages) && (pages != [] ==> CursorBefore(start, pages, |pages|) != INITIAL)
    ensures var place := ParseCursor(CursorBefore(start, pages, |pages|), n);
            place.Some? && place.value.0 < n && place.value.1 != "" && p.valid(place.value.0, place.value.1)
  {
  }

  lemma StandsOn(n: nat, p: Paging, start: string, pages: seq<ScanResult>, i: nat, c: string)
    requires 0 < n <= I64 && pages != [] && i < n
    requires Stands(n, p, start, pages[..|pages| - 1])
    requires |pages| > 1 ==> pages[|pages| - 2].cursor != INITIAL
    requires ParseCursor(CursorBefore(start, pages[..|pages| - 1], |pages| - 1), n) == Some((i, c))
    requires Leads(p, n, i, c, [], Page(pages[|pages| - 1]), PagesToCome(p, n, i, c) - 1)
    ensures Stands(n, p, start, pages)
  {
    hide ParseCursor, All, PagesAll, ToCome;
    var before, last := pages[..|pages| - 1], pages[|pages| - 1];
    assert Delivered(pages) == Delivered(before) + last.keys;
    assert [] + ToCome(p, n, i, c) == ToCome(p, n, i, c);
    if last.cursor != INITIAL {
      var (j, d) := ParseCursor(last.cursor, n).value;
      assert Delivered(before) + (last.keys + ToCome(p, n, j, d)) == Delivered(pages) + ToCome(p, n, j, d);
    }
  }

  /** A walk that comes to its end has delivered the keys of shard 0, then of shard 1, and so on,
      each shard's in that shard's order, none left out and none twice. */
  lemma WalkIsComplete(page: Pager, n: nat, p: Paging, start: string, counts: seq<nat>, pages: seq<ScanResult>)
    requires Faithful(page, n, p) && 0 < n <= I64 && Walk(page, n, start, counts, pages)
    requires pages != [] && pages[|pages| - 1].cursor == INITIAL
    ensures Delivered(pages) == All(p, n, 0)
  {
    WalkStands(page, n, p, start, counts, pages);
  }

  /** Every walk does come to its end: no scan of it fails, and it cannot go on longer than the
      shards have pages. */
  lemma WalkEnds(page: Pager, n: nat, p: Paging, start: string, counts: seq<nat>, pages: seq<ScanResult>, count: nat)
    requires Faithful(page, n, p) && 0 < n <= I64 && Walk(page, n, start, counts, pages) && 0 < count < U32
    ensures |pages| <= PagesAll(p, n, 0)
    ensures ScanResultFor(page, n, CursorBefore(start, pages, |pages|), count).Page?
  {
    WalkStands(page, n, p, start, counts, pages);
    if pages != [] && CursorBefore(start, pages, |pages|) == INITIAL {
      ScanLeads(page, n, p, 0, INITIAL, count, []);
    } else {
      var place := ParseCursor(CursorBefore(start, pages, |pages|), n).value;
      ScanLeads(page, n, p, place.0, place.1, count, []);
    }
  }
}

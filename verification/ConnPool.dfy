/** conn_pool.go as interleaved atomic steps: any number of goroutines getting and releasing
    connections, and one that closes the pool. */
module ConnPool {
  import opened Text

  type Conn = nat

  /** Where a goroutine is. `None` stands for the nil a receive from a closed, empty channel gives.
      Get: `Checked` is past the closed flag, `Taken` and `Missed` past the select but not yet in
      the wait group, `Creating` inside `newConn`. Release: `Releasing` is past the closed flag,
      `Sent` past the channel send but still in the wait group. */
  datatype Thread =
    | Idle
    | Checked
    | Taken(conn: Option<Conn>)
    | Missed
    | Creating
    | Holding(conn: Option<Conn>)
    | Releasing(conn: Option<Conn>)
    | Sent

  /** How far `Close` is: it waits for the wait group, sets the flag, closes the channel, drains it. */
  datatype Closer = NotStarted | Waiting | Waited | Flagged | Draining | Finished

  /** `alive` are the connections created and not closed; `closes` the calls of their `Close`;
      `peak` the most connections that were in use, or being created, at one time. */
  datatype State = State(
    size: nat,
    idle: seq<Option<Conn>>,
    wg: int,
    closed: bool,
    channelClosed: bool,
    threads: seq<Thread>,
    closer: Closer,
    alive: set<Conn>,
    closes: seq<Conn>,
    next: Conn,
    peak: nat,
    panicked: bool)

  ghost function Initial(size: nat, threads: nat): State {
    State(size, [], 0, false, false, seq(threads, _ => Idle), NotStarted, {}, [], 0, 0, false)
  }

  datatype Step =
    | GetCheck(t: nat)
    | GetTake(t: nat)
    | GetTakeNil(t: nat)
    | GetAdd(t: nat)
    | GetMiss(t: nat)
    | GetMissAdd(t: nat)
    | CreateOk(t: nat)
    | CreateFail(t: nat)
    | RelCheck(t: nat)
    | RelSend(t: nat)
    | RelDone(t: nat)
    | CloseStart
    | CloseWait
    | CloseFlag
    | CloseChannel
    | CloseDrain
    | CloseEnd

  ghost predicate At(s: State, t: nat, w: Thread) { t < |s.threads| && s.threads[t] == w }

  ghost predicate Enabled(s: State, step: Step) {
    !s.panicked &&
    match step
    case GetCheck(t) => At(s, t, Idle)
    case GetTake(t) => At(s, t, Checked) && s.idle != []
    case GetTakeNil(t) => At(s, t, Checked) && s.idle == [] && s.channelClosed
    case GetAdd(t) => t < |s.threads| && s.threads[t].Taken?
    case GetMiss(t) => At(s, t, Checked) && s.idle == [] && !s.channelClosed
    case GetMissAdd(t) => At(s, t, Missed)
    case CreateOk(t) => At(s, t, Creating)
    case CreateFail(t) => At(s, t, Creating)
    case RelCheck(t) => t < |s.threads| && s.threads[t].Holding?
    case RelSend(t) => t < |s.threads| && s.threads[t].Releasing? && (s.channelClosed || |s.idle| < s.size)
    case RelDone(t) => At(s, t, Sent)
    case CloseStart => s.closer == NotStarted
    case CloseWait => s.closer == Waiting && s.wg == 0
    case CloseFlag => s.closer == Waited
    case CloseChannel => s.closer == Flagged
    case CloseDrain => s.closer == Draining && s.idle != []
    case CloseEnd => s.closer == Draining && s.idle == []
  }

  ghost function Move(s: State, t: nat, w: Thread): State
    requires t < |s.threads|
  {
    s.(threads := s.threads[t := w])
  }

  ghost function Max(a: nat, b: nat): nat { if a < b then b else a }

  ghost function Apply(s: State, step: Step): State
    requires Enabled(s, step)
  {
    match step
    case GetCheck(t) => if s.closed then s else Move(s, t, Checked)
    case GetTake(t) => Watch(Move(s, t, Taken(s.idle[0])).(idle := s.idle[1..]))
    case GetTakeNil(t) => Watch(Move(s, t, Taken(None)))
    case GetAdd(t) => Move(s, t, Holding(s.threads[t].conn)).(wg := s.wg + 1)
    case GetMiss(t) => Watch(Move(s, t, Missed))
    case GetMissAdd(t) => Move(s, t, Creating).(wg := s.wg + 1)
    case CreateOk(t) => Move(s, t, Holding(Some(s.next))).(alive := s.alive + {s.next}, next := s.next + 1)
    case CreateFail(t) => Move(s, t, Idle).(wg := s.wg - 1)
    case RelCheck(t) => if s.closed then Move(s, t, Idle) else Move(s, t, Releasing(s.threads[t].conn))
    case RelSend(t) =>
      if s.channelClosed then s.(panicked := true)
      else Move(s, t, Sent).(idle := s.idle + [s.threads[t].conn])
    case RelDone(t) => Move(s, t, Idle).(wg := s.wg - 1)
    case CloseStart => s.(closer := Waiting)
    case CloseWait => s.(closer := Waited)
    case CloseFlag => s.(closer := Flagged, closed := true)
    case CloseChannel => s.(closer := Draining, channelClosed := true)
    case CloseDrain =>
      var c := s.idle[0];
      var t := s.(idle := s.idle[1..]);
      if c.None? then t.(panicked := true) else t.(alive := s.alive - {c.value}, closes := s.closes + [c.value])
    case CloseEnd => s.(closer := Finished)
  }

  // ------------------------------------------------------------------ counts

  ghost function Sum(threads: seq<Thread>, weight: Thread -> nat): nat {
    if threads == [] then 0 else weight(threads[0]) + Sum(threads[1..], weight)
  }

  lemma {:induction false} SumUpdate(threads: seq<Thread>, t: nat, w: Thread, weight: Thread -> nat)
    requires t < |threads|
    ensures Sum(threads[t := w], weight) == Sum(threads, weight) - weight(threads[t]) + weight(w)
  {
    if t == 0 {
      assert threads[t := w][1..] == threads[1..];
    } else {
      SumUpdate(threads[1..], t - 1, w, weight);
      assert threads[t := w][1..] == threads[1..][t - 1 := w];
    }
  }

  lemma {:induction false} SumZero(threads: seq<Thread>, weight: Thread -> nat)
    ensures Sum(threads, weight) == 0 <==> forall t | 0 <= t < |threads| :: weight(threads[t]) == 0
  {
    if threads != [] {
      SumZero(threads[1..], weight);
      assert threads == [threads[0]] + threads[1..];
    }
  }

  /** Counted in the wait group. */
  ghost function InGroup(w: Thread): nat {
    if w.Creating? || w.Holding? || w.Releasing? || w.Sent? then 1 else 0
  }

  /** Using a connection, or about to create one. */
  ghost function InUse(w: Thread): nat {
    if w.Taken? || w.Missed? || w.Creating? || w.Holding? || w.Releasing? then 1 else 0
  }

  ghost function Users(s: State): nat { Sum(s.threads, InUse) }

  ghost function Watch(s: State): State { s.(peak := Max(s.peak, Users(s))) }

  // ------------------------------------------------------------------- runs

  /** Past the closed flag and not yet in the wait group: `Close` cannot see such a goroutine. */
  ghost predicate Unseen(w: Thread) { w.Checked? || w.Taken? || w.Missed? }

  /** No `GetConnection` is unseen when the wait of `Close` ends, and none passes the flag between
      then and the moment `Close` sets it. Runs in which the two do not overlap are of this kind;
      `OverlapHarms` shows that no other kind is safe. */
  ghost predicate Disciplined(s: State, step: Step) {
    && (step.CloseWait? ==> forall t | 0 <= t < |s.threads| :: !Unseen(s.threads[t]))
    && (step.GetCheck? ==> !s.closer.Waited?)
  }

  /** Steps that keep to the discipline in any state. */
  ghost predicate NoLapse(steps: seq<Step>) {
    forall i | 0 <= i < |steps| :: !steps[i].CloseWait? && !steps[i].GetCheck?
  }

  ghost predicate Runs(s: State, steps: seq<Step>)
    decreases |steps|
  {
    steps == [] || (Enabled(s, steps[0]) && Runs(Apply(s, steps[0]), steps[1..]))
  }

  ghost function Final(s: State, steps: seq<Step>): State
    requires Runs(s, steps)
    decreases |steps|
  {
    if steps == [] then s else Final(Apply(s, steps[0]), steps[1..])
  }

  ghost predicate DisciplinedRun(s: State, steps: seq<Step>)
    requires Runs(s, steps)
    decreases |steps|
  {
    steps == [] || (Disciplined(s, steps[0]) && DisciplinedRun(Apply(s, steps[0]), steps[1..]))
  }

  /** The `k`-th step is out of line, and no other step is. */
  ghost predicate OneLapse(s: State, steps: seq<Step>, k: nat)
    requires Runs(s, steps)
    decreases |steps|
  {
    && k < |steps|
    && if k == 0 then !Disciplined(s, steps[0]) && DisciplinedRun(Apply(s, steps[0]), steps[1..])
       else Disciplined(s, steps[0]) && OneLapse(Apply(s, steps[0]), steps[1..], k - 1)
  }

  lemma {:induction false} NoLapseIsDisciplined(s: State, steps: seq<Step>)
    requires Runs(s, steps) && NoLapse(steps)
    ensures DisciplinedRun(s, steps)
    decreases |steps|
  {
    hide Apply, Enabled;
    if steps != [] { NoLapseIsDisciplined(Apply(s, steps[0]), steps[1..]); }
  }

  // -------------------------------------------------------------- invariant

  ghost predicate HasConn(w: Thread) { w.Taken? || w.Holding? || w.Releasing? }

  ghost predicate Held(s: State, t: nat, c: Conn) {
    t < |s.threads| && HasConn(s.threads[t]) && s.threads[t].conn == Some(c)
  }

  /** Every live connection is in one place: idle once, or in one goroutine's hands. */
  ghost predicate OwnInv(s: State) {
    && (forall j | 0 <= j < |s.idle| :: s.idle[j].Some? && s.idle[j].value in s.alive)
    && (forall j, k | 0 <= j < k < |s.idle| :: s.idle[j] != s.idle[k])
    && (forall t | 0 <= t < |s.threads| && HasConn(s.threads[t]) ::
          s.threads[t].conn.Some? && s.threads[t].conn.value in s.alive && s.threads[t].conn !in s.idle)
    && (forall t, u | 0 <= t < u < |s.threads| && HasConn(s.threads[t]) && HasConn(s.threads[u]) ::
          s.threads[t].conn != s.threads[u].conn)
  }

  ghost predicate NoLeak(s: State) {
    forall c | c in s.alive :: Some(c) in s.idle || exists t :: Held(s, t, c)
  }

  /** Every connection ever created is alive, or was closed, once. */
  ghost predicate LifeInv(s: State) {
    && (forall c | c in s.alive :: c < s.next)
    && (forall c: Conn | c < s.next :: c in s.alive || c in s.closes)
    && (forall j | 0 <= j < |s.closes| :: s.closes[j] !in s.alive && s.closes[j] < s.next)
    && (forall j, k | 0 <= j < k < |s.closes| :: s.closes[j] != s.closes[k])
  }

  ghost predicate CountInv(s: State) {
    && s.wg == Sum(s.threads, InGroup)
    && |s.idle| + Users(s) <= s.peak
    && |s.idle| <= s.size
  }

  ghost predicate CloseInv(s: State) {
    && (s.closed <==> s.closer.Flagged? || s.closer.Draining? || s.closer.Finished?)
    && (s.channelClosed <==> s.closer.Draining? || s.closer.Finished?)
    && (!s.closer.NotStarted? && !s.closer.Waiting? ==> forall t | 0 <= t < |s.threads| :: s.threads[t].Idle?)
    && (s.closer.Finished? ==> s.idle == [])
  }

  ghost predicate Inv(s: State) {
    !s.panicked && OwnInv(s) && NoLeak(s) && LifeInv(s) && CountInv(s) && CloseInv(s)
  }

  lemma InitialInv(size: nat, threads: nat)
    ensures Inv(Initial(size, threads))
  {
    var s := Initial(size, threads);
    SumZero(s.threads, InGroup);
    SumZero(s.threads, InUse);
  }

  lemma GetKeepsCounts(s: State, step: Step, t: nat)
    requires CountInv(s) && Enabled(s, step) && t < |s.threads|
    requires step in {GetCheck(t), GetTake(t), GetAdd(t), GetMiss(t), GetMissAdd(t), CreateOk(t), CreateFail(t)}
    ensures CountInv(Apply(s, step))
  {
    hide Sum;
    SumMoved(s, t, Apply(s, step).threads[t]);
  }

  lemma ReleaseKeepsCounts(s: State, step: Step, t: nat)
    requires CountInv(s) && Enabled(s, step) && t < |s.threads|
    requires step in {RelCheck(t), RelSend(t), RelDone(t)} && (s.closed ==> !step.RelCheck?)
    ensures CountInv(Apply(s, step))
  {
    hide Sum;
    SumMoved(s, t, Apply(s, step).threads[t]);
  }

  lemma StepKeepsCounts(s: State, step: Step)
    requires Inv(s) && Enabled(s, step)
    ensures CountInv(Apply(s, step))
  {
    hide OwnInv, NoLeak, LifeInv, Sum;
    match step
    case GetTakeNil(_) =>
    case RelCheck(t) => ReleaseKeepsCounts(s, step, t);
    case RelSend(t) => ReleaseKeepsCounts(s, step, t);
    case RelDone(t) => ReleaseKeepsCounts(s, step, t);
    case CloseStart => case CloseWait => case CloseFlag => case CloseChannel => case CloseDrain => case CloseEnd =>
    case _ => GetKeepsCounts(s, step, step.t);
  }

  lemma SumMoved(s: State, t: nat, w: Thread)
    requires t < |s.threads|
    ensures Sum(s.threads[t := w], InGroup) == Sum(s.threads, InGroup) - InGroup(s.threads[t]) + InGroup(w)
    ensures Sum(s.threads[t := w], InUse) == Sum(s.threads, InUse) - InUse(s.threads[t]) + InUse(w)
  {
    SumUpdate(s.threads, t, w, InGroup);
    SumUpdate(s.threads, t, w, InUse);
  }

  lemma StepKeepsClose(s: State, step: Step)
    requires Inv(s) && Enabled(s, step) && Disciplined(s, step)
    ensures CloseInv(Apply(s, step)) && !Apply(s, step).panicked
  {
    hide NoLeak, LifeInv, Sum;
    if step.CloseWait? {
      SumZero(s.threads, InGroup);
      assert forall t | 0 <= t < |s.threads| :: InGroup(s.threads[t]) == 0;
    }
  }

  lemma StepKeepsLife(s: State, step: Step)
    requires Inv(s) && Enabled(s, step)
    ensures LifeInv(Apply(s, step))
  {
    hide NoLeak, CountInv, CloseInv, Sum;
  }

  /** A goroutine moves on with the connection it has, or with none. */
  lemma MoveKeepsOwn(s: State, r: State, t: nat)
    requires OwnInv(s) && NoLeak(s) && t < |s.threads| == |r.threads| && r.threads == s.threads[t := r.threads[t]]
    requires r.idle == s.idle && r.alive == s.alive
    requires HasConn(r.threads[t]) <==> HasConn(s.threads[t])
    requires HasConn(r.threads[t]) ==> r.threads[t].conn == s.threads[t].conn
    ensures OwnInv(r) && NoLeak(r)
  {
    forall c | c in r.alive && Some(c) !in r.idle ensures exists u :: Held(r, u, c) {
      var u :| Held(s, u, c);
      assert Held(r, u, c);
    }
  }

  lemma TakeKeepsOwn(s: State, t: nat)
    requires Inv(s) && Enabled(s, GetTake(t))
    ensures OwnInv(Apply(s, GetTake(t))) && NoLeak(Apply(s, GetTake(t)))
  {
    hide CountInv, CloseInv, LifeInv, Sum;
    var r := Apply(s, GetTake(t));
    assert s.idle == [s.idle[0]] + r.idle;
    assert forall j | 0 <= j < |r.idle| :: r.idle[j] == s.idle[j + 1];
    forall c | c in r.alive && Some(c) !in r.idle ensures exists u :: Held(r, u, c) {
      if Some(c) == s.idle[0] {
        assert Held(r, t, c);
      } else {
        var u :| Held(s, u, c);
        assert Held(r, u, c);
      }
    }
  }

  lemma CreateKeepsOwn(s: State, t: nat)
    requires Inv(s) && Enabled(s, CreateOk(t))
    ensures OwnInv(Apply(s, CreateOk(t))) && NoLeak(Apply(s, CreateOk(t)))
  {
    hide CountInv, CloseInv, Sum;
    var r := Apply(s, CreateOk(t));
    assert s.next !in s.alive && Some(s.next) !in s.idle;
    forall c | c in r.alive && Some(c) !in r.idle ensures exists u :: Held(r, u, c) {
      if c == s.next {
        assert Held(r, t, c);
      } else {
        var u :| Held(s, u, c);
        assert Held(r, u, c);
      }
    }
  }

  lemma SendKeepsOwn(s: State, t: nat)
    requires Inv(s) && Enabled(s, RelSend(t))
    ensures OwnInv(Apply(s, RelSend(t))) && NoLeak(Apply(s, RelSend(t)))
  {
    hide CountInv, LifeInv, Sum;
    var r := Apply(s, RelSend(t));
    assert !s.channelClosed;
    assert r.idle == s.idle + [s.threads[t].conn];
    assert forall x | x in s.idle :: x in r.idle;
    assert r.idle[|s.idle|] == s.threads[t].conn;
    forall c | c in r.alive && Some(c) !in r.idle ensures exists u :: Held(r, u, c) {
      var u :| Held(s, u, c);
      assert Held(r, u, c);
    }
  }

  lemma NobodyHolds(s: State)
    requires Inv(s) && !s.closer.NotStarted? && !s.closer.Waiting?
    ensures forall c | c in s.alive :: Some(c) in s.idle
  {
    hide CountInv, LifeInv, OwnInv;
    assert forall t: nat, c :: !Held(s, t, c);
  }

  lemma DrainKeepsOwn(s: State)
    requires Inv(s) && Enabled(s, CloseDrain)
    ensures OwnInv(Apply(s, CloseDrain)) && NoLeak(Apply(s, CloseDrain))
  {
    hide CountInv, LifeInv, NoLeak, Sum;
    var r := Apply(s, CloseDrain);
    assert forall j | 0 <= j < |r.idle| :: r.idle[j] == s.idle[j + 1];
    assert OwnInv(r);
    NobodyHolds(s);
    forall c | c in r.alive ensures Some(c) in r.idle {
      var j :| 0 <= j < |s.idle| && s.idle[j] == Some(c);
      assert r.idle[j - 1] == Some(c);
    }
    InIdleIsNoLeak(r);
  }

  lemma InIdleIsNoLeak(s: State)
    requires forall c | c in s.alive :: Some(c) in s.idle
    ensures NoLeak(s)
  {
  }

  lemma StepKeepsOwn(s: State, step: Step)
    requires Inv(s) && Enabled(s, step) && Disciplined(s, step)
    ensures OwnInv(Apply(s, step)) && NoLeak(Apply(s, step))
  {
    hide OwnInv, NoLeak, CountInv, LifeInv, Sum;
    var r := Apply(s, step);
    match step
    case GetCheck(t) => MoveKeepsOwn(s, r, t);
    case GetTake(t) => TakeKeepsOwn(s, t);
    case GetAdd(t) => MoveKeepsOwn(s, r, t);
    case GetMiss(t) => MoveKeepsOwn(s, r, t);
    case GetMissAdd(t) => MoveKeepsOwn(s, r, t);
    case CreateOk(t) => CreateKeepsOwn(s, t);
    case CreateFail(t) => MoveKeepsOwn(s, r, t);
    case RelCheck(t) => MoveKeepsOwn(s, r, t);
    case RelSend(t) => SendKeepsOwn(s, t);
    case RelDone(t) => MoveKeepsOwn(s, r, t);
    case CloseDrain => DrainKeepsOwn(s);
    case _ => SameKeepsOwn(s, r);
  }

  lemma SameKeepsOwn(s: State, r: State)
    requires OwnInv(s) && NoLeak(s) && r.threads == s.threads && r.idle == s.idle && r.alive == s.alive
    ensures OwnInv(r) && NoLeak(r)
  {
    forall c | c in r.alive && Some(c) !in r.idle ensures exists u :: Held(r, u, c) {
      var u :| Held(s, u, c);
      assert Held(r, u, c);
    }
  }

  lemma StepKeepsInv(s: State, step: Step)
    requires Inv(s) && Enabled(s, step) && Disciplined(s, step)
    ensures Inv(Apply(s, step))
  {
    hide OwnInv, NoLeak, CountInv, LifeInv, CloseInv, Apply;
    StepKeepsOwn(s, step);
    StepKeepsLife(s, step);
    StepKeepsCounts(s, step);
    StepKeepsClose(s, step);
  }

  lemma {:induction false} RunKeepsInv(s: State, steps: seq<Step>)
    requires Inv(s) && Runs(s, steps) && DisciplinedRun(s, steps)
    ensures Inv(Final(s, steps))
    decreases |steps|
  {
    hide Inv, Apply, Enabled, Disciplined;
    if steps != [] {
      StepKeepsInv(s, steps[0]);
      RunKeepsInv(Apply(s, steps[0]), steps[1..]);
    }
  }

  // ------------------------------------------------------------- the results

  /** The state after any run in which no `GetConnection` overlaps `Close`. */
  ghost predicate Reachable(s: State) {
    exists size, threads, steps ::
      && Runs(Initial(size, threads), steps) && DisciplinedRun(Initial(size, threads), steps)
      && s == Final(Initial(size, threads), steps)
  }

  lemma ReachableInv(s: State)
    requires Reachable(s)
    ensures Inv(s)
  {
    hide Inv, Initial, Runs, Final, DisciplinedRun;
    var size, threads, steps :|
      && Runs(Initial(size, threads), steps) && DisciplinedRun(Initial(size, threads), steps)
      && s == Final(Initial(size, threads), steps);
    InitialInv(size, threads);
    RunKeepsInv(Initial(size, threads), steps);
  }

  /** No connection is held twice, or held and idle; none that is handed out is nil or closed. */
  lemma OwnedOnce(s: State, t: nat)
    requires Reachable(s) && t < |s.threads| && HasConn(s.threads[t])
    ensures s.threads[t].conn.Some? && s.threads[t].conn !in s.idle
    ensures s.threads[t].conn.value in s.alive && s.threads[t].conn.value !in s.closes
    ensures forall u | 0 <= u < |s.threads| && u != t && HasConn(s.threads[u]) :: s.threads[u].conn != s.threads[t].conn
  {
    hide Runs, Final, DisciplinedRun, CountInv, CloseInv;
    ReachableInv(s);
  }

  /** The wait group counts the connections that are out or being created, and the releases not
      yet finished. */
  lemma GroupCountsHolders(s: State)
    requires Reachable(s)
    ensures s.wg == Sum(s.threads, InGroup)
    ensures s.wg == 0 ==> forall t | 0 <= t < |s.threads| :: !s.threads[t].Holding? && !s.threads[t].Releasing?
  {
    hide Runs, Final, DisciplinedRun, OwnInv, NoLeak, LifeInv, CloseInv, Sum;
    ReachableInv(s);
    SumZero(s.threads, InGroup);
    if s.wg == 0 {
      forall t | 0 <= t < |s.threads| ensures !s.threads[t].Holding? && !s.threads[t].Releasing? {
        assert InGroup(s.threads[t]) == 0;
      }
    }
  }

  lemma {:induction false} SumAtLeast(threads: seq<Thread>, t: nat, weight: Thread -> nat)
    requires t < |threads|
    ensures Sum(threads, weight) >= weight(threads[t])
  {
    if t > 0 { SumAtLeast(threads[1..], t - 1, weight); }
  }

  /** While no more connections than the pool's size were ever in use at once, a release finds room
      in the channel, and it never sends on a closed one. */
  lemma ReleaseNeverBlocks(s: State, t: nat)
    requires Reachable(s) && t < |s.threads| && s.threads[t].Releasing?
    ensures !s.channelClosed
    ensures s.peak <= s.size ==> |s.idle| < s.size && Enabled(s, RelSend(t))
  {
    hide Runs, Final, DisciplinedRun, OwnInv, NoLeak, LifeInv, Sum;
    ReachableInv(s);
    SumAtLeast(s.threads, t, InUse);
  }

  lemma {:induction false} HeldCount(threads: seq<Thread>, held: set<Conn>)
    requires forall c | c in held :: exists t :: 0 <= t < |threads| && HasConn(threads[t]) && threads[t].conn == Some(c)
    ensures |held| <= Sum(threads, InUse)
  {
    if threads == [] {
      assert held == {};
    } else {
      var w := threads[0];
      var rest := if HasConn(w) && w.conn.Some? then held - {w.conn.value} else held;
      forall c | c in rest
        ensures exists t :: 0 <= t < |threads[1..]| && HasConn(threads[1..][t]) && threads[1..][t].conn == Some(c)
      {
        var t :| 0 <= t < |threads| && HasConn(threads[t]) && threads[t].conn == Some(c);
        assert threads[1..][t - 1] == threads[t];
      }
      HeldCount(threads[1..], rest);
    }
  }

  /** There are never more live connections than were once in use, or being created, together. */
  lemma LiveWithinPeak(s: State)
    requires Reachable(s)
    ensures |s.alive| <= s.peak
  {
    hide Runs, Final, DisciplinedRun, LifeInv, CloseInv, Sum;
    ReachableInv(s);
    var resting := set c | c in s.alive && Some(c) in s.idle;
    var held := s.alive - resting;
    forall c | c in held
      ensures exists t :: 0 <= t < |s.threads| && HasConn(s.threads[t]) && s.threads[t].conn == Some(c)
    {
      var t :| Held(s, t, c);
    }
    HeldCount(s.threads, held);
    RestingCount(resting, s.idle);
    assert s.alive == resting + held;
  }

  lemma {:induction false} RestingCount(resting: set<Conn>, idle: seq<Option<Conn>>)
    requires forall c | c in resting :: Some(c) in idle
    ensures |resting| <= |idle|
  {
    if idle == [] {
      assert resting == {};
    } else {
      var rest := if idle[0].Some? then resting - {idle[0].value} else resting;
      assert idle == [idle[0]] + idle[1..];
      RestingCount(rest, idle[1..]);
    }
  }

  /** A finished `Close` has closed every connection ever created, each of them once. */
  lemma CloseClosesEverythingOnce(s: State)
    requires Reachable(s) && s.closer.Finished?
    ensures s.alive == {} && s.idle == []
    ensures forall c: Conn | c < s.next :: c in s.closes
    ensures forall j, k | 0 <= j < k < |s.closes| :: s.closes[j] != s.closes[k]
  {
    hide Runs, Final, DisciplinedRun, CountInv;
    ReachableInv(s);
    NobodyHolds(s);
  }

  // ---------------------------------------------------- when Get and Close overlap

  ghost predicate Quiet(s: State) {
    !s.panicked && forall j | 0 <= j < |s.idle| :: s.idle[j].Some?
  }

  /** `s` after a `Close` nothing interferes with. */
  ghost predicate Shut(s: State, r: State) {
    && r.closer.Finished? && r.closed && r.channelClosed && r.idle == [] && !r.panicked
    && r.threads == s.threads && r.next == s.next
    && r.alive == s.alive - (set c | c in s.alive && Some(c) in s.idle)
  }

  lemma {:induction false} Drains(s: State) returns (steps: seq<Step>)
    requires Quiet(s) && s.closer.Draining? && s.closed && s.channelClosed
    ensures Runs(s, steps) && Shut(s, Final(s, steps)) && NoLapse(steps)
    decreases |s.idle|
  {
    if s.idle == [] {
      steps := [CloseEnd];
      assert steps[1..] == [];
    } else {
      var r := Apply(s, CloseDrain);
      var rest := Drains(r);
      steps := [CloseDrain] + rest;
      assert steps[1..] == rest;
      assert s.idle == [s.idle[0]] + r.idle;
    }
  }

  lemma Closes(s: State) returns (steps: seq<Step>)
    requires Quiet(s) && !s.closed && !s.channelClosed
    requires (s.closer.Waiting? && s.wg == 0) || s.closer.Waited?
    ensures Runs(s, steps) && Shut(s, Final(s, steps)) && (s.closer.Waited? ==> NoLapse(steps))
    decreases s.closer.Waiting?
  {
    if s.closer.Waiting? {
      var rest := Closes(Apply(s, CloseWait));
      steps := [CloseWait] + rest;
      assert steps[1..] == rest;
    } else {
      var flagged := Apply(s, CloseFlag);
      var rest := Drains(Apply(flagged, CloseChannel));
      var tail := [CloseChannel] + rest;
      steps := [CloseFlag] + tail;
      assert tail[1..] == rest && steps[1..] == tail;
    }
  }

  lemma {:induction false} RunsConcat(s: State, a: seq<Step>, b: seq<Step>)
    requires Runs(s, a) && Runs(Final(s, a), b)
    ensures Runs(s, a + b) && Final(s, a + b) == Final(Final(s, a), b)
    decreases |a|
  {
    hide Apply, Enabled;
    if a == [] {
      assert a + b == b;
    } else {
      RunsConcat(Apply(s, a[0]), a[1..], b);
      assert (a + b)[1..] == a[1..] + b;
    }
  }

  /** `Close` is over, and a caller has been given nil for a connection, or a live connection is
      neither pooled nor anybody's: nothing will ever close it. */
  ghost predicate Harmed(s: State) {
    && s.closer.Finished?
    && ((exists t :: 0 <= t < |s.threads| && s.threads[t] == Holding(None))
        || exists c :: c in s.alive && Some(c) !in s.idle && forall t: nat :: !Held(s, t, c))
  }

  /** Wherever a `GetConnection` is unseen as the wait of `Close` can end, or has ended and the flag
      is not yet set, the run can go on to harm. */
  lemma OverlapHarms(s: State, t: nat) returns (steps: seq<Step>)
    requires Quiet(s) && OwnInv(s) && LifeInv(s) && !s.closed && !s.channelClosed
    requires (s.closer.Waiting? && s.wg == 0) || s.closer.Waited?
    requires t < |s.threads| && Unseen(s.threads[t])
    ensures Runs(s, steps) && Harmed(Final(s, steps)) && (s.closer.Waited? ==> NoLapse(steps))
  {
    hide Sum;
    var closing := Closes(s);
    var shut := Final(s, closing);
    var getting := Gets(shut, t);
    steps := closing + getting;
    hide Apply, Enabled, Harmed;
    RunsConcat(s, closing, getting);
  }

  /** The rest of that `GetConnection` after `Close`, and the release of what it got. */
  lemma Gets(s: State, t: nat) returns (steps: seq<Step>)
    requires s.closer.Finished? && s.closed && s.channelClosed && s.idle == [] && !s.panicked
    requires t < |s.threads| && Unseen(s.threads[t])
    requires s.threads[t].Taken? && s.threads[t].conn.Some? ==>
               && s.threads[t].conn.value in s.alive
               && forall u: nat | u != t :: !Held(s, u, s.threads[t].conn.value)
    requires forall u | 0 <= u < |s.threads| && HasConn(s.threads[u]) && s.threads[u].conn.Some? ::
               s.threads[u].conn.value < s.next
    ensures Runs(s, steps) && Harmed(Final(s, steps)) && NoLapse(steps)
  {
    hide Sum, Users, Max;
    match s.threads[t]
    case Checked =>
      steps := [GetTakeNil(t), GetAdd(t)];
      Two(s, GetTakeNil(t), GetAdd(t));
      assert Final(s, steps).threads[t] == Holding(None);
    case Taken(None) =>
      steps := [GetAdd(t)];
      One(s, GetAdd(t));
      assert Final(s, steps).threads[t] == Holding(None);
    case Taken(Some(c)) =>
      steps := [GetAdd(t), RelCheck(t)];
      Two(s, GetAdd(t), RelCheck(t));
      var r := Final(s, steps);
      assert r.threads == s.threads[t := Idle];
      assert forall u: nat | u != t && Held(r, u, c) :: Held(s, u, c);
    case Missed =>
      var created := [GetMissAdd(t), CreateOk(t)];
      Two(s, GetMissAdd(t), CreateOk(t));
      var r := Final(s, created);
      steps := created + [RelCheck(t)];
      One(r, RelCheck(t));
      RunsConcat(s, created, [RelCheck(t)]);
      var last := Final(s, steps);
      assert forall u: nat :: !Held(last, u, s.next);
      assert s.next in last.alive;
  }

  lemma Two(s: State, a: Step, b: Step)
    requires Enabled(s, a) && Enabled(Apply(s, a), b)
    ensures Runs(s, [a, b]) && Final(s, [a, b]) == Apply(Apply(s, a), b)
  {
    hide Enabled, Apply;
    One(Apply(s, a), b);
    var steps := [a, b];
    assert steps[1..] == [b];
  }

  lemma One(s: State, a: Step)
    requires Enabled(s, a)
    ensures Runs(s, [a]) && Final(s, [a]) == Apply(s, a)
  {
    hide Enabled, Apply;
    var steps := [a];
    assert steps[1..] == [];
  }

  /** Every undisciplined step from a sound state opens the way to harm, and no other lapse is needed. */
  lemma LapseHarms(s: State, step: Step) returns (steps: seq<Step>)
    requires Inv(s) && Enabled(s, step) && !Disciplined(s, step)
    ensures Runs(Apply(s, step), steps) && Harmed(Final(Apply(s, step), steps)) && NoLapse(steps)
  {
    hide CountInv, Sum, Runs, Final, Harmed, NoLeak;
    var r := Apply(s, step);
    if step.CloseWait? {
      var t :| 0 <= t < |s.threads| && Unseen(s.threads[t]);
      steps := OverlapHarms(r, t);
    } else {
      assert r.threads[step.t] == Checked;
      assert OwnInv(r) by { assert NoLeak(s); MoveKeepsOwn(s, r, step.t); }
      steps := OverlapHarms(r, step.t);
    }
  }

  lemma InvIsUnharmed(s: State)
    requires Inv(s)
    ensures !Harmed(s)
  {
    hide CountInv, LifeInv;
  }

  /** The discipline is exact: a run that keeps to it does no harm, and of a run that does not, the
      first step out of line is one after which the run could have gone on to harm without another. */
  lemma {:induction false} DisciplineIsExact(s: State, steps: seq<Step>) returns (k: nat, rest: seq<Step>)
    requires Inv(s) && Runs(s, steps)
    ensures DisciplinedRun(s, steps) ==> !Harmed(Final(s, steps))
    ensures !DisciplinedRun(s, steps) ==>
              && k < |steps| && Runs(s, steps[..k + 1] + rest)
              && OneLapse(s, steps[..k + 1] + rest, k) && Harmed(Final(s, steps[..k + 1] + rest))
    decreases |steps|
  {
    hide Inv, Apply, Enabled, Disciplined, Harmed;
    k, rest := 0, [];
    if steps == [] {
      InvIsUnharmed(s);
    } else if Disciplined(s, steps[0]) {
      StepKeepsInv(s, steps[0]);
      k, rest := DisciplineIsExact(Apply(s, steps[0]), steps[1..]);
      if k < |steps[1..]| { assert (steps[..k + 2] + rest)[1..] == steps[1..][..k + 1] + rest; }
      k := k + 1;
    } else {
      rest := LapseHarms(s, steps[0]);
      NoLapseIsDisciplined(Apply(s, steps[0]), rest);
      assert (steps[..1] + rest)[1..] == rest;
    }
  }

  /** And there are harmful runs, in a pool of any size, with a single user. */
  lemma OverlapHappens(size: nat, threads: nat) returns (steps: seq<Step>)
    requires threads > 0
    ensures Runs(Initial(size, threads), steps) && Harmed(Final(Initial(size, threads), steps))
  {
    hide Inv, Harmed, Sum;
    var s := Initial(size, threads);
    InitialInv(size, threads);
    var checked := Apply(s, GetCheck(0));
    StepKeepsInv(s, GetCheck(0));
    var closing := Apply(checked, CloseStart);
    StepKeepsInv(checked, CloseStart);
    Two(s, GetCheck(0), CloseStart);
    assert Unseen(closing.threads[0]);
    var rest := LapseHarms(closing, CloseWait);
    One(closing, CloseWait);
    hide Apply, Enabled, Initial, Disciplined;
    RunsConcat(closing, [CloseWait], rest);
    RunsConcat(s, [GetCheck(0), CloseStart], [CloseWait] + rest);
    steps := [GetCheck(0), CloseStart] + ([CloseWait] + rest);
  }

  // ------------------------------------------------------------ Close comes back

  /** `Close` has begun and has not returned. */
  ghost predicate Closing(s: State) { !s.closer.NotStarted? && !s.closer.Finished? }

  /** A step that goes on with what has begun, within the discipline. */
  ghost predicate Onward(s: State, step: Step) {
    !step.GetCheck? && Enabled(s, step) && Disciplined(s, step)
  }

  /** Every goroutine that has begun is waiting for room in a full channel. */
  ghost predicate Stuck(s: State) {
    && s.closer.Waiting? && |s.idle| >= s.size
    && (forall t | 0 <= t < |s.threads| :: s.threads[t].Idle? || s.threads[t].Releasing?)
    && exists t | 0 <= t < |s.threads| :: s.threads[t].Releasing?
  }

  /** While `Close` is on its way some step can be taken, unless the releases it waits for are
      themselves waiting; and that is the only way it can hang. */
  lemma CloseHangsExactly(s: State) returns (step: Step)
    requires Inv(s) && Closing(s)
    ensures Onward(s, step) <==> !Stuck(s)
    ensures Stuck(s) ==> forall other :: !Onward(s, other)
  {
    hide OwnInv, NoLeak, LifeInv, Sum, Apply;
    step := CloseEnd;
    if t: nat :| t < |s.threads| && !s.threads[t].Idle? && (!s.threads[t].Releasing? || |s.idle| < s.size) {
      step := NextOf(s, t);
      assert s.closer.Waiting?;
    } else if s.closer.Waiting? {
      if t: nat :| t < |s.threads| && s.threads[t].Releasing? {
        SumAtLeast(s.threads, t, InGroup);
        assert Stuck(s);
      } else {
        assert forall t | 0 <= t < |s.threads| :: InGroup(s.threads[t]) == 0;
        SumZero(s.threads, InGroup);
        step := CloseWait;
      }
    } else {
      step := match s.closer
              case Waited => CloseFlag
              case Flagged => CloseChannel
              case _ => if s.idle == [] then CloseEnd else CloseDrain;
    }
  }

  ghost function NextOf(s: State, t: nat): Step
    requires t < |s.threads|
  {
    match s.threads[t]
    case Idle => GetCheck(t)
    case Checked => if s.idle != [] then GetTake(t) else if s.channelClosed then GetTakeNil(t) else GetMiss(t)
    case Taken(_) => GetAdd(t)
    case Missed => GetMissAdd(t)
    case Creating => CreateOk(t)
    case Holding(_) => RelCheck(t)
    case Releasing(_) => RelSend(t)
    case Sent => RelDone(t)
  }

  /** It cannot hang while no more connections than the pool's size were ever in use at once. */
  lemma NeverStuckWithinSize(s: State)
    requires Inv(s) && s.peak <= s.size
    ensures !Stuck(s)
  {
    hide OwnInv, NoLeak, LifeInv, CloseInv, Sum;
    if t :| 0 <= t < |s.threads| && s.threads[t].Releasing? { SumAtLeast(s.threads, t, InUse); }
  }

  ghost function Effort(w: Thread): nat {
    match w
    case Idle => 0
    case Sent => 1
    case Releasing(_) => 3
    case Holding(_) => 4
    case Creating => 5
    case Taken(_) => 6
    case Missed => 6
    case Checked => 7
  }

  /** The steps still to come, if nobody asks for another connection. */
  ghost function Measure(s: State): nat {
    Sum(s.threads, Effort) + |s.idle| +
    match s.closer
    case NotStarted => 5 case Waiting => 4 case Waited => 3 case Flagged => 2 case Draining => 1 case Finished => 0
  }

  lemma OnwardRunsOut(s: State, step: Step)
    requires Inv(s) && Onward(s, step)
    ensures Measure(Apply(s, step)) < Measure(s)
  {
    hide OwnInv, NoLeak, LifeInv, CountInv, Sum, Measure, Users, Max;
    var r := Apply(s, step);
    match step
    case CloseStart => CloserRunsOut(s, step);
    case CloseWait => CloserRunsOut(s, step);
    case CloseFlag => CloserRunsOut(s, step);
    case CloseChannel => CloserRunsOut(s, step);
    case CloseDrain => CloserRunsOut(s, step);
    case CloseEnd => CloserRunsOut(s, step);
    case GetCheck(_) =>
    case GetTake(t) => MoveRunsOut(s, r, t);
    case GetTakeNil(t) => MoveRunsOut(s, r, t);
    case GetAdd(t) => MoveRunsOut(s, r, t);
    case GetMiss(t) => MoveRunsOut(s, r, t);
    case GetMissAdd(t) => MoveRunsOut(s, r, t);
    case CreateOk(t) => MoveRunsOut(s, r, t);
    case CreateFail(t) => MoveRunsOut(s, r, t);
    case RelCheck(t) => MoveRunsOut(s, r, t);
    case RelSend(t) => MoveRunsOut(s, r, t);
    case RelDone(t) => MoveRunsOut(s, r, t);
  }

  lemma CloserRunsOut(s: State, step: Step)
    requires Enabled(s, step)
    requires step in {CloseStart, CloseWait, CloseFlag, CloseChannel, CloseDrain, CloseEnd}
    ensures Measure(Apply(s, step)) < Measure(s)
  {
    hide Sum;
  }

  lemma MoveRunsOut(s: State, r: State, t: nat)
    requires t < |s.threads| == |r.threads| && r.threads == s.threads[t := r.threads[t]] && r.closer == s.closer
    requires Effort(r.threads[t]) + |r.idle| < Effort(s.threads[t]) + |s.idle|
    ensures Measure(r) < Measure(s)
  {
    hide Sum, Effort;
    SumUpdate(s.threads, t, r.threads[t], Effort);
  }

  /** Nor can it go on for ever: the steps that are left are counted. */
  lemma {:induction false} CloseReturnsInTime(s: State, steps: seq<Step>)
    requires Inv(s) && Runs(s, steps) && DisciplinedRun(s, steps)
    requires forall k | 0 <= k < |steps| :: !steps[k].GetCheck?
    ensures |steps| <= Measure(s)
    decreases |steps|
  {
    hide Inv, Apply, Enabled, Disciplined, Measure;
    if steps != [] {
      OnwardRunsOut(s, steps[0]);
      StepKeepsInv(s, steps[0]);
      CloseReturnsInTime(Apply(s, steps[0]), steps[1..]);
    }
  }

  /** More connections are alive than the channel has room for. */
  ghost predicate Overfull(s: State) { s.size < |s.alive| }

  lemma {:induction false} IdleCount(idle: seq<Option<Conn>>, live: set<Conn>)
    requires forall j | 0 <= j < |idle| :: idle[j].Some? && idle[j].value in live
    requires forall j, k | 0 <= j < k < |idle| :: idle[j] != idle[k]
    ensures |idle| <= |live|
  {
    if idle != [] {
      var rest := idle[1..];
      forall j | 0 <= j < |rest| ensures rest[j].Some? && rest[j].value in live - {idle[0].value} {
        assert rest[j] == idle[j + 1] && idle[j + 1] != idle[0];
      }
      IdleCount(rest, live - {idle[0].value});
    }
  }

  lemma StuckIsOverfull(s: State)
    requires Inv(s) && Stuck(s)
    ensures Overfull(s)
  {
    hide NoLeak, LifeInv, CountInv, CloseInv;
    var t :| 0 <= t < |s.threads| && s.threads[t].Releasing?;
    assert HasConn(s.threads[t]);
    var c := s.threads[t].conn.value;
    forall j | 0 <= j < |s.idle| ensures s.idle[j].Some? && s.idle[j].value in s.alive - {c} {
      assert s.idle[j] != Some(c) by { assert s.threads[t].conn !in s.idle; }
    }
    IdleCount(s.idle, s.alive - {c});
  }

  /** Past its wait `Close` finds every live connection in the channel, and so never too many. */
  lemma OverfullWaits(s: State)
    requires Inv(s) && Overfull(s)
    ensures s.closer.NotStarted? || s.closer.Waiting?
  {
    hide OwnInv, NoLeak, LifeInv, CloseInv, Sum;
    if !s.closer.NotStarted? && !s.closer.Waiting? {
      NobodyHolds(s);
      RestingCount(s.alive, s.idle);
    }
  }

  /** From there `Close` never returns, whatever the users of the pool do, new Gets included. */
  lemma {:induction false} CloseHangsForGood(s: State, steps: seq<Step>)
    requires Inv(s) && Overfull(s) && Runs(s, steps) && DisciplinedRun(s, steps)
    ensures Overfull(Final(s, steps)) && !Final(s, steps).closer.Finished?
    decreases |steps|
  {
    hide Inv, Apply, Enabled, Disciplined, Overfull;
    if steps == [] {
      OverfullWaits(s);
    } else {
      StaysOverfull(s, steps[0]);
      StepKeepsInv(s, steps[0]);
      CloseHangsForGood(Apply(s, steps[0]), steps[1..]);
    }
  }

  lemma StaysOverfull(s: State, step: Step)
    requires Inv(s) && Overfull(s) && Enabled(s, step)
    ensures Overfull(Apply(s, step))
  {
    hide OwnInv, NoLeak, CountInv, CloseInv, Sum;
    OverfullWaits(s);
    assert s.next !in s.alive;
  }

  /** From anywhere else it can return. */
  lemma {:induction false} CloseCanReturn(s: State) returns (steps: seq<Step>)
    requires Inv(s) && !Overfull(s)
    ensures Runs(s, steps) && DisciplinedRun(s, steps) && Final(s, steps).closer.Finished?
    decreases Measure(s)
  {
    hide Inv, Apply, Enabled, Disciplined, Overfull, Measure, Stuck;
    if s.closer.Finished? {
      steps := [];
    } else {
      var step := TowardsReturn(s);
      OnwardRunsOut(s, step);
      StepKeepsInv(s, step);
      var rest := CloseCanReturn(Apply(s, step));
      steps := [step] + rest;
      assert steps[1..] == rest;
    }
  }

  lemma TowardsReturn(s: State) returns (step: Step)
    requires Inv(s) && !Overfull(s) && !s.closer.Finished?
    ensures Onward(s, step) && !Overfull(Apply(s, step))
  {
    hide OwnInv, NoLeak, LifeInv, CountInv, CloseInv, Stuck, Sum;
    if s.closer.NotStarted? {
      step := CloseStart;
    } else {
      if Stuck(s) { StuckIsOverfull(s); }
      step := CloseHangsExactly(s);
      if step.CreateOk? { step := CreateFail(step.t); }
    }
  }

  /** `Close` can still return exactly when no more connections are alive than the channel can hold. */
  lemma CloseReturnsExactly(s: State)
    requires Inv(s)
    ensures (exists steps :: Runs(s, steps) && DisciplinedRun(s, steps) && Final(s, steps).closer.Finished?) <==>
            |s.alive| <= s.size
  {
    hide Inv, Runs, DisciplinedRun, Final;
    if Overfull(s) {
      forall steps | Runs(s, steps) && DisciplinedRun(s, steps) ensures !Final(s, steps).closer.Finished? {
        CloseHangsForGood(s, steps);
      }
    } else {
      var steps := CloseCanReturn(s);
    }
  }

  /** A disciplined run from `s` to `r`. */
  ghost predicate Leads(s: State, steps: seq<Step>, r: State) {
    Runs(s, steps) && DisciplinedRun(s, steps) && Final(s, steps) == r
  }

  lemma LeadsOn(s: State, steps: seq<Step>, r: State, step: Step)
    requires Leads(s, steps, r) && Enabled(r, step) && Disciplined(r, step)
    ensures Leads(s, steps + [step], Apply(r, step))
  {
    hide Runs, Final, DisciplinedRun, Apply, Enabled, Disciplined;
    RunsSnoc(s, steps, step);
  }

  /** An open pool nobody is closing. */
  ghost predicate Calm(s: State) { !s.panicked && !s.closed && !s.channelClosed && s.closer.NotStarted? }

  /** A Get that finds nothing idle and makes a connection. */
  lemma GetsNew(s: State, steps: seq<Step>, r: State, t: nat) returns (more: seq<Step>, q: State)
    requires Leads(s, steps, r) && Calm(r) && At(r, t, Idle) && r.idle == []
    ensures Leads(s, more, q) && Calm(q) && q.size == r.size && q.idle == []
    ensures q.threads == r.threads[t := Holding(Some(r.next))]
  {
    hide Leads, Sum;
    LeadsOn(s, steps, r, GetCheck(t));
    more, q := steps + [GetCheck(t)], Apply(r, GetCheck(t));
    LeadsOn(s, more, q, GetMiss(t));
    more, q := more + [GetMiss(t)], Apply(q, GetMiss(t));
    LeadsOn(s, more, q, GetMissAdd(t));
    more, q := more + [GetMissAdd(t)], Apply(q, GetMissAdd(t));
    LeadsOn(s, more, q, CreateOk(t));
    more, q := more + [CreateOk(t)], Apply(q, CreateOk(t));
  }

  /** A Release that finds room. */
  lemma GivesBack(s: State, steps: seq<Step>, r: State, t: nat) returns (more: seq<Step>, q: State)
    requires Leads(s, steps, r) && Calm(r) && t < |r.threads| && r.threads[t].Holding? && |r.idle| < r.size
    ensures Leads(s, more, q) && Calm(q) && q.size == r.size && |q.idle| == |r.idle| + 1
    ensures q.threads == r.threads[t := Idle]
  {
    hide Leads, Sum;
    LeadsOn(s, steps, r, RelCheck(t));
    more, q := steps + [RelCheck(t)], Apply(r, RelCheck(t));
    LeadsOn(s, more, q, RelSend(t));
    more, q := more + [RelSend(t)], Apply(q, RelSend(t));
    LeadsOn(s, more, q, RelDone(t));
    more, q := more + [RelDone(t)], Apply(q, RelDone(t));
  }

  /** One user more than the size is enough to hang it: all of them hold a connection, all but one
      give theirs back, `Close` begins, and the last one finds the channel full. */
  lemma CloseCanHang(size: nat) returns (steps: seq<Step>, r: State)
    ensures Leads(Initial(size, size + 1), steps, r) && Stuck(r)
  {
    var s := Initial(size, size + 1);
    steps, r := [], s;
    assert Leads(s, steps, r);
    hide Leads, Apply, Enabled, Disciplined, Sum, Initial;
    for i := 0 to size + 1
      invariant Leads(s, steps, r) && Calm(r) && r.size == size && r.idle == [] && |r.threads| == size + 1
      invariant forall t | 0 <= t <= size :: if t < i then r.threads[t].Holding? else r.threads[t].Idle?
    {
      steps, r := GetsNew(s, steps, r, i);
    }
    for j := 0 to size
      invariant Leads(s, steps, r) && Calm(r) && r.size == size && |r.idle| == j && |r.threads| == size + 1
      invariant forall t | 0 <= t <= size :: if t < j then r.threads[t].Idle? else r.threads[t].Holding?
    {
      steps, r := GivesBack(s, steps, r, j);
    }
    steps, r := LastWaits(s, steps, r, size);
  }

  lemma LastWaits(s: State, steps: seq<Step>, r: State, t: nat) returns (more: seq<Step>, q: State)
    requires Leads(s, steps, r) && Calm(r) && t < |r.threads| && r.threads[t].Holding? && |r.idle| >= r.size
    requires forall u | 0 <= u < |r.threads| && u != t :: r.threads[u].Idle?
    ensures Leads(s, more, q) && Stuck(q)
  {
    hide Leads, Sum;
    LeadsOn(s, steps, r, RelCheck(t));
    more, q := steps + [RelCheck(t)], Apply(r, RelCheck(t));
    LeadsOn(s, more, q, CloseStart);
    more, q := more + [CloseStart], Apply(q, CloseStart);
    assert q.threads[t].Releasing?;
  }

  // ---------------------------------------------------------------- the methods

  lemma {:induction false} RunsSnoc(s: State, steps: seq<Step>, step: Step)
    requires Runs(s, steps) && Enabled(Final(s, steps), step)
    ensures Runs(s, steps + [step]) && Final(s, steps + [step]) == Apply(Final(s, steps), step)
    ensures DisciplinedRun(s, steps) && Disciplined(Final(s, steps), step) ==> DisciplinedRun(s, steps + [step])
    decreases |steps|
  {
    hide Apply, Enabled, Disciplined;
    if steps == [] {
      assert steps + [step] == [step];
      One(s, step);
      assert [step][1..] == [];
    } else {
      RunsSnoc(Apply(s, steps[0]), steps[1..], step);
      assert (steps + [step])[1..] == steps[1..] + [step];
    }
  }

  datatype Gotten = Got(conn: Option<Conn>) | PoolClosed | NewConnFailed

  /** The pool object with its methods run one after the other. Every statement that touches shared
      state is one of the steps above: `trace` lists them, and `model` is the machine state they
      lead to. A goroutine number stands for one use of a connection, from Get to Release. */
  class ConnectionPool {
    const size: nat
    var connections: seq<Option<Conn>>
    var wg: int
    var closed: bool
    var dialled: Conn
    ghost const users: nat
    ghost var trace: seq<Step>
    ghost var model: State

    ghost predicate Traced()
      reads this
    {
      && Runs(Initial(size, users), trace) && DisciplinedRun(Initial(size, users), trace)
      && model == Final(Initial(size, users), trace)
    }

    /** The fields are those of the machine. */
    ghost predicate Synced()
      reads this
    {
      && Traced() && Inv(model) && model.size == size && |model.threads| == users
      && model.idle == connections && model.wg == wg && model.closed == closed && model.next == dialled
    }

    /** Between two calls: every use of a connection is before its Get, between Get and Release, or
        waiting for room in its Release; `Close` has not begun, waits, or is over. */
    ghost predicate Valid()
      reads this
    {
      && Synced()
      && (forall t | 0 <= t < users ::
            model.threads[t].Idle? || model.threads[t].Holding? || model.threads[t].Releasing?)
      && (model.closer.NotStarted? || model.closer.Waiting? || model.closer.Finished?)
    }

    constructor (size: nat, ghost users: nat)
      ensures Valid() && this.size == size && this.users == users
      ensures model == Initial(size, users) && trace == []
    {
      this.size, this.users := size, users;
      connections, wg, closed, dialled := [], 0, false, 0;
      trace, model := [], Initial(size, users);
      InitialInv(size, users);
    }

    ghost method Do(step: Step)
      requires Traced() && Inv(model) && Enabled(model, step) && Disciplined(model, step)
      modifies this`trace, this`model
      ensures Traced() && Inv(model)
      ensures model == Apply(old(model), step) && trace == old(trace) + [step]
    {
      hide Runs, Final, DisciplinedRun, Inv, Apply, Enabled, Disciplined, Initial;
      RunsSnoc(Initial(size, users), trace, step);
      StepKeepsInv(model, step);
      model := Apply(model, step);
      trace := trace + [step];
    }

    /** The `default` branch of the select: create a connection, in the wait group from the start. */
    method Create(ghost t: nat, up: bool) returns (r: Gotten)
      requires Synced() && At(model, t, Checked) && connections == [] && !closed && !model.closer.Waited?
      modifies this
      ensures !r.PoolClosed? && (r.Got? <==> up)
      ensures Synced() && connections == [] && !closed && model.closer == old(model.closer)
      ensures model.closes == old(model.closes) && dialled == old(dialled) + if r.Got? then 1 else 0
      ensures trace == old(trace) + [GetMiss(t), GetMissAdd(t), if r.Got? then CreateOk(t) else CreateFail(t)]
      ensures r.Got? ==>
                && r.conn == Some(old(dialled)) && model.threads == old(model.threads)[t := Holding(r.conn)]
                && model.alive == old(model.alive) + {old(dialled)}
      ensures !r.Got? ==> model.threads == old(model.threads)[t := Idle] && model.alive == old(model.alive)
    {
      hide Inv, Runs, Final, DisciplinedRun, Initial, Users;
      OpenChannel(model);
      Do(GetMiss(t));
      wg := wg + 1;
      Do(GetMissAdd(t));
      if !up {
        wg := wg - 1;
        Do(CreateFail(t));
        return NewConnFailed;
      }
      var conn := dialled;
      dialled := dialled + 1;
      Do(CreateOk(t));
      return Got(Some(conn));
    }

    /** `up` says whether `newConn`, if it comes to that, succeeds. */
    method GetConnection(ghost t: nat, up: bool) returns (r: Gotten)
      requires Valid() && At(model, t, Idle)
      modifies this
      ensures (r.Got? <==> !old(closed) && (old(connections) != [] || up))
      ensures Valid() && (r.PoolClosed? <==> old(closed)) && closed == old(closed) && model.closer == old(model.closer)
      ensures model.closes == old(model.closes)
      ensures dialled == old(dialled) + if r.Got? && old(connections) == [] then 1 else 0
      ensures trace == old(trace) + [GetCheck(t)] + (
                if r.PoolClosed? then []
                else if old(connections) != [] then [GetTake(t), GetAdd(t)]
                else [GetMiss(t), GetMissAdd(t), if r.Got? then CreateOk(t) else CreateFail(t)])
      ensures r.Got? ==>
                && model.threads == old(model.threads)[t := Holding(r.conn)]
                && r.conn == (if old(connections) == [] then Some(old(dialled)) else old(connections)[0])
                && connections == (if old(connections) == [] then [] else old(connections)[1..])
                && model.alive == old(model.alive) + (if old(connections) == [] then {old(dialled)} else {})
      ensures !r.Got? ==>
                && model.threads == old(model.threads) && model.alive == old(model.alive)
                && connections == old(connections)
    {
      hide Inv, Runs, Final, DisciplinedRun, Initial, Users;
      NoNilIdle(model);
      Do(GetCheck(t));
      if closed {
        return PoolClosed;
      }
      if connections == [] {
        r := Create(t, up);
        return;
      }
      var conn := connections[0];
      connections := connections[1..];
      Do(GetTake(t));
      wg := wg + 1;
      Do(GetAdd(t));
      return Got(conn);
    }

    /** A Release that finds the channel full waits in it: it is past the closed flag and its send
        is not enabled. `Put` is how it goes on once there is room. */
    method ReleaseConnection(ghost t: nat, conn: Option<Conn>) returns (waits: bool)
      requires Valid() && At(model, t, Holding(conn))
      modifies this
      ensures Valid() && (waits <==> !closed && |old(connections)| >= size)
      ensures closed == old(closed) && model.closer == old(model.closer) && model.alive == old(model.alive)
      ensures waits ==>
                && connections == old(connections) && trace == old(trace) + [RelCheck(t)]
                && model.threads == old(model.threads)[t := Releasing(conn)] && !Enabled(model, RelSend(t))
      ensures !waits ==>
                && connections == old(connections) + (if closed then [] else [conn])
                && trace == old(trace) + (if closed then [RelCheck(t)] else [RelCheck(t), RelSend(t), RelDone(t)])
                && model.threads == old(model.threads)[t := Idle]
    {
      hide Inv, Runs, Final, DisciplinedRun, Initial, Users;
      NoNilIdle(model);
      Do(RelCheck(t));
      if closed {
        return false;
      }
      OpenChannel(model);
      if |connections| >= size {
        return true;
      }
      Put(t, conn);
      return false;
    }

    method Put(ghost t: nat, conn: Option<Conn>)
      requires Valid() && At(model, t, Releasing(conn)) && |connections| < size
      modifies this
      ensures Valid() && closed == old(closed) && model.closer == old(model.closer) && model.alive == old(model.alive)
      ensures connections == old(connections) + [conn] && trace == old(trace) + [RelSend(t), RelDone(t)]
      ensures model.threads == old(model.threads)[t := Idle]
    {
      hide Inv, Runs, Final, DisciplinedRun, Initial, Users;
      ReleaserKeepsOpen(model, t);
      connections := connections + [conn];
      Do(RelSend(t));
      wg := wg - 1;
      Do(RelDone(t));
    }

    /** `Close` waits while connections are out; `FinishClose` is how it goes on once they are back.
        It is called once: a second one would close a closed channel. */
    method Close() returns (waits: bool)
      requires Valid() && model.closer.NotStarted?
      modifies this
      ensures Valid() && (waits <==> old(wg) != 0)
      ensures waits ==>
                && model == old(model).(closer := Waiting) && trace == old(trace) + [CloseStart]
                && !Enabled(model, CloseWait)
      ensures !waits ==>
                && closed && connections == [] && model.closer.Finished? && model.alive == {}
                && forall c: Conn | c < dialled :: c in model.closes
    {
      hide Inv, Runs, Final, DisciplinedRun, Initial, Users;
      NoNilIdle(model);
      Do(CloseStart);
      if wg != 0 {
        return true;
      }
      FinishClose();
      return false;
    }

    method FinishClose()
      requires Valid() && model.closer.Waiting? && wg == 0
      modifies this
      ensures Valid() && closed && connections == []
      ensures model.closer.Finished? && model.alive == {}
      ensures forall c: Conn | c < dialled :: c in model.closes
    {
      hide Inv, Runs, Final, DisciplinedRun, Initial, Users;
      NoNilIdle(model);
      Do(CloseWait);
      closed := true;
      Do(CloseFlag);
      Do(CloseChannel);
      Drain();
    }

    method Drain()
      requires Synced() && model.closer.Draining? && closed
      modifies this
      ensures Valid() && closed && connections == []
      ensures model.closer.Finished? && model.alive == {}
      ensures forall c: Conn | c < dialled :: c in model.closes
    {
      hide Inv, Runs, Final, DisciplinedRun, Initial, Users;
      while connections != []
        invariant Synced() && model.closer.Draining? && closed
        decreases |connections|
      {
        connections := connections[1..];
        NoNilIdle(model);
        Do(CloseDrain);
      }
      NoNilIdle(model);
      Do(CloseEnd);
      FinishedIsEmpty(model);
      FinishedIsIdle(model);
    }
  }

  lemma NoNilIdle(s: State)
    requires Inv(s)
    ensures !s.panicked && forall j | 0 <= j < |s.idle| :: s.idle[j].Some?
  {
  }

  lemma FinishedIsIdle(s: State)
    requires Inv(s) && s.closer.Finished?
    ensures forall t | 0 <= t < |s.threads| :: s.threads[t].Idle?
  {
  }

  lemma ReleaserKeepsOpen(s: State, t: nat)
    requires Inv(s) && t < |s.threads| && s.threads[t].Releasing?
    ensures !s.panicked && !s.closed && !s.channelClosed
  {
  }

  lemma FinishedIsEmpty(s: State)
    requires Inv(s) && s.closer.Finished?
    ensures s.alive == {} && forall c: Conn | c < s.next :: c in s.closes
  {
    hide CountInv;
    NobodyHolds(s);
  }

  /** Nobody is closing the pool, and of its users the first `n` hold these connections. */
  ghost predicate HeldBy(pool: ConnectionPool, conns: seq<Option<Conn>>, from: nat, n: nat)
    reads pool
  {
    && pool.Valid() && pool.users == pool.size && !pool.closed && pool.model.closer.NotStarted?
    && n <= |conns| <= pool.size
    && forall t | 0 <= t < pool.size :: pool.model.threads[t] == if from <= t < n then Holding(conns[t]) else Idle
  }

  /** The first loop of `New`: as many connections as the pool has room for, or up to a failed dial. */
  method GetAll(pool: ConnectionPool, up: nat -> bool) returns (conns: seq<Option<Conn>>, ok: bool)
    requires HeldBy(pool, [], 0, 0) && pool.connections == [] && pool.dialled == 0
    requires pool.model.alive == {} && pool.model.closes == []
    modifies pool
    ensures pool.connections == [] && HeldBy(pool, conns, 0, |conns|) && pool.model.closes == []
    ensures pool.dialled == |conns| == |pool.model.alive| && (forall k: nat | k < |conns| :: up(k))
    ensures ok <==> |conns| == pool.size
    ensures !ok ==> !up(|conns|)
  {
    hide Inv, Runs, Final, DisciplinedRun, Apply;
    conns := [];
    while |conns| < pool.size
      invariant pool.connections == [] && HeldBy(pool, conns, 0, |conns|) && pool.model.closes == []
      invariant pool.dialled == |conns| == |pool.model.alive| && (forall k: nat | k < |conns| :: up(k))
    {
      BelowNext(pool.model);
      var r := pool.GetConnection(|conns|, up(|conns|));
      if !r.Got? {
        return conns, false;
      }
      conns := conns + [r.conn];
    }
    return conns, true;
  }

  /** The second loop of `New`: all of them go into the pool. */
  method ReleaseAll(pool: ConnectionPool, conns: seq<Option<Conn>>)
    requires pool.connections == [] && HeldBy(pool, conns, 0, |conns|) && |conns| == pool.size
    modifies pool
    ensures HeldBy(pool, conns, |conns|, |conns|) && |pool.connections| == pool.size
    ensures pool.model.alive == old(pool.model.alive)
  {
    hide Inv, Runs, Final, DisciplinedRun, Apply;
    for j := 0 to |conns|
      invariant HeldBy(pool, conns, j, |conns|) && |pool.connections| == j
      invariant pool.model.alive == old(pool.model.alive)
    {
      var _ := pool.ReleaseConnection(j, conns[j]);
    }
  }

  /** The start of `New`: fill the pool with as many connections as it has room for, `up` saying which
      dials succeed. When one fails, the connections made so far are neither closed nor returned. */
  method Prefill(size: nat, up: nat -> bool) returns (pool: ConnectionPool, ok: bool)
    ensures ok <==> forall i: nat | i < size :: up(i)
    ensures fresh(pool) && pool.Valid() && pool.size == size
    ensures ok ==>
              && |pool.connections| == size == |pool.model.alive| && pool.wg == 0
              && forall t | 0 <= t < |pool.model.threads| :: pool.model.threads[t].Idle?
    ensures !ok ==>
              && pool.dialled < size && !up(pool.dialled) && (forall i: nat | i < pool.dialled :: up(i))
              && pool.model.closes == [] && pool.connections == [] && |pool.model.alive| == pool.dialled
  {
    hide Inv, Runs, Final, DisciplinedRun, Apply;
    pool := new ConnectionPool(size, size);
    var conns;
    conns, ok := GetAll(pool, up);
    if ok {
      ReleaseAll(pool, conns);
      AllIdle(pool.model);
    }
  }

  lemma BelowNext(s: State)
    requires Inv(s)
    ensures s.next !in s.alive
  {
  }

  lemma AllIdle(s: State)
    requires Inv(s) && forall t | 0 <= t < |s.threads| :: s.threads[t].Idle?
    ensures s.wg == 0
  {
    hide OwnInv, NoLeak, LifeInv, CloseInv, Sum;
    SumZero(s.threads, InGroup);
  }

  lemma OpenChannel(s: State)
    requires Inv(s) && !s.closed
    ensures !s.channelClosed && !s.panicked
  {
  }
}
